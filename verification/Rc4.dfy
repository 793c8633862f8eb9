/**
  The RC4 stream cipher of `library/src/network/mse.rs`: a 256-byte state that is
  swapped in place, two wrapping byte counters, data XORed in place.
 */
module Rc4Cipher {
  import opened Octets

  type Bytes = seq<Octet>

  /** The value of a cipher: its state array and the two counters. */
  datatype Stream = Stream(state: Bytes, i: Octet, j: Octet)

  // ---------------------------------------------------------------- permutations

  /** Every byte value occurs exactly once. */
  ghost predicate IsPermutation(s: Bytes) {
    |s| == 256 && forall v: Octet :: multiset(s)[v] == 1
  }

  function Swap(s: Bytes, a: nat, b: nat): (r: Bytes)
    requires a < |s| && b < |s|
    ensures |r| == |s|
  {
    s[a := s[b]][b := s[a]]
  }

  /** The state before key scheduling: byte k at position k. */
  function Identity(): (r: Bytes)
    ensures |r| == 256
    ensures forall k :: 0 <= k < 256 ==> r[k] == k
  {
    seq(256, k requires 0 <= k < 256 => k)
  }

  lemma {:induction false} IdentityCounts(n: nat, v: Octet)
    requires n <= 256
    ensures multiset(Identity()[..n])[v] == if v < n then 1 else 0
  {
    if n > 0 {
      IdentityCounts(n - 1, v);
      assert Identity()[..n] == Identity()[..n - 1] + [n - 1];
    }
  }

  lemma {:induction false} IdentityIsPermutation()
    ensures IsPermutation(Identity())
  {
    forall v: Octet
      ensures multiset(Identity())[v] == 1
    {
      IdentityCounts(|Identity()|, v);
      assert Identity()[..|Identity()|] == Identity();
    }
  }

  // ---------------------------------------------------------------- specification

  /** The state and the counter j after n rounds of key scheduling. */
  function Schedule(key: Bytes, s: Bytes, n: nat): (r: (Bytes, Octet))
    requires key != [] && |s| == 256 && n <= 256
    ensures |r.0| == 256
  {
    if n == 0 then (s, 0)
    else
      var (t, j) := Schedule(key, s, n - 1);
      var j' := WrapAdd(WrapAdd(j, t[n - 1]), key[(n - 1) % |key|]);
      (Swap(t, n - 1, j'), j')
  }

  /** A freshly keyed cipher: one scheduling round per state byte. */
  function Keyed(key: Bytes): (r: Stream)
    requires key != []
    ensures |r.state| == 256
  {
    Stream(Schedule(key, Identity(), |Identity()|).0, 0, 0)
  }

  /** One keystream step. */
  function Step(c: Stream): (r: Stream)
    requires |c.state| == 256
    ensures |r.state| == 256
  {
    var i := WrapAdd(c.i, 1);
    var j := WrapAdd(c.j, c.state[i]);
    Stream(Swap(c.state, i, j), i, j)
  }

  /** The key byte visible after a step. */
  function KeyByte(c: Stream): (r: Octet)
    requires |c.state| == 256
  {
    c.state[WrapAdd(c.state[c.i], c.state[c.j])]
  }

  function After(c: Stream, n: nat): (r: Stream)
    requires |c.state| == 256
    ensures |r.state| == 256
    decreases n
  {
    if n == 0 then c else After(Step(c), n - 1)
  }

  function Keystream(c: Stream, n: nat): (r: Bytes)
    requires |c.state| == 256
    ensures |r| == n
    decreases n
  {
    if n == 0 then [] else [KeyByte(Step(c))] + Keystream(Step(c), n - 1)
  }

  function XorAll(a: Bytes, b: Bytes): (r: Bytes)
    requires |a| == |b|
    ensures |r| == |a|
    ensures forall k :: 0 <= k < |a| ==> r[k] == Octets.Xor(a[k], b[k])
  {
    if a == [] then [] else [Octets.Xor(a[0], b[0])] + XorAll(a[1..], b[1..])
  }

  /** What encrypting one buffer produces. */
  function Encrypted(c: Stream, data: Bytes): (r: Bytes)
    requires |c.state| == 256
    ensures |r| == |data|
  {
    XorAll(data, Keystream(c, |data|))
  }

  // ---------------------------------------------------------------- the cipher object

  class Rc4 {
    var state: array<Octet>
    var i: Octet
    var j: Octet

    ghost predicate Valid()
      reads this, state
    {
      state.Length == 256 && IsPermutation(state[..])
    }

    ghost function View(): (r: Stream)
      reads this, state
    {
      Stream(state[..], i, j)
    }

    constructor (key: Bytes)
      requires key != []
      ensures Valid() && fresh(state)
      ensures View() == Keyed(key)
    {
      var s := new Octet[256];
      FillIdentity(s);
      ScheduleKey(s, key);
      state, i, j := s, 0, 0;
      IdentityIsPermutation();
      SchedulePermutes(key, Identity(), |Identity()|);
    }

    static method FillIdentity(s: array<Octet>)
      requires s.Length == 256
      modifies s
      ensures s[..] == Identity()
    {
      for k := 0 to 256
        invariant forall m :: 0 <= m < k ==> s[m] == m
      {
        s[k] := k;
      }
    }

    static method ScheduleKey(s: array<Octet>, key: Bytes)
      requires s.Length == 256 && key != []
      modifies s
      ensures s[..] == Schedule(key, old(s[..]), s.Length).0
    {
      var j: Octet := 0;
      for k := 0 to s.Length
        invariant (s[..], j) == Schedule(key, old(s[..]), k)
      {
        j := WrapAdd(WrapAdd(j, s[k]), key[k % |key|]);
        ghost var before := s[..];
        s[k], s[j] := s[j], s[k];
        assert s[..] == Swap(before, k, j);
      }
    }

    /** Advances the keystream by one byte. */
    method NextKeyByte() returns (key: Octet)
      requires state.Length == 256
      modifies this`i, this`j, state
      ensures state.Length == 256 && View() == Step(old(View())) && key == KeyByte(View())
    {
      ghost var at := View();
      i := WrapAdd(i, 1);
      j := WrapAdd(j, state[i]);
      state[i], state[j] := state[j], state[i];
      assert state[..] == Swap(at.state, i, j);
      var t := WrapAdd(state[i], state[j]);
      key := state[t];
    }

    /** Encrypts or decrypts a buffer in place. */
    method Encrypt(data: array<Octet>)
      requires Valid() && data != state
      modifies this`i, this`j, state, data
      ensures Valid()
      ensures data[..] == Encrypted(old(View()), old(data[..]))
      ensures View() == After(old(View()), data.Length)
    {
      ghost var c, plain := View(), data[..];
      for k := 0 to data.Length
        invariant state.Length == 256 && data != state
        invariant View() == After(c, k)
        invariant forall m :: k <= m < data.Length ==> data[m] == plain[m]
        invariant data[..k] == Encrypted(c, plain[..k])
      {
        ghost var done := data[..k];
        AfterSplit(c, k, 1);
        KeystreamSplit(c, k, 1);
        assert Keystream(After(c, k), 1) == [KeyByte(Step(After(c, k)))];
        EncryptedAppend(c, plain[..k], [plain[k]]);
        var key := NextKeyByte();
        data[k] := Octets.Xor(data[k], key);
        assert data[..k + 1] == done + [Octets.Xor(plain[k], key)];
        assert plain[..k + 1] == plain[..k] + [plain[k]];
      }
      assert data[..] == data[..data.Length] && plain[..data.Length] == plain;
      AfterPermutes(c, data.Length);
    }
  }

  // ---------------------------------------------------------------- laws

  lemma {:induction false} SwapPermutes(s: Bytes, a: nat, b: nat)
    requires a < |s| && b < |s|
    ensures multiset(Swap(s, a, b)) == multiset(s)
  {
  }

  lemma {:induction false} SchedulePermutes(key: Bytes, s: Bytes, n: nat)
    requires key != [] && |s| == 256 && n <= 256
    ensures multiset(Schedule(key, s, n).0) == multiset(s)
  {
    if n > 0 {
      SchedulePermutes(key, s, n - 1);
      var (t, j) := Schedule(key, s, n - 1);
      SwapPermutes(t, n - 1, WrapAdd(WrapAdd(j, t[n - 1]), key[(n - 1) % |key|]));
    }
  }

  lemma {:induction false} AfterPermutes(c: Stream, n: nat)
    requires |c.state| == 256
    ensures multiset(After(c, n).state) == multiset(c.state)
    decreases n
  {
    if n > 0 {
      var i := WrapAdd(c.i, 1);
      SwapPermutes(c.state, i, WrapAdd(c.j, c.state[i]));
      AfterPermutes(Step(c), n - 1);
    }
  }

  /** The state is a permutation after key scheduling and any number of keystream bytes. */
  lemma {:induction false} AlwaysPermutation(key: Bytes, n: nat)
    requires key != []
    ensures IsPermutation(After(Keyed(key), n).state)
  {
    IdentityIsPermutation();
    SchedulePermutes(key, Identity(), |Identity()|);
    AfterPermutes(Keyed(key), n);
  }

  lemma {:induction false} AfterSplit(c: Stream, m: nat, n: nat)
    requires |c.state| == 256
    ensures After(c, m + n) == After(After(c, m), n)
    decreases m
  {
    if m > 0 {
      AfterSplit(Step(c), m - 1, n);
    }
  }

  lemma {:induction false} ConsAppend(x: Octet, a: Bytes, b: Bytes)
    ensures [x] + (a + b) == ([x] + a) + b
  {
  }

  lemma {:induction false} NoBytes(c: Stream)
    requires |c.state| == 256
    ensures Keystream(c, 0) == [] && After(c, 0) == c
  {
  }

  lemma {:induction false} FirstByte(c: Stream, n: nat)
    requires |c.state| == 256 && n > 0
    ensures Keystream(c, n) == [KeyByte(Step(c))] + Keystream(Step(c), n - 1)
    ensures After(c, n) == After(Step(c), n - 1)
  {
    hide Step, KeyByte;
  }

  lemma {:induction false} KeystreamSplit(c: Stream, m: nat, n: nat)
    requires |c.state| == 256
    ensures Keystream(c, m + n) == Keystream(c, m) + Keystream(After(c, m), n)
    decreases m
  {
    hide Step, KeyByte, Keystream, After;
    if m == 0 {
      NoBytes(c);
      assert [] + Keystream(c, n) == Keystream(c, n);
    } else {
      var d := Step(c);
      FirstByte(c, m);
      FirstByte(c, m + n);
      KeystreamSplit(d, m - 1, n);
      ConsAppend(KeyByte(d), Keystream(d, m - 1), Keystream(After(d, m - 1), n));
    }
  }

  lemma {:induction false} XorAllAppend(a: Bytes, b: Bytes, k: Bytes, l: Bytes)
    requires |a| == |k| && |b| == |l|
    ensures XorAll(a + b, k + l) == XorAll(a, k) + XorAll(b, l)
  {
  }

  /** Encrypting a concatenation runs the cipher on through both parts. */
  lemma {:induction false} EncryptedAppend(c: Stream, a: Bytes, b: Bytes)
    requires |c.state| == 256
    ensures Encrypted(c, a + b) == Encrypted(c, a) + Encrypted(After(c, |a|), b)
  {
    KeystreamSplit(c, |a|, |b|);
    XorAllAppend(a, b, Keystream(c, |a|), Keystream(After(c, |a|), |b|));
  }

  /** Encrypting buffer after buffer with one running cipher. */
  function EncryptedChunks(c: Stream, chunks: seq<Bytes>): (r: seq<Bytes>)
    requires |c.state| == 256
    decreases |chunks|
  {
    if chunks == [] then []
    else [Encrypted(c, chunks[0])] + EncryptedChunks(After(c, |chunks[0]|), chunks[1..])
  }

  function Flatten(chunks: seq<Bytes>): (r: Bytes) {
    if chunks == [] then [] else chunks[0] + Flatten(chunks[1..])
  }

  /** Chunking does not matter: any chunks give the encryption of their concatenation. */
  lemma {:induction false} ChunkingIrrelevant(c: Stream, chunks: seq<Bytes>)
    requires |c.state| == 256
    ensures Flatten(EncryptedChunks(c, chunks)) == Encrypted(c, Flatten(chunks))
    decreases |chunks|
  {
    if chunks != [] {
      var head := chunks[0];
      ChunkingIrrelevant(After(c, |head|), chunks[1..]);
      EncryptedAppend(c, head, Flatten(chunks[1..]));
      var out := EncryptedChunks(c, chunks);
      assert out[0] == Encrypted(c, head) && out[1..] == EncryptedChunks(After(c, |head|), chunks[1..]);
    }
  }

  lemma {:induction false} XorAllTwice(a: Bytes, k: Bytes)
    requires |a| == |k|
    ensures XorAll(XorAll(a, k), k) == a
  {
    forall n | 0 <= n < |a|
      ensures XorAll(XorAll(a, k), k)[n] == a[n]
    {
      XorTwice(a[n], k[n]);
    }
  }

  /**
    A second cipher with the same key recovers the plaintext, whatever chunks the
    sender wrote and whatever chunks the receiver reads.
   */
  lemma {:induction false} DecryptRecovers(key: Bytes, sent: seq<Bytes>, received: seq<Bytes>)
    requires key != []
    requires Flatten(received) == Flatten(EncryptedChunks(Keyed(key), sent))
    ensures Flatten(EncryptedChunks(Keyed(key), received)) == Flatten(sent)
  {
    var c := Keyed(key);
    ChunkingIrrelevant(c, sent);
    ChunkingIrrelevant(c, received);
    XorAllTwice(Flatten(sent), Keystream(c, |Flatten(sent)|));
  }
}
