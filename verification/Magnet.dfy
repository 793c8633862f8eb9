/** Magnet links of `library/src/core/magnet.rs`: the parser, the printer and what a round trip keeps. */
module Magnets {
  import opened Wrappers
  import opened Decimal
  import opened PercentCoding
  import opened SelectOnly
  import opened Sorting
  import opened Splitting

  const PREFIX: string := "magnet:?"
  const BTIH: string := "urn:btih:"
  const BTMH: string := "urn:btmh:1220"
  const HASH_KEY: string := "xt"
  const NAME_KEY: string := "dn"
  const SELECT_KEY: string := "so"
  const TRACKER: string := "tr"
  const WEB_SEED: string := "ws"
  const EXACT_SOURCE: string := "xs"
  const ACCEPTABLE_SOURCE: string := "as"

  datatype MagnetLink = MagnetLink(
    infoHash: Data,
    v2InfoHash: Option<Data>,
    displayName: Option<string>,
    trackers: seq<string>,
    webSeeds: seq<string>,
    exactSources: seq<string>,
    acceptableSources: seq<string>,
    selectOnly: seq<nat>)

  predicate IsListKey(k: string) {
    k == TRACKER || k == WEB_SEED || k == EXACT_SOURCE || k == ACCEPTABLE_SOURCE
  }

  // ---------------------------------------------------------------- parsing

  /** What has been read so far; the four URL lists are kept by their parameter key. */
  datatype Draft = Draft(v1: Option<Data>, v2: Option<Data>, name: Option<string>, lists: map<string, seq<string>>, selection: seq<nat>)

  const EMPTY: Draft :=
    Draft(None, None, None, map[TRACKER := [], WEB_SEED := [], EXACT_SOURCE := [], ACCEPTABLE_SOURCE := []], [])

  ghost predicate Complete(d: Draft) {
    TRACKER in d.lists && WEB_SEED in d.lists && EXACT_SOURCE in d.lists && ACCEPTABLE_SOURCE in d.lists
  }

  function AddUnique(list: seq<string>, x: string): seq<string> {
    if x in list then list else list + [x]
  }

  /** An exact topic: 40 hex digits or 32 base-32 digits for version 1, 64 hex digits for version 2. */
  function TakeHash(d: Draft, val: string): Option<Draft> {
    if BTIH <= val then
      var hash := val[|BTIH|..];
      if ParseHex(hash, 20).Some? then Some(d.(v1 := ParseHex(hash, 20)))
      else if Base32(hash).Some? then Some(d.(v1 := Base32(hash)))
      else None
    else if BTMH <= val then
      var hash := val[|BTMH|..];
      if ParseHex(hash, 32).Some? then Some(d.(v2 := ParseHex(hash, 32))) else None
    else Some(d)
  }

  function TakeValue(d: Draft, key: string, val: string): Option<Draft> {
    if key == HASH_KEY then TakeHash(d, val)
    else if key == NAME_KEY then Some(d.(name := Some(PercentDecoded(val))))
    else if IsListKey(key) then
      Some(if key in d.lists then d.(lists := d.lists[key := AddUnique(d.lists[key], PercentDecoded(val))]) else d)
    else if key == SELECT_KEY then Some(d.(selection := Selected(PercentDecoded(val), d.selection)))
    else Some(d)
  }

  /** One parameter; those without a value are skipped. */
  function TakeParam(d: Draft, param: string): Option<Draft> {
    var eq := IndexOf(param, '=');
    if eq.None? || eq.value + 1 == |param| then Some(d) else TakeValue(d, param[..eq.value], param[eq.value + 1..])
  }

  function TakeParams(d: Draft, params: seq<string>): Option<Draft>
    decreases |params|
  {
    if params == [] then Some(d)
    else
      match TakeParam(d, params[0])
      case None => None
      case Some(next) => TakeParams(next, params[1..])
  }

  function First20(d: Data): Data {
    if |d| >= 20 then d[..20] else d
  }

  function ListOf(d: Draft, key: string): seq<string> {
    if key in d.lists then d.lists[key] else []
  }

  /** The effective info hash: version 1, or else the start of version 2. */
  function Finish(d: Draft): Option<MagnetLink> {
    if d.v1.None? && d.v2.None? then None
    else
      Some(MagnetLink(if d.v1.Some? then d.v1.value else First20(d.v2.value), d.v2, d.name, ListOf(d, TRACKER), ListOf(d, WEB_SEED),
                      ListOf(d, EXACT_SOURCE), ListOf(d, ACCEPTABLE_SOURCE), d.selection))
  }

  function Parsed(uri: string): Option<MagnetLink> {
    if !(PREFIX <= uri) then None
    else
      match TakeParams(EMPTY, Split(uri[|PREFIX|..], '&'))
      case None => None
      case Some(d) => Finish(d)
  }

  // ---------------------------------------------------------------- printing

  predicate IsHybrid(m: MagnetLink) {
    m.v2InfoHash.Some? && |m.infoHash| == 20 && First20(m.v2InfoHash.value) != m.infoHash
  }

  function HashParams(m: MagnetLink): seq<string> {
    (if m.v2InfoHash.None? || IsHybrid(m) then ["xt=" + (BTIH + Hex(m.infoHash))] else [])
    + (if m.v2InfoHash.Some? then ["xt=" + (BTMH + Hex(m.v2InfoHash.value))] else [])
  }

  function NameParams(name: Option<string>): seq<string> {
    if name.None? then [] else ["dn=" + PercentEncoded(name.value)]
  }

  function ListParams(key: string, texts: seq<string>): seq<string> {
    if texts == [] then [] else [key + "=" + PercentEncoded(texts[0])] + ListParams(key, texts[1..])
  }

  function SelectParams(indices: seq<nat>): seq<string> {
    if indices == [] || Formatted(indices) == "" then [] else ["so=" + Formatted(indices)]
  }

  function Params(m: MagnetLink): seq<string> {
    HashParams(m) + NameParams(m.displayName)
    + ListParams(TRACKER, m.trackers) + ListParams(WEB_SEED, m.webSeeds)
    + ListParams(EXACT_SOURCE, m.exactSources) + ListParams(ACCEPTABLE_SOURCE, m.acceptableSources)
    + SelectParams(m.selectOnly)
  }

  function ToUri(m: MagnetLink): string {
    PREFIX + Join(Params(m), '&')
  }

  // ---------------------------------------------------------------- what a round trip keeps

  function AddText(list: seq<string>, text: string): seq<string> {
    if text == "" then list else AddUnique(list, Bytewise(text))
  }

  function AddTexts(list: seq<string>, texts: seq<string>): seq<string>
    decreases |texts|
  {
    if texts == [] then list else AddTexts(AddText(list, texts[0]), texts[1..])
  }

  function NameKept(name: Option<string>): Option<string> {
    if name.None? || name.value == "" then None else Some(Bytewise(name.value))
  }

  /** Texts taken byte by byte, empty ones and repetitions dropped, the selection sorted. */
  function Normal(m: MagnetLink): MagnetLink {
    MagnetLink(m.infoHash, m.v2InfoHash, NameKept(m.displayName), AddTexts([], m.trackers), AddTexts([], m.webSeeds),
               AddTexts([], m.exactSources), AddTexts([], m.acceptableSources), SortedSet(m.selectOnly))
  }

  predicate GoodText(t: string) {
    t != "" && Ascii(t)
  }

  predicate GoodList(texts: seq<string>) {
    && (forall i :: 0 <= i < |texts| ==> GoodText(texts[i]))
    && (forall i, j :: 0 <= i < j < |texts| ==> texts[i] != texts[j])
  }

  /** Non-empty ASCII texts, no repetitions, an increasing selection. */
  predicate Canonical(m: MagnetLink) {
    && (m.displayName.Some? ==> GoodText(m.displayName.value))
    && GoodList(m.trackers) && GoodList(m.webSeeds) && GoodList(m.exactSources) && GoodList(m.acceptableSources)
    && Increasing(m.selectOnly)
  }

  lemma {:induction false} AddTextsGrows(list: seq<string>, texts: seq<string>)
    ensures list <= AddTexts(list, texts) && |AddTexts(list, texts)| <= |list| + |texts|
    decreases |texts|
  {
    hide Bytewise;
    if texts != [] {
      AddTextsGrows(AddText(list, texts[0]), texts[1..]);
    }
  }

  /** A list survives exactly if all its texts are good and different. */
  lemma {:induction false} AddTextsExactly(list: seq<string>, texts: seq<string>)
    ensures AddTexts(list, texts) == list + texts <==>
      && (forall i :: 0 <= i < |texts| ==> GoodText(texts[i]) && texts[i] !in list)
      && (forall i, j :: 0 <= i < j < |texts| ==> texts[i] != texts[j])
    decreases |texts|
  {
    hide Bytewise, Ascii;
    if texts == [] {
      assert list + texts == list;
    } else {
      var t, rest := texts[0], texts[1..];
      BytewiseExactly(t);
      AddTextsGrows(AddText(list, t), rest);
      if GoodText(t) && t !in list {
        assert AddText(list, t) == list + [t];
        assert list + [t] + rest == list + texts;
        AddTextsExactly(list + [t], rest);
        assert forall i :: 0 < i < |texts| ==> texts[i] == rest[i - 1];
      } else if AddText(list, t) != list {
        assert AddText(list, t)[|list|] != (list + texts)[|list|];
      }
    }
  }

  lemma {:induction false} GoodListExactly(texts: seq<string>)
    ensures AddTexts([], texts) == texts <==> GoodList(texts)
  {
    hide AddTexts, GoodText;
    AddTextsExactly([], texts);
    assert [] + texts == texts;
  }

  lemma {:induction false} NormalExactly(m: MagnetLink)
    ensures Normal(m) == m <==> Canonical(m)
  {
    hide AddTexts, SortedSet, GoodList, Increasing, Bytewise, Ascii;
    GoodListExactly(m.trackers);
    GoodListExactly(m.webSeeds);
    GoodListExactly(m.exactSources);
    GoodListExactly(m.acceptableSources);
    SortedSetExactly(m.selectOnly);
    if m.displayName.Some? {
      BytewiseExactly(m.displayName.value);
    }
  }

  // ---------------------------------------------------------------- parsing what was printed

  lemma {:induction false} TakeKeyValue(d: Draft, key: string, val: string)
    requires '=' !in key
    ensures TakeParam(d, key + "=" + val) == if val == "" then Some(d) else TakeValue(d, key, val)
  {
    hide TakeValue;
    var param := key + "=" + val;
    IndexOfFirst(key, val, '=');
    assert param[..|key|] == key && param[|key| + 1..] == val;
  }

  lemma {:induction false} KeysHaveNoEquals()
    ensures '=' !in HASH_KEY && '=' !in NAME_KEY && '=' !in SELECT_KEY
    ensures forall k :: IsListKey(k) ==> '=' !in k && '&' !in k && k != HASH_KEY && k != NAME_KEY && k != SELECT_KEY
  {
  }

  lemma {:induction false} EncodedEmpty(t: string)
    ensures PercentEncoded(t) == "" <==> t == ""
  {
    EncodedIsAscii(Utf8(t));
    Utf8Length(t);
  }

  /** One printed text of a list. */
  lemma {:induction false} TakeText(d: Draft, key: string, t: string)
    requires IsListKey(key) && key in d.lists
    ensures TakeParam(d, key + "=" + PercentEncoded(t)) == Some(d.(lists := d.lists[key := AddText(d.lists[key], t)]))
  {
    hide PercentEncoded, PercentDecoded, Bytewise, IsListKey, TakeHash, TakeParam;
    KeysHaveNoEquals();
    TakeKeyValue(d, key, PercentEncoded(t));
    EncodedEmpty(t);
    PercentRoundTrip(t);
    assert d.lists[key := d.lists[key]] == d.lists;
  }

  lemma {:induction false} TakeTexts(d: Draft, key: string, texts: seq<string>)
    requires IsListKey(key) && key in d.lists
    ensures TakeParams(d, ListParams(key, texts)) == Some(d.(lists := d.lists[key := AddTexts(d.lists[key], texts)]))
    decreases |texts|
  {
    hide PercentEncoded, IsListKey, TakeParam, AddText;
    if texts == [] {
      assert d.lists[key := d.lists[key]] == d.lists;
    } else {
      TakeText(d, key, texts[0]);
      var next := d.(lists := d.lists[key := AddText(d.lists[key], texts[0])]);
      TakeTexts(next, key, texts[1..]);
      assert ListParams(key, texts)[1..] == ListParams(key, texts[1..]);
      assert next.lists[key := AddTexts(next.lists[key], texts[1..])] == d.lists[key := AddTexts(d.lists[key], texts)];
    }
  }

  lemma {:induction false} TakeTwo(d: Draft, a: seq<string>, b: seq<string>)
    ensures TakeParams(d, a + b) == if TakeParams(d, a).None? then None else TakeParams(TakeParams(d, a).value, b)
    decreases |a|
  {
    hide TakeParam;
    if a == [] {
      assert a + b == b;
    } else {
      assert (a + b)[1..] == a[1..] + b;
      if TakeParam(d, a[0]).Some? {
        TakeTwo(TakeParam(d, a[0]).value, a[1..], b);
      }
    }
  }

  lemma {:induction false} TakeName(d: Draft, name: Option<string>)
    requires d.name == None
    ensures TakeParams(d, NameParams(name)) == Some(d.(name := NameKept(name)))
  {
    hide PercentEncoded, PercentDecoded, Bytewise, TakeParam;
    if name.Some? {
      KeysHaveNoEquals();
      assert "dn=" + PercentEncoded(name.value) == NAME_KEY + "=" + PercentEncoded(name.value);
      TakeKeyValue(d, NAME_KEY, PercentEncoded(name.value));
      EncodedEmpty(name.value);
      PercentRoundTrip(name.value);
    }
  }

  /** Plain ASCII without escapes or plus signs decodes to itself. */
  lemma {:induction false} PlainDecodes(s: string)
    requires Ascii(s) && '%' !in s && '+' !in s
    ensures PercentDecoded(s) == s
  {
    AsciiUtf8(s);
    Utf8Length(s);
    var d := Utf8(s);
    assert forall i :: 0 <= i < |d| ==> s[i] == d[i] as char;
    PlainData(d);
  }

  lemma {:induction false} PlainData(d: Data)
    requires forall i :: 0 <= i < |d| ==> d[i] != PERCENT && d[i] != PLUS
    ensures DecodeData(d) == d
  {
    if d != [] {
      PlainData(d[1..]);
      assert d == [d[0]] + d[1..];
    }
  }

  lemma {:induction false} JoinedPlain(parts: seq<string>)
    requires forall i :: 0 <= i < |parts| ==> Plain(parts[i])
    ensures forall i :: 0 <= i < |Join(parts, ',')| ==> IsDigit(Join(parts, ',')[i]) || Join(parts, ',')[i] == '-' || Join(parts, ',')[i] == ','
  {
    if |parts| > 1 {
      JoinedPlain(parts[1..]);
    }
  }

  lemma {:induction false} FormattedPlain(indices: seq<nat>)
    ensures var s := Formatted(indices); Ascii(s) && '%' !in s && '+' !in s && '&' !in s
  {
    hide Runs, SortedSet;
    RunsWithoutComma(SortedSet(indices));
    JoinedPlain(Runs(SortedSet(indices)));
  }

  lemma {:induction false} TakeSelection(d: Draft, indices: seq<nat>)
    requires d.selection == [] && forall i :: 0 <= i < |indices| ==> indices[i] < U64_SIZE
    ensures TakeParams(d, SelectParams(indices)) == Some(d.(selection := SortedSet(indices)))
  {
    hide Formatted, Selected, PercentDecoded, TakeParam, SortedSet;
    if indices == [] {
      NothingSorted(indices);
    } else {
      SelectRoundTrip(indices);
      KeysHaveNoEquals();
      FormattedPlain(indices);
      PlainDecodes(Formatted(indices));
      assert "so=" + Formatted(indices) == SELECT_KEY + "=" + Formatted(indices);
      TakeKeyValue(d, SELECT_KEY, Formatted(indices));
    }
  }

  lemma {:induction false} NothingSorted(indices: seq<nat>)
    ensures indices == [] ==> SortedSet(indices) == []
  {
  }

  lemma {:induction false} TakeTopic(d: Draft, urn: string, hash: Data)
    ensures TakeParams(d, ["xt=" + (urn + Hex(hash))]) == if urn + Hex(hash) == "" then Some(d) else TakeHash(d, urn + Hex(hash))
  {
    hide Hex, TakeHash, TakeParam;
    var val := urn + Hex(hash);
    KeysHaveNoEquals();
    assert "xt=" + val == HASH_KEY + "=" + val;
    TakeKeyValue(d, HASH_KEY, val);
  }

  lemma {:induction false} TakeV1(d: Draft, hash: Data)
    requires |hash| == 20
    ensures TakeParams(d, ["xt=" + (BTIH + Hex(hash))]) == Some(d.(v1 := Some(hash)))
  {
    hide Hex, ParseHex, TakeParams, Base32;
    TakeTopic(d, BTIH, hash);
    HexRoundTrip(hash);
    assert (BTIH + Hex(hash))[|BTIH|..] == Hex(hash);
  }

  lemma {:induction false} TakeV2(d: Draft, hash: Data)
    requires |hash| == 32
    ensures TakeParams(d, ["xt=" + (BTMH + Hex(hash))]) == Some(d.(v2 := Some(hash)))
  {
    hide Hex, ParseHex, TakeParams, Base32;
    TakeTopic(d, BTMH, hash);
    HexRoundTrip(hash);
    var val := BTMH + Hex(hash);
    assert val[|BTMH|..] == Hex(hash);
    assert val[6] == 'm' && BTIH[6] == 'i';
  }

  lemma {:induction false} Chain(d: Draft, a: seq<string>, mid: Draft, b: seq<string>, last: Draft)
    requires TakeParams(d, a) == Some(mid) && TakeParams(mid, b) == Some(last)
    ensures TakeParams(d, a + b) == Some(last)
  {
    hide TakeParams;
    TakeTwo(d, a, b);
  }

  /** Hash lengths as the link's fields promise. */
  predicate SizedHashes(m: MagnetLink) {
    |m.infoHash| == 20 && (m.v2InfoHash.Some? ==> |m.v2InfoHash.value| == 32)
  }

  lemma {:induction false} TakeHashes(d: Draft, m: MagnetLink)
    requires SizedHashes(m) && d.v1 == None && d.v2 == None
    ensures TakeParams(d, HashParams(m)) ==
      Some(d.(v1 := if m.v2InfoHash.None? || IsHybrid(m) then Some(m.infoHash) else None, v2 := m.v2InfoHash))
  {
    hide Hex, TakeParams;
    assert TakeParams(d, []) == Some(d) by { NoParams(d); }
    if m.v2InfoHash.None? {
      TakeV1(d, m.infoHash);
      assert HashParams(m) == ["xt=" + (BTIH + Hex(m.infoHash))];
    } else if IsHybrid(m) {
      TakeV1(d, m.infoHash);
      TakeV2(d.(v1 := Some(m.infoHash)), m.v2InfoHash.value);
      Chain(d, ["xt=" + (BTIH + Hex(m.infoHash))], d.(v1 := Some(m.infoHash)), ["xt=" + (BTMH + Hex(m.v2InfoHash.value))],
            d.(v1 := Some(m.infoHash), v2 := m.v2InfoHash));
    } else {
      TakeV2(d, m.v2InfoHash.value);
      assert HashParams(m) == ["xt=" + (BTMH + Hex(m.v2InfoHash.value))];
    }
  }

  lemma {:induction false} NoParams(d: Draft)
    ensures TakeParams(d, []) == Some(d)
  {
  }

  lemma {:induction false} TakeLists(d: Draft, m: MagnetLink) returns (last: Draft)
    requires Complete(d) && forall k :: k in d.lists ==> d.lists[k] == []
    ensures TakeParams(d, ListParams(TRACKER, m.trackers) + ListParams(WEB_SEED, m.webSeeds)
                          + ListParams(EXACT_SOURCE, m.exactSources) + ListParams(ACCEPTABLE_SOURCE, m.acceptableSources)) == Some(last)
    ensures last == d.(lists := last.lists)
    ensures ListOf(last, TRACKER) == AddTexts([], m.trackers) && ListOf(last, WEB_SEED) == AddTexts([], m.webSeeds)
    ensures ListOf(last, EXACT_SOURCE) == AddTexts([], m.exactSources) && ListOf(last, ACCEPTABLE_SOURCE) == AddTexts([], m.acceptableSources)
  {
    hide TakeParams, ListParams, AddTexts;
    var tr, ws, xs, ac := ListParams(TRACKER, m.trackers), ListParams(WEB_SEED, m.webSeeds),
                          ListParams(EXACT_SOURCE, m.exactSources), ListParams(ACCEPTABLE_SOURCE, m.acceptableSources);
    var d1 := d.(lists := d.lists[TRACKER := AddTexts([], m.trackers)]);
    var d2 := d1.(lists := d1.lists[WEB_SEED := AddTexts([], m.webSeeds)]);
    var d3 := d2.(lists := d2.lists[EXACT_SOURCE := AddTexts([], m.exactSources)]);
    last := d3.(lists := d3.lists[ACCEPTABLE_SOURCE := AddTexts([], m.acceptableSources)]);
    TakeTexts(d, TRACKER, m.trackers);
    TakeTexts(d1, WEB_SEED, m.webSeeds);
    TakeTexts(d2, EXACT_SOURCE, m.exactSources);
    TakeTexts(d3, ACCEPTABLE_SOURCE, m.acceptableSources);
    Chain(d, tr, d1, ws, d2);
    Chain(d, tr + ws, d2, xs, d3);
    Chain(d, tr + ws + xs, d3, ac, last);
  }

  lemma {:induction false} TakeAll(m: MagnetLink) returns (last: Draft)
    requires SizedHashes(m) && forall i :: 0 <= i < |m.selectOnly| ==> m.selectOnly[i] < U64_SIZE
    ensures TakeParams(EMPTY, Params(m)) == Some(last) && Finish(last) == Some(Normal(m))
  {
    hide TakeParams, HashParams, NameParams, ListParams, SelectParams, AddTexts, SortedSet, NameKept;
    var h, n, s := HashParams(m), NameParams(m.displayName), SelectParams(m.selectOnly);
    var tr, ws, xs, ac := ListParams(TRACKER, m.trackers), ListParams(WEB_SEED, m.webSeeds),
                          ListParams(EXACT_SOURCE, m.exactSources), ListParams(ACCEPTABLE_SOURCE, m.acceptableSources);
    var d1 := EMPTY.(v1 := if m.v2InfoHash.None? || IsHybrid(m) then Some(m.infoHash) else None, v2 := m.v2InfoHash);
    var d2 := d1.(name := NameKept(m.displayName));
    TakeHashes(EMPTY, m);
    TakeName(d1, m.displayName);
    var d3 := TakeLists(d2, m);
    TakeSelection(d3, m.selectOnly);
    last := d3.(selection := SortedSet(m.selectOnly));
    Chain(EMPTY, h, d1, n, d2);
    Chain(EMPTY, h + n, d2, tr + ws + xs + ac, d3);
    Chain(EMPTY, h + n + (tr + ws + xs + ac), d3, s, last);
    assert Params(m) == h + n + (tr + ws + xs + ac) + s;
  }

  // ---------------------------------------------------------------- no separator inside a parameter

  lemma {:induction false} HexHasNoSeparator(hash: Data)
    ensures '&' !in Hex(hash)
  {
    UnhexHex(hash);
  }

  lemma {:induction false} EncodedHasNoSeparator(t: string)
    ensures '&' !in PercentEncoded(t)
  {
    EncodedCharacters(Utf8(t));
  }

  ghost predicate Separable(params: seq<string>) {
    forall i :: 0 <= i < |params| ==> '&' !in params[i]
  }

  lemma {:induction false} HashesSeparable(m: MagnetLink)
    ensures Separable(HashParams(m)) && HashParams(m) != []
  {
    hide Hex;
    HexHasNoSeparator(m.infoHash);
    if m.v2InfoHash.Some? {
      HexHasNoSeparator(m.v2InfoHash.value);
    }
  }

  lemma {:induction false} ListSeparable(key: string, texts: seq<string>)
    requires '&' !in key
    ensures Separable(ListParams(key, texts))
    decreases |texts|
  {
    hide PercentEncoded;
    if texts != [] {
      EncodedHasNoSeparator(texts[0]);
      ListSeparable(key, texts[1..]);
    }
  }

  lemma {:induction false} OthersSeparable(m: MagnetLink)
    ensures Separable(NameParams(m.displayName)) && Separable(SelectParams(m.selectOnly))
  {
    hide PercentEncoded, Formatted;
    FormattedPlain(m.selectOnly);
    if m.displayName.Some? {
      EncodedHasNoSeparator(m.displayName.value);
    }
  }

  lemma {:induction false} AllSeparable(m: MagnetLink)
    ensures Separable(Params(m)) && Params(m) != []
  {
    hide HashParams, NameParams, ListParams, SelectParams;
    KeysHaveNoEquals();
    HashesSeparable(m);
    OthersSeparable(m);
    ListSeparable(TRACKER, m.trackers);
    ListSeparable(WEB_SEED, m.webSeeds);
    ListSeparable(EXACT_SOURCE, m.exactSources);
    ListSeparable(ACCEPTABLE_SOURCE, m.acceptableSources);
  }

  /**
    Round trip: parsing a printed link gives its normal form, which is the link
    itself exactly if its texts are non-empty ASCII, its lists have no repetition
    and its selection is increasing.
   */
  lemma {:induction false} MagnetRoundTrip(m: MagnetLink)
    requires SizedHashes(m) && forall i :: 0 <= i < |m.selectOnly| ==> m.selectOnly[i] < U64_SIZE
    ensures Parsed(ToUri(m)) == Some(Normal(m))
    ensures Parsed(ToUri(m)) == Some(m) <==> Canonical(m)
  {
    hide Params, Join, Split, TakeParams, Finish, Normal, Canonical;
    AllSeparable(m);
    SplitJoin(Params(m), '&');
    var uri := ToUri(m);
    assert PREFIX <= uri && uri[|PREFIX|..] == Join(Params(m), '&');
    var d := TakeAll(m);
    NormalExactly(m);
  }

  // ---------------------------------------------------------------- the program

  /** `MagnetLink::parse`. */
  method ParseMagnet(uri: string) returns (m: Option<MagnetLink>)
    ensures m == Parsed(uri)
  {
    hide TakeParam, Split, Finish;
    if !(PREFIX <= uri) {
      return None;
    }
    var params := Split(uri[|PREFIX|..], '&');
    var d := EMPTY;
    while params != []
      invariant TakeParams(d, params) == TakeParams(EMPTY, Split(uri[|PREFIX|..], '&'))
    {
      var next := TakeParam(d, params[0]);
      if next.None? {
        return None;
      }
      d := next.value;
      params := params[1..];
    }
    m := Finish(d);
  }

  method PrintList(key: string, texts: seq<string>) returns (params: seq<string>)
    ensures params == ListParams(key, texts)
  {
    hide PercentEncoded;
    params := [];
    var rest := texts;
    while rest != []
      invariant params + ListParams(key, rest) == ListParams(key, texts)
    {
      var encoded := PercentEncode(rest[0]);
      var param := key + "=" + encoded;
      assert params + ([param] + ListParams(key, rest[1..])) == params + [param] + ListParams(key, rest[1..]);
      params := params + [param];
      rest := rest[1..];
    }
  }

  /** `to_uri`. */
  method PrintMagnet(m: MagnetLink) returns (uri: string)
    ensures uri == ToUri(m)
  {
    hide HashParams, ListParams, PercentEncoded, Formatted, Join;
    var params := HashParams(m);
    if m.displayName.Some? {
      var name := PercentEncode(m.displayName.value);
      params := params + ["dn=" + name];
    }
    assert params == HashParams(m) + NameParams(m.displayName);
    var tr := PrintList(TRACKER, m.trackers);
    var ws := PrintList(WEB_SEED, m.webSeeds);
    var xs := PrintList(EXACT_SOURCE, m.exactSources);
    var ac := PrintList(ACCEPTABLE_SOURCE, m.acceptableSources);
    params := params + tr + ws + xs + ac;
    ghost var before := params;
    if m.selectOnly != [] {
      var selection := FormatSelectOnly(m.selectOnly);
      if selection != "" {
        params := params + ["so=" + selection];
      }
    }
    assert params == before + SelectParams(m.selectOnly);
    uri := PREFIX + Join(params, '&');
  }
}
