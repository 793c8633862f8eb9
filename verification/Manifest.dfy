/**
  The expedited manifest of `library/src/network/metadata_fetcher.rs`: parsing the file
  list from a possibly truncated info dictionary.  Text is kept as its UTF-8 bytes.
 */
module Manifests {
  import opened Wrappers
  import opened Sizes
  import opened Utf8
  import opened Decimal
  import opened Bencode
  import opened Collections
  import FileSelection

  const NAME: Bytes := "name"
  const PIECE_LENGTH: Bytes := "piece length"
  const FILES: Bytes := "files"
  const LENGTH: Bytes := "length"
  const PATH: Bytes := "path"

  datatype PartialFile = PartialFile(index: nat, name: Bytes, length: nat, pieceRange: (nat, nat))

  datatype Manifest = Manifest(name: Bytes, pieceLength: nat, totalBytes: nat, totalPieces: nat, files: seq<PartialFile>)

  // ---------------------------------------------------------------- reading nodes

  /** `dict_get`: the first entry with that key. */
  function Get(entries: seq<Entry>, key: Bytes): (r: Option<BNode>)
    ensures r.Some? <==> exists i :: 0 <= i < |entries| && entries[i].key == key
  {
    if entries == [] then None
    else if entries[0].key == key then Some(entries[0].value)
    else
      assert forall i :: 1 <= i < |entries| ==> entries[1..][i - 1] == entries[i];
      Get(entries[1..], key)
  }

  function DictGet(n: BNode, key: Bytes): Option<BNode> {
    if n.Dictionary? then Get(n.entries, key) else None
  }

  function AsU64(n: Option<BNode>): Option<nat> {
    if n.Some? && n.value.Number? then ParseUnsigned(n.value.numeral, U64_SIZE) else None
  }

  /** The string components of a path list joined by slashes; `None` if there are none. */
  function JoinedPath(parts: seq<BNode>, n: nat): Option<Bytes>
    requires n <= |parts|
  {
    if n == 0 then None
    else
      var front := JoinedPath(parts, n - 1);
      match parts[n - 1]
      case String(bytes) => Some(if front.Some? then front.value + "/" + Lossy(bytes) else Lossy(bytes))
      case _ => front
  }

  function FileLength(file: BNode): nat {
    var length := AsU64(DictGet(file, LENGTH));
    if length.Some? then length.value else 0
  }

  function FileName(file: BNode, index: nat): Bytes {
    var path := DictGet(file, PATH);
    var joined := if path.Some? && path.value.List? then JoinedPath(path.value.items, |path.value.items|) else None;
    if joined.Some? then joined.value else "file_" + Dec(index)
  }

  function TotalOf(items: seq<BNode>, n: nat): nat
    requires n <= |items|
  {
    if n == 0 then 0 else TotalOf(items, n - 1) + FileLength(items[n - 1])
  }

  /** The first n files, laid out one after the other. */
  function FilesOf(items: seq<BNode>, pieceLength: nat, n: nat): (r: seq<PartialFile>)
    requires n <= |items|
    ensures |r| == n
  {
    if n == 0 then []
    else
      var length := FileLength(items[n - 1]);
      var range := FileSelection.PieceRange(FileSelection.FileDetails(TotalOf(items, n - 1), length, FileSelection.Normal), pieceLength);
      FilesOf(items, pieceLength, n - 1) + [PartialFile(n - 1, FileName(items[n - 1], n - 1), length, range)]
  }

  function PieceCount(total: nat, pieceLength: nat): nat
    requires pieceLength > 0
  {
    if total == 0 then 0 else ((total + pieceLength - 1) / pieceLength) % U32_SIZE
  }

  /** `from_bnode` on a dictionary with the given entries. */
  function ManifestOf(entries: seq<Entry>): Option<Manifest> {
    var pieceLength := AsU64(Get(entries, PIECE_LENGTH));
    if pieceLength.None? || pieceLength.value == 0 then None
    else Some(Described(Get(entries, NAME), Get(entries, FILES), Get(entries, LENGTH), pieceLength.value))
  }

  function NameOr(name: Option<BNode>): Bytes {
    if name.Some? && name.value.String? then Lossy(name.value.bytes) else "unnamed"
  }

  function Described(name: Option<BNode>, files: Option<BNode>, length: Option<BNode>, pieceLength: nat): Manifest
    requires pieceLength > 0
  {
    if files.Some? then
      if files.value.List? then
        var items := files.value.items;
        var total := TotalOf(items, |items|);
        Manifest(NameOr(name), pieceLength, total, PieceCount(total, pieceLength), FilesOf(items, pieceLength, |items|))
      else Manifest(NameOr(name), pieceLength, 0, 0, [])
    else if length.Some? then
      var total := if AsU64(length).Some? then AsU64(length).value else 0;
      var range := FileSelection.PieceRange(FileSelection.FileDetails(0, total, FileSelection.Normal), pieceLength);
      Manifest(NameOr(name), pieceLength, total, PieceCount(total, pieceLength), [PartialFile(0, NameOr(name), total, range)])
    else Manifest(NameOr(name), pieceLength, 0, 0, [])
  }

  // ---------------------------------------------------------------- names are text

  lemma {:induction false} JoinedIsText(parts: seq<BNode>, n: nat)
    requires n <= |parts|
    ensures JoinedPath(parts, n).Some? ==> IsUtf8(JoinedPath(parts, n).value)
  {
    hide IsUtf8, Lossy;
    if n > 0 {
      JoinedIsText(parts, n - 1);
      if parts[n - 1].String? {
        LossyExactly(parts[n - 1].bytes);
        var front := JoinedPath(parts, n - 1);
        if front.Some? {
          SplitAtAscii(front.value, '/', Lossy(parts[n - 1].bytes));
        }
      }
    }
  }

  lemma {:induction false} FileNameIsText(file: BNode, index: nat)
    ensures IsUtf8(FileName(file, index))
  {
    hide IsUtf8, JoinedPath, Dec;
    var path := DictGet(file, PATH);
    if path.Some? && path.value.List? {
      JoinedIsText(path.value.items, |path.value.items|);
    }
    DecShape(index);
    AsciiIsText("file_" + Dec(index));
  }

  lemma {:induction false} FilesAreText(items: seq<BNode>, pieceLength: nat, n: nat)
    requires n <= |items|
    ensures forall i :: 0 <= i < n ==> IsUtf8(FilesOf(items, pieceLength, n)[i].name)
  {
    hide IsUtf8, FileName, FileLength, FileSelection.PieceRange;
    if n > 0 {
      FilesAreText(items, pieceLength, n - 1);
      FileNameIsText(items[n - 1], n - 1);
    }
  }

  /** Whatever bytes the dictionary holds, the names of a manifest are UTF-8 text. */
  lemma {:induction false} NamesAreText(entries: seq<Entry>)
    requires ManifestOf(entries).Some?
    ensures var m := ManifestOf(entries).value; IsUtf8(m.name) && forall i :: 0 <= i < |m.files| ==> IsUtf8(m.files[i].name)
  {
    hide IsUtf8, Lossy, FilesOf, FileSelection.PieceRange;
    var name, files := Get(entries, NAME), Get(entries, FILES);
    NameIsText(name);
    if files.Some? && files.value.List? {
      FilesAreText(files.value.items, AsU64(Get(entries, PIECE_LENGTH)).value, |files.value.items|);
    }
  }

  lemma {:induction false} NameIsText(name: Option<BNode>)
    ensures IsUtf8(NameOr(name))
  {
    hide IsUtf8, Lossy;
    AsciiIsText("unnamed");
    if name.Some? && name.value.String? {
      LossyExactly(name.value.bytes);
    }
  }

  // ---------------------------------------------------------------- scanning truncated input

  function FindColon(s: Bytes): (r: Option<nat>)
    ensures r.Some? ==> r.value < |s| && s[r.value] == ':' && forall i :: 0 <= i < r.value ==> s[i] != ':'
    ensures r.None? ==> forall i :: 0 <= i < |s| ==> s[i] != ':'
  {
    if s == "" then None
    else if s[0] == ':' then Some(0)
    else
      match FindColon(s[1..])
      case None => assert forall i :: 1 <= i < |s| ==> s[1..][i - 1] == s[i]; None
      case Some(k) => Some(k + 1)
  }

  /** What one round of the scan finds at the head of its input. */
  datatype Found = Unreadable | Cut | Found(entry: Entry, rest: Bytes)

  function NextEntry(s: Bytes): (r: Found)
    ensures r.Found? ==> |r.rest| < |s| && r.rest == s[|s| - |r.rest|..]
  {
    match KeyLength(s)
    case None => Unreadable
    case Some((start, length)) => if start + length > |s| then Cut else ValueAt(s, s[start..start + length], start + length)
  }

  /** Where the key starts and how long it is. */
  function KeyLength(s: Bytes): (r: Option<(nat, nat)>)
    ensures r.Some? ==> 0 < r.value.0 <= |s|
  {
    match FindColon(s)
    case None => None
    case Some(colon) =>
      match ParseUnsigned(s[..colon], U64_SIZE)
      case None => None
      case Some(length) => Some((colon + 1, length))
  }

  /** The entry whose value starts at `from`. */
  function ValueAt(s: Bytes, key: Bytes, from: nat): (r: Found)
    requires 0 < from <= |s|
    ensures r.Found? ==> |r.rest| < |s| && r.rest == s[|s| - |r.rest|..]
  {
    var tail := s[from..];
    match DecodeNode(tail, 0)
    case None => Cut
    case Some((value, rest)) =>
      DecodedSuffix(tail, 0);
      EndOfEnd(s, from, |rest|);
      Found(Entry(key, value), rest)
  }

  lemma {:induction false} EndOfEnd(s: Bytes, from: nat, n: nat)
    requires from <= |s| && n <= |s| - from
    ensures s[from..][|s| - from - n..] == s[|s| - n..]
  {
  }

  /** What a decoded value leaves is the end of its input. */
  lemma {:induction false} DecodedSuffix(s: Bytes, depth: nat)
    requires DecodeNode(s, depth).Some?
    ensures var rest := DecodeNode(s, depth).value.1; |rest| < |s| && rest == s[|s| - |rest|..]
  {
    NodePrintsBack(s, depth);
  }

  /** The entries that can be read from the inside of a truncated dictionary; `None` if a key is unreadable. */
  function Scan(s: Bytes): Option<seq<Entry>>
    decreases |s|
  {
    if s == "" || s[0] == 'e' then Some([])
    else
      match NextEntry(s)
      case Unreadable => None
      case Cut => Some([])
      case Found(entry, rest) =>
        match Scan(rest)
        case None => None
        case Some(entries) => Some([entry] + entries)
  }

  function ScanManifest(s: Bytes): Option<Manifest> {
    match Scan(s)
    case None => None
    case Some(entries) => if entries == [] then None else ManifestOf(entries)
  }

  /** `try_parse_partial`. */
  function Parsed(data: Bytes): Option<Manifest> {
    if data == "" || data[0] != 'd' then None
    else
      match Decode(data)
      case Some(Dictionary(entries)) => if ManifestOf(entries).Some? then ManifestOf(entries) else ScanManifest(data[1..])
      case _ => ScanManifest(data[1..])
  }

  // ---------------------------------------------------------------- every prefix agrees

  /** From a prefix of readable entries the scan reads some leading entries, unchanged, or nothing. */
  lemma {:induction false} ScanOfPrefix(s: Bytes, k: nat)
    requires DecodeEntries(s, 1).Some? && k <= |s|
    ensures Scan(s[..k]).Some? ==> Scan(s[..k]).value <= DecodeEntries(s, 1).value.0
    decreases |s|
  {
    hide ReadString, DecodeNode, NextEntry;
    var q := s[..k];
    if q != "" && s[0] != 'e' {
      var (key, valued) := ReadString(s).value;
      var (value, more) := DecodeNode(valued, 1).value;
      EntryOfPrefix(s, k, key, valued, value, more);
      var found := NextEntry(q);
      if found.Found? {
        ScanOfPrefix(more, |found.rest|);
      }
    }
  }

  /** One round of the scan on a prefix finds the entry itself or nothing. */
  lemma {:induction false} EntryOfPrefix(s: Bytes, k: nat, key: Bytes, valued: Bytes, value: BNode, more: Bytes)
    requires ReadString(s) == Some((key, valued)) && DecodeNode(valued, 1) == Some((value, more)) && k <= |s|
    ensures var found := NextEntry(s[..k]);
      found.Found? ==> found.entry == Entry(key, value) && |found.rest| <= |more| && found.rest == more[..|found.rest|]
  {
    hide ReadString, DecodeNode, PrintString, ParseUnsigned, Dec;
    ReadStringExactly(s, key, valued);
    KeyOfPrefix(key, valued, k);
    var start := |Dec(|key|)| + 1 + |key|;
    if start <= k {
      PrintedLength(key);
      var tail := s[start..k];
      assert s[start..] == valued && s[..k][start..] == tail;
      assert tail + s[k..] == s[start..];
      if DecodeNode(tail, 0).Some? {
        ValueOfPrefix(tail, s[k..], value, more);
      }
    }
  }

  lemma {:induction false} PrintedLength(key: Bytes)
    ensures |PrintString(key)| == |Dec(|key|)| + 1 + |key|
  {
  }

  /** A value read from truncated input is the value of the whole input. */
  lemma {:induction false} ValueOfPrefix(tail: Bytes, cut: Bytes, value: BNode, more: Bytes)
    requires DecodeNode(tail + cut, 1) == Some((value, more)) && DecodeNode(tail, 0).Some?
    ensures var (v, rest) := DecodeNode(tail, 0).value; v == value && |rest| <= |more| && rest == more[..|rest|]
  {
    hide DecodeNode;
    var (v, rest) := DecodeNode(tail, 0).value;
    DecodeStable(tail, 0, v, rest, cut, 0);
    DecodeStable(tail + cut, 1, value, more, "", 0);
    assert tail + cut + "" == tail + cut && more + "" == more;
  }

  /** The key's length, once its colon is there, reads the same in a prefix. */
  lemma {:induction false} KeyOfPrefix(key: Bytes, valued: Bytes, k: nat)
    requires k <= |PrintString(key) + valued| && |key| <= MAX_STRING_LENGTH
    ensures
      var s := PrintString(key) + valued;
      var q := s[..k];
      var digits := |Dec(|key|)|;
      && IsDigit(s[0])
      && (digits < k <==> FindColon(q).Some?)
      && (FindColon(q).Some? ==> FindColon(q) == Some(digits) && digits + 1 <= k && ParseUnsigned(q[..digits], U64_SIZE) == Some(|key|))
      && (digits + 1 + |key| <= k ==> q[digits + 1..digits + 1 + |key|] == key)
  {
    hide Dec, Value;
    var d := Dec(|key|);
    DecShape(|key|);
    ValueDec(|key|);
    var s := PrintString(key) + valued;
    assert s == d + ":" + key + valued;
    assert forall i :: 0 <= i < |d| ==> s[i] == d[i];
    assert s[|d|] == ':';
    var q := s[..k];
    if |d| < k {
      assert q[|d|] == ':';
      assert q[..|d|] == d;
    }
  }

  /** Without truncation the scan reads every entry. */
  lemma {:induction false} ScanOfWhole(s: Bytes)
    requires DecodeEntries(s, 1).Some?
    ensures Scan(s) == Some(DecodeEntries(s, 1).value.0)
    decreases |s|
  {
    hide ReadString, DecodeNode, NextEntry;
    if s[0] != 'e' {
      var (key, valued) := ReadString(s).value;
      var (value, more) := DecodeNode(valued, 1).value;
      EntryOfWhole(s, key, valued, value, more);
      ScanOfWhole(more);
    }
  }

  lemma {:induction false} EntryOfWhole(s: Bytes, key: Bytes, valued: Bytes, value: BNode, more: Bytes)
    requires ReadString(s) == Some((key, valued)) && DecodeNode(valued, 1) == Some((value, more))
    ensures NextEntry(s) == Found(Entry(key, value), more)
  {
    hide ReadString, DecodeNode, PrintString, ParseUnsigned, Dec;
    ReadStringExactly(s, key, valued);
    KeyOfPrefix(key, valued, |s|);
    PrintedLength(key);
    assert s[..|s|] == s;
    assert s[|Dec(|key|)| + 1 + |key|..] == valued;
    DecodeStable(valued, 1, value, more, "", 0);
    assert valued + "" == valued && more + "" == more;
  }

  predicate Descriptive(key: Bytes) {
    key == NAME || key == FILES || key == LENGTH
  }

  /** No key the manifest uses first appears after the piece length. */
  ghost predicate NoLateKeys(entries: seq<Entry>) {
    forall i, j :: 0 <= i < j < |entries| && entries[i].key == PIECE_LENGTH && Descriptive(entries[j].key) ==>
      exists h :: 0 <= h < i && entries[h].key == entries[j].key
  }

  /** Sorted dictionaries, the only ones BEP 3 allows, have no late keys. */
  lemma {:induction false} SortedHasNoLateKeys(entries: seq<Entry>)
    requires SortedKeys(entries)
    ensures NoLateKeys(entries)
  {
  }

  lemma {:induction false} GetFromPrefix(some: seq<Entry>, entries: seq<Entry>, key: Bytes)
    requires some <= entries && Get(some, key).Some?
    ensures Get(entries, key) == Get(some, key)
  {
    if some[0].key != key {
      GetFromPrefix(some[1..], entries[1..], key);
    }
  }

  lemma {:induction false} EarlyKey(some: seq<Entry>, entries: seq<Entry>, key: Bytes)
    requires some <= entries && NoLateKeys(entries) && Get(some, PIECE_LENGTH).Some? && Descriptive(key)
    ensures Get(some, key) == Get(entries, key)
  {
    hide Get, Descriptive;
    if Get(entries, key).Some? {
      var i :| 0 <= i < |some| && some[i].key == PIECE_LENGTH;
      var j :| 0 <= j < |entries| && entries[j].key == key;
      if j >= |some| {
        assert entries[i] == some[i];
        j :| 0 <= j < i && entries[j].key == key;
      }
      assert some[j] == entries[j];
      GetFromPrefix(some, entries, key);
    } else if Get(some, key).Some? {
      GetFromPrefix(some, entries, key);
    }
  }

  /** Leading entries give no manifest or the manifest of all entries. */
  lemma {:induction false} ManifestOfPrefix(some: seq<Entry>, entries: seq<Entry>)
    requires some <= entries && NoLateKeys(entries)
    ensures ManifestOf(some).Some? ==> ManifestOf(some) == ManifestOf(entries)
  {
    hide Described, NoLateKeys;
    if ManifestOf(some).Some? {
      GetFromPrefix(some, entries, PIECE_LENGTH);
      EarlyKey(some, entries, NAME);
      EarlyKey(some, entries, FILES);
      EarlyKey(some, entries, LENGTH);
    }
  }

  /** The whole info dictionary gives exactly its manifest. */
  lemma {:induction false} WholeManifest(data: Bytes, entries: seq<Entry>)
    requires Decode(data) == Some(Dictionary(entries))
    ensures Parsed(data) == ManifestOf(entries)
  {
    hide ManifestOf, Scan;
    ScanOfWhole(data[1..]);
    assert ManifestOf([]) == None by { NoEntriesNoManifest(); }
  }

  lemma {:induction false} NoEntriesNoManifest()
    ensures ManifestOf([]) == None
  {
  }

  /**
    Every prefix of a sorted info dictionary gives no manifest or exactly the
    manifest of the whole dictionary.
   */
  lemma {:induction false} PrefixManifest(data: Bytes, entries: seq<Entry>, k: nat)
    requires Decode(data) == Some(Dictionary(entries)) && NoLateKeys(entries) && k <= |data|
    ensures Parsed(data[..k]).Some? ==> Parsed(data[..k]) == Parsed(data) == ManifestOf(entries)
  {
    hide ManifestOf, Scan, NoLateKeys;
    WholeManifest(data, entries);
    var q := data[..k];
    if k == |data| {
      assert q == data;
    } else if q != "" {
      TruncationFails(data, k);
      assert q[1..] == data[1..][..k - 1];
      ScanOfPrefix(data[1..], k - 1);
      if Scan(q[1..]).Some? {
        ManifestOfPrefix(Scan(q[1..]).value, entries);
      }
    }
  }

  /** Cut after its first j entries, a dictionary's inside scans to exactly these. */
  lemma {:induction false} ScanAtEntry(s: Bytes, j: nat) returns (k: nat)
    requires DecodeEntries(s, 1).Some? && j <= |DecodeEntries(s, 1).value.0|
    ensures k < |s| && Scan(s[..k]) == Some(DecodeEntries(s, 1).value.0[..j])
    decreases j
  {
    hide ReadString, DecodeNode, NextEntry;
    if j == 0 {
      k := 0;
    } else {
      var (key, valued) := ReadString(s).value;
      var (value, more) := DecodeNode(valued, 1).value;
      var m := ScanAtEntry(more, j - 1);
      k := EntryBeforeCut(s, key, valued, value, more, m);
      var entries, others := DecodeEntries(s, 1).value.0, DecodeEntries(more, 1).value.0;
      assert entries == [Entry(key, value)] + others && s[..k][0] == s[0];
      assert entries[..j] == [Entry(key, value)] + others[..j - 1];
    }
  }

  /** An entry that lies before the cut is found whatever the cut leaves of the rest. */
  lemma {:induction false} EntryBeforeCut(s: Bytes, key: Bytes, valued: Bytes, value: BNode, more: Bytes, m: nat) returns (k: nat)
    requires ReadString(s) == Some((key, valued)) && DecodeNode(valued, 1) == Some((value, more)) && m < |more|
    ensures k < |s| && k > 0 && s[0] != 'e' && NextEntry(s[..k]) == Found(Entry(key, value), more[..m])
  {
    hide ReadString, DecodeNode, NextEntry, PrintString, Print, Fits;
    ReadStringExactly(s, key, valued);
    DecodeExactly(valued, 1, value, more);
    KeyOfPrefix(key, valued, 0);
    var cut := Print(value) + more[..m];
    k := |PrintString(key)| + |cut|;
    assert s[..k] == PrintString(key) + cut;
    ReadStringExactly(s[..k], key, cut);
    DecodeExactly(cut, 1, value, more[..m]);
    EntryOfWhole(s[..k], key, cut, value, more[..m]);
  }

  lemma {:induction false} DictionaryInside(data: Bytes, entries: seq<Entry>)
    requires Decode(data) == Some(Dictionary(entries))
    ensures data != "" && data[0] == 'd' && DecodeEntries(data[1..], 1).Some? && DecodeEntries(data[1..], 1).value.0 == entries
  {
    hide DecodeEntries;
  }

  /** Some proper prefix of the dictionary is parsed by its first j entries alone. */
  lemma {:induction false} PrefixAtEntry(data: Bytes, entries: seq<Entry>, j: nat) returns (k: nat)
    requires Decode(data) == Some(Dictionary(entries)) && j <= |entries|
    ensures k < |data| && Parsed(data[..k]) == ManifestOf(entries[..j])
  {
    hide ManifestOf, Scan, Decode, DecodeEntries;
    DictionaryInside(data, entries);
    var m := ScanAtEntry(data[1..], j);
    k := m + 1;
    TruncationFails(data, k);
    assert data[..k][1..] == data[1..][..m];
    if j == 0 {
      NoEntriesNoManifest();
    }
  }

  /**
    The order matters, exactly so far: all prefixes of a dictionary agree with it
    if and only if no list of leading entries describes anything else.
   */
  lemma {:induction false} PrefixesAgreeExactly(data: Bytes, entries: seq<Entry>)
    requires Decode(data) == Some(Dictionary(entries))
    ensures
      (forall k :: 0 <= k <= |data| && Parsed(data[..k]).Some? ==> Parsed(data[..k]) == ManifestOf(entries)) <==>
      (forall j :: 0 <= j <= |entries| && ManifestOf(entries[..j]).Some? ==> ManifestOf(entries[..j]) == ManifestOf(entries))
  {
    hide ManifestOf, Parsed, Decode;
    if forall k :: 0 <= k <= |data| && Parsed(data[..k]).Some? ==> Parsed(data[..k]) == ManifestOf(entries) {
      forall j | 0 <= j <= |entries| && ManifestOf(entries[..j]).Some?
        ensures ManifestOf(entries[..j]) == ManifestOf(entries)
      {
        var k := PrefixAtEntry(data, entries, j);
        assert Parsed(data[..k]).Some?;
      }
    }
    if forall j :: 0 <= j <= |entries| && ManifestOf(entries[..j]).Some? ==> ManifestOf(entries[..j]) == ManifestOf(entries) {
      forall k | 0 <= k <= |data| && Parsed(data[..k]).Some?
        ensures Parsed(data[..k]) == ManifestOf(entries)
      {
        var j := PrefixIsLeading(data, entries, k);
        assert ManifestOf(entries[..j]).Some?;
      }
    }
  }

  /** What any prefix parses to is what some leading entries describe. */
  lemma {:induction false} PrefixIsLeading(data: Bytes, entries: seq<Entry>, k: nat) returns (j: nat)
    requires Decode(data) == Some(Dictionary(entries)) && k <= |data| && Parsed(data[..k]).Some?
    ensures j <= |entries| && Parsed(data[..k]) == ManifestOf(entries[..j])
  {
    hide ManifestOf, Scan, Decode, DecodeEntries;
    DictionaryInside(data, entries);
    var q := data[..k];
    if k == |data| {
      assert q == data;
      WholeManifest(data, entries);
      j := |entries|;
      assert entries[..j] == entries;
    } else {
      TruncationFails(data, k);
      assert q[1..] == data[1..][..k - 1];
      ScanOfPrefix(data[1..], k - 1);
      j := |Scan(q[1..]).value|;
      assert entries[..j] == Scan(q[1..]).value;
    }
  }

  /** A name that follows the piece length is missed by a prefix of the bytes. */
  lemma {:induction false} LateNameIsMissed(data: Bytes, name: Bytes) returns (k: nat)
    requires Decode(data) == Some(Dictionary([Entry(PIECE_LENGTH, Number("1")), Entry(NAME, String(name))])) && Lossy(name) != "unnamed"
    ensures k < |data| && Parsed(data[..k]).Some? && Parsed(data).Some? && Parsed(data[..k]) != Parsed(data)
  {
    var entries := [Entry(PIECE_LENGTH, Number("1")), Entry(NAME, String(name))];
    assert entries[..1] == [entries[0]];
    LateName(name);
    hide ManifestOf, Parsed, Decode;
    k := PrefixAtEntry(data, entries, 1);
    WholeManifest(data, entries);
  }

  lemma {:induction false} LateName(name: Bytes)
    requires Lossy(name) != "unnamed"
    ensures
      var early := [Entry(PIECE_LENGTH, Number("1"))];
      var entries := [Entry(PIECE_LENGTH, Number("1")), Entry(NAME, String(name))];
      ManifestOf(early).Some? && ManifestOf(entries).Some? && ManifestOf(early) != ManifestOf(entries)
  {
    var early := [Entry(PIECE_LENGTH, Number("1"))];
    var entries := [Entry(PIECE_LENGTH, Number("1")), Entry(NAME, String(name))];
    assert "1"[..0] == "" && Value("1") == 1;
    assert Get(early, PIECE_LENGTH) == Get(entries, PIECE_LENGTH) == Some(Number("1"));
    assert early[1..] == [] && entries[1..] == [Entry(NAME, String(name))];
    assert Get(early, NAME) == None && Get(entries, NAME) == Some(String(name));
  }

  /** The files placed end to end. */
  function LayoutOf(items: seq<BNode>, n: nat): (r: seq<FileSelection.FileDetails>)
    requires n <= |items|
    ensures |r| == n
  {
    seq(n, i requires 0 <= i < n => FileSelection.FileDetails(TotalOf(items, i), FileLength(items[i]), FileSelection.Normal))
  }

  lemma {:induction false} LayoutTotal(items: seq<BNode>, n: nat, k: nat)
    requires k <= n <= |items|
    ensures FileSelection.TotalLength(LayoutOf(items, n), k) == TotalOf(items, k)
  {
    hide FileLength;
    if k > 0 {
      LayoutTotal(items, n, k - 1);
    }
  }

  lemma {:induction false} FileAt(items: seq<BNode>, pieceLength: nat, n: nat, i: nat)
    requires i < n <= |items|
    ensures FilesOf(items, pieceLength, n)[i]
         == PartialFile(i, FileName(items[i], i), FileLength(items[i]), FileSelection.PieceRange(LayoutOf(items, i + 1)[i], pieceLength))
    decreases n
  {
    hide FileLength, FileName, FileSelection.PieceRange;
    if i < n - 1 {
      FileAt(items, pieceLength, n - 1, i);
    }
  }

  /** The files of a manifest lie end to end, and their piece ranges are those of that layout. */
  lemma {:induction false} FilesTile(items: seq<BNode>, pieceLength: nat, n: nat)
    requires n <= |items|
    ensures var layout := LayoutOf(items, n);
      && FileSelection.Tiling(layout) && FileSelection.TotalLength(layout, n) == TotalOf(items, n)
      && forall i :: 0 <= i < n ==>
           FilesOf(items, pieceLength, n)[i]
             == PartialFile(i, FileName(items[i], i), layout[i].length, FileSelection.PieceRange(layout[i], pieceLength))
  {
    hide FileLength, FileName, FileSelection.PieceRange, FilesOf, TotalOf, FileSelection.TotalLength;
    LayoutTotal(items, n, n);
    forall i | 0 <= i < n
      ensures LayoutOf(items, n)[i].offset == FileSelection.TotalLength(LayoutOf(items, n), i)
      ensures FilesOf(items, pieceLength, n)[i]
           == PartialFile(i, FileName(items[i], i), LayoutOf(items, n)[i].length, FileSelection.PieceRange(LayoutOf(items, n)[i], pieceLength))
    {
      LayoutTotal(items, n, i);
      FileAt(items, pieceLength, n, i);
    }
  }

  // ---------------------------------------------------------------- the program

  method JoinPath(parts: seq<BNode>) returns (path: Option<Bytes>)
    ensures path == JoinedPath(parts, |parts|)
  {
    path := None;
    for i := 0 to |parts|
      invariant path == JoinedPath(parts, i)
    {
      if parts[i].String? {
        var part := Lossy(parts[i].bytes);
        path := Some(if path.Some? then path.value + "/" + part else part);
      }
    }
  }

  method NameFile(file: BNode, index: nat) returns (name: Bytes)
    ensures name == FileName(file, index)
  {
    hide Dec, DictGet;
    var path, joined := DictGet(file, PATH), None;
    if path.Some? && path.value.List? {
      joined := JoinPath(path.value.items);
    }
    name := if joined.Some? then joined.value else "file_" + Dec(index);
  }

  method LayOutFiles(items: seq<BNode>, pieceLength: nat) returns (files: seq<PartialFile>, total: nat)
    ensures files == FilesOf(items, pieceLength, |items|) && total == TotalOf(items, |items|)
  {
    hide FileName;
    files, total := [], 0;
    for i := 0 to |items|
      invariant files == FilesOf(items, pieceLength, i) && total == TotalOf(items, i)
    {
      var length := FileLength(items[i]);
      var range := FileSelection.PieceRange(FileSelection.FileDetails(total, length, FileSelection.Normal), pieceLength);
      var name := NameFile(items[i], i);
      files := files + [PartialFile(i, name, length, range)];
      total := total + length;
    }
  }

  /** `scan_partial_dictionary`. */
  method ScanPartialDictionary(data: Bytes) returns (m: Option<Manifest>)
    requires data != ""
    ensures m == ScanManifest(data[1..])
  {
    hide NextEntry, ManifestOf;
    var pos := 1;
    var entries: seq<Entry> := [];
    var stop := false;
    while !stop && pos < |data| && data[pos] != 'e'
      invariant 1 <= pos <= |data|
      invariant Scan(data[1..]) == if stop then Some(entries) else After(entries, Scan(data[pos..]))
      decreases !stop, |data| - pos
    {
      ghost var s := data[pos..];
      match NextEntry(data[pos..])
      case Unreadable =>
        return None;
      case Cut =>
        stop := true;
      case Found(entry, rest) =>
        AfterOne(entries, entry, Scan(rest));
        assert rest == data[|data| - |rest|..];
        entries := entries + [entry];
        pos := |data| - |rest|;
    }
    if entries == [] {
      return None;
    }
    m := ManifestOf(entries);
  }

  /** `from_bnode` on a dictionary. */
  method FromEntries(entries: seq<Entry>) returns (m: Option<Manifest>)
    ensures m == ManifestOf(entries)
  {
    hide FilesOf, TotalOf, PieceCount, FileSelection.PieceRange, AsU64, Get;
    var pieceLength := AsU64(Get(entries, PIECE_LENGTH));
    if pieceLength.None? || pieceLength.value == 0 {
      return None;
    }
    var name, files, length := NameOr(Get(entries, NAME)), Get(entries, FILES), Get(entries, LENGTH);
    var list: seq<PartialFile>, total := [], 0;
    if files.Some? {
      if files.value.List? {
        list, total := LayOutFiles(files.value.items, pieceLength.value);
      }
    } else if length.Some? {
      total := if AsU64(length).Some? then AsU64(length).value else 0;
      var range := FileSelection.PieceRange(FileSelection.FileDetails(0, total, FileSelection.Normal), pieceLength.value);
      list := [PartialFile(0, name, total, range)];
    }
    NoPieces(pieceLength.value);
    return Some(Manifest(name, pieceLength.value, total, PieceCount(total, pieceLength.value), list));
  }

  lemma {:induction false} NoPieces(pieceLength: nat)
    requires pieceLength > 0
    ensures PieceCount(0, pieceLength) == 0
  {
  }

  /** `try_parse_partial`. */
  method TryParsePartial(data: Bytes) returns (m: Option<Manifest>)
    ensures m == Parsed(data)
  {
    hide Decode, ManifestOf, ScanManifest;
    if data == "" || data[0] != 'd' {
      return None;
    }
    var node := Decode(data);
    if node.Some? && node.value.Dictionary? {
      m := FromEntries(node.value.entries);
      if m.Some? {
        return;
      }
    }
    m := ScanPartialDictionary(data);
  }
}
