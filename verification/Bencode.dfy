/**
  Bencode as `library/src/utils/bencode.rs` reads and writes it (BEP 3): canonical
  lengths and integers only, nesting at most 50, strings at most 16 MiB.  Decoding
  works on the remaining input; error kinds are not told apart.
 */
module Bencode {
  import opened Wrappers
  import opened Decimal

  type Bytes = string

  datatype BNode =
    | Dictionary(entries: seq<Entry>)
    | List(items: seq<BNode>)
    | Number(numeral: Bytes)
    | String(bytes: Bytes)

  datatype Entry = Entry(key: Bytes, value: BNode)

  const MAX_DEPTH: nat := 50
  const MAX_STRING_LENGTH: nat := 16_777_216
  const MAX_LENGTH_DIGITS: nat := 10
  const MAX_NUMERAL_LENGTH: nat := 20
  const I64_LIMIT: nat := 0x8000_0000_0000_0000

  // ---------------------------------------------------------------- strings

  /** How many digits the input starts with. */
  function LeadingDigits(s: Bytes): (n: nat)
    ensures n <= |s| && AllDigits(s[..n])
    ensures n < |s| ==> !IsDigit(s[n])
  {
    if s == "" || !IsDigit(s[0]) then 0 else 1 + LeadingDigits(s[1..])
  }

  /** `decode_string`: the string at the head of the input and what follows it. */
  function ReadString(s: Bytes): (r: Option<(Bytes, Bytes)>)
    ensures r.Some? ==> |r.value.1| < |s|
  {
    var n := LeadingDigits(s);
    if n == |s| || s[n] != ':' || n == 0 || (s[0] == '0' && n > 1) || n > MAX_LENGTH_DIGITS then None
    else
      var length := Value(s[..n]);
      if length > MAX_STRING_LENGTH || n + 1 + length > |s| then None
      else Some((s[n + 1..n + 1 + length], s[n + 1 + length..]))
  }

  function PrintString(b: Bytes): (r: Bytes)
    ensures |r| > 0
  {
    Dec(|b|) + ":" + b
  }

  lemma {:induction false} LeadingDigitsOf(d: Bytes, t: Bytes)
    requires AllDigits(d) && (t == "" || !IsDigit(t[0]))
    ensures LeadingDigits(d + t) == |d|
  {
    if d == "" {
      assert d + t == t;
    } else {
      LeadingDigitsOf(d[1..], t);
      assert (d + t)[1..] == d[1..] + t;
    }
  }

  /** The reader accepts exactly what the printer writes. */
  lemma {:induction false} ReadStringExactly(s: Bytes, b: Bytes, r: Bytes)
    ensures ReadString(s) == Some((b, r)) <==> |b| <= MAX_STRING_LENGTH && s == PrintString(b) + r
  {
    hide Value, Dec;
    if ReadString(s) == Some((b, r)) {
      var n := LeadingDigits(s);
      assert s[..n][0] == s[0];
      DecValue(s[..n]);
      assert s == s[..n] + ":" + s[n + 1..n + 1 + |b|] + s[n + 1 + |b|..];
    }
    if |b| <= MAX_STRING_LENGTH && s == PrintString(b) + r {
      StringReadsBack(b, r);
    }
  }

  lemma {:induction false} StringReadsBack(b: Bytes, r: Bytes)
    requires |b| <= MAX_STRING_LENGTH
    ensures ReadString(PrintString(b) + r) == Some((b, r))
  {
    hide Value, Dec;
    var s, d := PrintString(b) + r, Dec(|b|);
    var t := ":" + (b + r);
    assert s == d + t;
    ValueDec(|b|);
    DecShape(|b|);
    LengthDigits(|b|);
    LeadingDigitsOf(d, t);
    assert s[..|d|] == d;
    assert |b| == 0 ==> d == "0" by { ZeroPrints(|b|); }
    assert s[|d| + 1..] == b + r;
  }

  lemma {:induction false} ZeroPrints(n: nat)
    ensures n == 0 ==> Dec(n) == "0"
  {
  }

  lemma {:induction false} LengthDigits(n: nat)
    requires n <= MAX_STRING_LENGTH
    ensures |Dec(n)| <= MAX_LENGTH_DIGITS
  {
    DecLength(n, 8);
  }

  // ---------------------------------------------------------------- integers

  predicate InNumeral(c: char) {
    IsDigit(c) || c == '-'
  }

  function NumeralRun(s: Bytes): (n: nat)
    ensures n <= |s| && forall i :: 0 <= i < n ==> InNumeral(s[i])
    ensures n < |s| ==> !InNumeral(s[n])
  {
    if s == "" || !InNumeral(s[0]) then 0 else 1 + NumeralRun(s[1..])
  }

  /** At most 20 characters, an optional minus, no leading zeros, no negative zero, within 64 bits. */
  predicate ValidNumber(d: Bytes) {
    && 0 < |d| <= MAX_NUMERAL_LENGTH
    && var digits := if d[0] == '-' then d[1..] else d;
      && digits != "" && AllDigits(digits) && (digits[0] == '0' ==> d == "0")
      && Value(digits) <= if d[0] == '-' then I64_LIMIT else I64_LIMIT - 1
  }

  /** `decode_integer` after its `i`. */
  function ReadNumber(s: Bytes): (r: Option<(Bytes, Bytes)>)
    ensures r.Some? ==> |r.value.1| < |s|
  {
    var n := NumeralRun(s);
    if n == |s| || s[n] != 'e' || !ValidNumber(s[..n]) then None else Some((s[..n], s[n + 1..]))
  }

  lemma {:induction false} NumeralRunOf(d: Bytes, t: Bytes)
    requires (forall i :: 0 <= i < |d| ==> InNumeral(d[i])) && t != "" && !InNumeral(t[0])
    ensures NumeralRun(d + t) == |d|
  {
    if d == "" {
      assert d + t == t;
    } else {
      NumeralRunOf(d[1..], t);
      assert (d + t)[1..] == d[1..] + t;
    }
  }

  lemma {:induction false} ReadNumberExactly(s: Bytes, d: Bytes, r: Bytes)
    ensures ReadNumber(s) == Some((d, r)) <==> ValidNumber(d) && s == d + "e" + r
  {
    if ReadNumber(s) == Some((d, r)) {
      var n := NumeralRun(s);
      assert s == s[..n] + "e" + s[n + 1..];
    }
    if ValidNumber(d) && s == d + "e" + r {
      NumberReadsBack(d, r);
    }
  }

  lemma {:induction false} NumberReadsBack(d: Bytes, r: Bytes)
    requires ValidNumber(d)
    ensures ReadNumber(d + "e" + r) == Some((d, r))
  {
    hide Value;
    var s := d + "e" + r;
    assert forall i :: 1 <= i < |d| ==> d[1..][i - 1] == d[i];
    assert s == d + ("e" + r);
    NumeralRunOf(d, "e" + r);
    assert s[..|d|] == d && s[|d| + 1..] == r;
  }

  // ---------------------------------------------------------------- decoding

  function DecodeNode(s: Bytes, depth: nat): (r: Option<(BNode, Bytes)>)
    ensures r.Some? ==> |r.value.1| < |s|
    decreases |s|, 0
  {
    if depth >= MAX_DEPTH || s == "" then None
    else if s[0] == 'd' then
      match DecodeEntries(s[1..], depth + 1)
      case None => None
      case Some((entries, rest)) => Some((Dictionary(entries), rest))
    else if s[0] == 'l' then
      match DecodeItems(s[1..], depth + 1)
      case None => None
      case Some((items, rest)) => Some((List(items), rest))
    else if s[0] == 'i' then
      match ReadNumber(s[1..])
      case None => None
      case Some((numeral, rest)) => Some((Number(numeral), rest))
    else
      match ReadString(s)
      case None => None
      case Some((bytes, rest)) => Some((String(bytes), rest))
  }

  function DecodeEntries(s: Bytes, depth: nat): (r: Option<(seq<Entry>, Bytes)>)
    ensures r.Some? ==> |r.value.1| < |s|
    decreases |s|
  {
    if s != "" && s[0] == 'e' then Some(([], s[1..]))
    else
      match ReadString(s)
      case None => None
      case Some((key, valued)) =>
        match DecodeNode(valued, depth)
        case None => None
        case Some((value, more)) =>
          match DecodeEntries(more, depth)
          case None => None
          case Some((entries, rest)) => Some(([Entry(key, value)] + entries, rest))
  }

  function DecodeItems(s: Bytes, depth: nat): (r: Option<(seq<BNode>, Bytes)>)
    ensures r.Some? ==> |r.value.1| < |s|
    decreases |s|, 1
  {
    if s != "" && s[0] == 'e' then Some(([], s[1..]))
    else
      match DecodeNode(s, depth)
      case None => None
      case Some((item, more)) =>
        match DecodeItems(more, depth)
        case None => None
        case Some((items, rest)) => Some(([item] + items, rest))
  }

  /** `decode`: one value and nothing after it. */
  function Decode(s: Bytes): Option<BNode> {
    match DecodeNode(s, 0)
    case None => None
    case Some((node, rest)) => if rest == "" then Some(node) else None
  }

  // ---------------------------------------------------------------- printing

  /** A node as written, its dictionaries in the given order. */
  function Print(n: BNode): (r: Bytes)
    ensures |r| > 0
    decreases n
  {
    match n
    case Dictionary(entries) => "d" + PrintEntries(entries) + "e"
    case List(items) => "l" + PrintItems(items) + "e"
    case Number(numeral) => "i" + numeral + "e"
    case String(bytes) => PrintString(bytes)
  }

  function PrintEntries(entries: seq<Entry>): Bytes
    decreases entries
  {
    if entries == [] then "" else PrintString(entries[0].key) + Print(entries[0].value) + PrintEntries(entries[1..])
  }

  function PrintItems(items: seq<BNode>): Bytes
    decreases items
  {
    if items == [] then "" else Print(items[0]) + PrintItems(items[1..])
  }

  /** Everything the decoder can produce below the given nesting depth. */
  predicate Fits(n: BNode, depth: nat)
    decreases n
  {
    && depth < MAX_DEPTH
    && match n
       case Dictionary(entries) => EntriesFit(entries, depth + 1)
       case List(items) => ItemsFit(items, depth + 1)
       case Number(numeral) => ValidNumber(numeral)
       case String(bytes) => |bytes| <= MAX_STRING_LENGTH
  }

  predicate EntriesFit(entries: seq<Entry>, depth: nat)
    decreases entries
  {
    entries == [] || (|entries[0].key| <= MAX_STRING_LENGTH && Fits(entries[0].value, depth) && EntriesFit(entries[1..], depth))
  }

  predicate ItemsFit(items: seq<BNode>, depth: nat)
    decreases items
  {
    items == [] || (Fits(items[0], depth) && ItemsFit(items[1..], depth))
  }

  // ---------------------------------------------------------------- decoding inverts printing

  lemma {:induction false} NodeReadsBack(n: BNode, depth: nat, t: Bytes)
    requires Fits(n, depth)
    ensures DecodeNode(Print(n) + t, depth) == Some((n, t))
    decreases n
  {
    hide ReadString, ReadNumber, ValidNumber, PrintString;
    match n
    case Dictionary(entries) =>
      EntriesReadBack(entries, depth + 1, t);
      assert (Print(n) + t)[1..] == PrintEntries(entries) + "e" + t;
    case List(items) =>
      ItemsReadBack(items, depth + 1, t);
      assert (Print(n) + t)[1..] == PrintItems(items) + "e" + t;
    case Number(numeral) =>
      assert (Print(n) + t)[1..] == numeral + "e" + t;
      ReadNumberExactly(numeral + "e" + t, numeral, t);
    case String(bytes) =>
      PrintedStringHead(bytes, t);
      ReadStringExactly(Print(n) + t, bytes, t);
  }

  lemma {:induction false} PrintedStringHead(b: Bytes, t: Bytes)
    ensures IsDigit((PrintString(b) + t)[0])
  {
    DecShape(|b|);
  }

  lemma {:induction false} EntriesReadBack(entries: seq<Entry>, depth: nat, t: Bytes)
    requires EntriesFit(entries, depth)
    ensures DecodeEntries(PrintEntries(entries) + "e" + t, depth) == Some((entries, t))
    decreases entries
  {
    hide ReadString, ReadNumber, ValidNumber, PrintString;
    var s := PrintEntries(entries) + "e" + t;
    if entries != [] {
      var key, value, rest := entries[0].key, entries[0].value, entries[1..];
      var more := PrintEntries(rest) + "e" + t;
      assert s == PrintString(key) + (Print(value) + more);
      PrintedStringHead(key, Print(value) + more);
      ReadStringExactly(s, key, Print(value) + more);
      NodeReadsBack(value, depth, more);
      EntriesReadBack(rest, depth, t);
      assert entries == [Entry(key, value)] + rest;
    } else {
      assert s == "e" + t;
    }
  }

  lemma {:induction false} PrintHead(n: BNode, t: Bytes)
    ensures (Print(n) + t)[0] != 'e'
  {
    if n.String? {
      PrintedStringHead(n.bytes, t);
    }
  }

  lemma {:induction false} ItemsReadBack(items: seq<BNode>, depth: nat, t: Bytes)
    requires ItemsFit(items, depth)
    ensures DecodeItems(PrintItems(items) + "e" + t, depth) == Some((items, t))
    decreases items
  {
    hide PrintString, DecodeNode, Print, Fits;
    var s := PrintItems(items) + "e" + t;
    if items != [] {
      var more := PrintItems(items[1..]) + "e" + t;
      assert s == Print(items[0]) + more;
      PrintHead(items[0], more);
      NodeReadsBack(items[0], depth, more);
      ItemsReadBack(items[1..], depth, t);
      assert items == [items[0]] + items[1..];
    } else {
      assert s == "e" + t;
    }
  }

  // ---------------------------------------------------------------- printing inverts decoding

  lemma {:induction false} NodePrintsBack(s: Bytes, depth: nat)
    requires DecodeNode(s, depth).Some?
    ensures var (n, r) := DecodeNode(s, depth).value; Fits(n, depth) && s == Print(n) + r
    decreases |s|, 0
  {
    hide ReadString, ReadNumber, ValidNumber, PrintString;
    var (n, r) := DecodeNode(s, depth).value;
    assert s == [s[0]] + s[1..];
    match n
    case Dictionary(entries) =>
      EntriesPrintBack(s[1..], depth + 1);
    case List(items) =>
      ItemsPrintBack(s[1..], depth + 1);
    case Number(numeral) =>
      ReadNumberExactly(s[1..], numeral, r);
    case String(bytes) =>
      ReadStringExactly(s, bytes, r);
  }

  lemma {:induction false} EntriesPrintBack(s: Bytes, depth: nat)
    requires DecodeEntries(s, depth).Some?
    ensures var (entries, r) := DecodeEntries(s, depth).value; EntriesFit(entries, depth) && s == PrintEntries(entries) + "e" + r
    decreases |s|
  {
    hide ReadString, ReadNumber, ValidNumber, PrintString;
    var (entries, r) := DecodeEntries(s, depth).value;
    if s[0] == 'e' {
      assert s == "" + "e" + r;
    } else {
      var (key, valued) := ReadString(s).value;
      var (value, more) := DecodeNode(valued, depth).value;
      ReadStringExactly(s, key, valued);
      NodePrintsBack(valued, depth);
      EntriesPrintBack(more, depth);
      assert entries[1..] == DecodeEntries(more, depth).value.0;
      assert s == PrintString(key) + Print(value) + PrintEntries(entries[1..]) + "e" + r;
    }
  }

  lemma {:induction false} ItemsPrintBack(s: Bytes, depth: nat)
    requires DecodeItems(s, depth).Some?
    ensures var (items, r) := DecodeItems(s, depth).value; ItemsFit(items, depth) && s == PrintItems(items) + "e" + r
    decreases |s|, 1
  {
    var (items, r) := DecodeItems(s, depth).value;
    if s != "" && s[0] == 'e' {
      assert s == "" + "e" + r;
    } else {
      var (item, more) := DecodeNode(s, depth).value;
      NodePrintsBack(s, depth);
      ItemsPrintBack(more, depth);
      assert items[1..] == DecodeItems(more, depth).value.0;
      assert s == Print(item) + PrintItems(items[1..]) + "e" + r;
    }
  }

  /** Decoding and printing are exact inverses on everything that fits. */
  lemma {:induction false} DecodeExactly(s: Bytes, depth: nat, n: BNode, r: Bytes)
    ensures DecodeNode(s, depth) == Some((n, r)) <==> Fits(n, depth) && s == Print(n) + r
  {
    if DecodeNode(s, depth) == Some((n, r)) {
      NodePrintsBack(s, depth);
    }
    if Fits(n, depth) && s == Print(n) + r {
      NodeReadsBack(n, depth, r);
    }
  }

  // ---------------------------------------------------------------- consequences

  lemma {:induction false} FitsShallower(n: BNode, depth: nat, less: nat)
    requires Fits(n, depth) && less <= depth
    ensures Fits(n, less)
    decreases n
  {
    match n
    case Dictionary(entries) => EntriesFitShallower(entries, depth + 1, less + 1);
    case List(items) => ItemsFitShallower(items, depth + 1, less + 1);
    case Number(_) =>
    case String(_) =>
  }

  lemma {:induction false} EntriesFitShallower(entries: seq<Entry>, depth: nat, less: nat)
    requires EntriesFit(entries, depth) && less <= depth
    ensures EntriesFit(entries, less)
    decreases entries
  {
    if entries != [] {
      FitsShallower(entries[0].value, depth, less);
      EntriesFitShallower(entries[1..], depth, less);
    }
  }

  lemma {:induction false} ItemsFitShallower(items: seq<BNode>, depth: nat, less: nat)
    requires ItemsFit(items, depth) && less <= depth
    ensures ItemsFit(items, less)
    decreases items
  {
    if items != [] {
      FitsShallower(items[0], depth, less);
      ItemsFitShallower(items[1..], depth, less);
    }
  }

  /** More input, or less nesting around it, does not change what was decoded. */
  lemma {:induction false} DecodeStable(s: Bytes, depth: nat, n: BNode, r: Bytes, t: Bytes, less: nat)
    requires DecodeNode(s, depth) == Some((n, r)) && less <= depth
    ensures DecodeNode(s + t, less) == Some((n, r + t))
  {
    DecodeExactly(s, depth, n, r);
    FitsShallower(n, depth, less);
    assert s + t == Print(n) + (r + t);
    DecodeExactly(s + t, less, n, r + t);
  }

  /** A truncated value never decodes. */
  lemma {:induction false} TruncationFails(s: Bytes, k: nat)
    requires Decode(s).Some? && k < |s|
    ensures Decode(s[..k]) == None
  {
    hide DecodeNode;
    var head, tail := s[..k], s[k..];
    assert head + tail == s && tail != "";
    if Decode(head).Some? {
      DecodeStable(head, 0, Decode(head).value, "", tail, 0);
    }
  }

  // ---------------------------------------------------------------- the encoder

  predicate SortedKeys(entries: seq<Entry>) {
    forall i, j :: 0 <= i < j < |entries| ==> LexLe(entries[i].key, entries[j].key)
  }

  /** Puts an entry before the first one with a greater or equal key: sorting from the back keeps equal keys in order. */
  function Insert(e: Entry, entries: seq<Entry>): seq<Entry> {
    if entries == [] || LexLe(e.key, entries[0].key) then [e] + entries else [entries[0]] + Insert(e, entries[1..])
  }

  /** Every dictionary sorted by key, as `encode_node` visits it. */
  function Canonical(n: BNode): BNode
    decreases n
  {
    match n
    case Dictionary(entries) => Dictionary(CanonicalEntries(entries))
    case List(items) => List(CanonicalItems(items))
    case Number(_) => n
    case String(_) => n
  }

  function CanonicalEntries(entries: seq<Entry>): seq<Entry>
    decreases entries
  {
    if entries == [] then []
    else Insert(Entry(entries[0].key, Canonical(entries[0].value)), CanonicalEntries(entries[1..]))
  }

  function CanonicalItems(items: seq<BNode>): seq<BNode>
    decreases items
  {
    if items == [] then [] else [Canonical(items[0])] + CanonicalItems(items[1..])
  }

  function Encode(n: BNode): Bytes {
    Print(Canonical(n))
  }

  /** Sorted all the way down. */
  predicate Ordered(n: BNode)
    decreases n
  {
    match n
    case Dictionary(entries) => SortedKeys(entries) && EntriesOrdered(entries)
    case List(items) => ItemsOrdered(items)
    case Number(_) => true
    case String(_) => true
  }

  predicate EntriesOrdered(entries: seq<Entry>)
    decreases entries
  {
    entries == [] || (Ordered(entries[0].value) && EntriesOrdered(entries[1..]))
  }

  predicate ItemsOrdered(items: seq<BNode>)
    decreases items
  {
    items == [] || (Ordered(items[0]) && ItemsOrdered(items[1..]))
  }

  lemma {:induction false} InsertKeeps(e: Entry, entries: seq<Entry>, depth: nat)
    ensures var r := Insert(e, entries);
      && (SortedKeys(entries) ==> SortedKeys(r))
      && (EntriesOrdered(entries) && Ordered(e.value) ==> EntriesOrdered(r))
      && (EntriesFit(entries, depth) && |e.key| <= MAX_STRING_LENGTH && Fits(e.value, depth) ==> EntriesFit(r, depth))
      && forall x :: x in r <==> x == e || x in entries
  {
    hide *;
    InsertMembers(e, entries);
    InsertFits(e, entries, depth);
    if SortedKeys(entries) {
      InsertSorts(e, entries);
    }
  }

  lemma {:induction false} InsertMembers(e: Entry, entries: seq<Entry>)
    ensures forall x :: x in Insert(e, entries) <==> x == e || x in entries
  {
    hide LexLe;
    if entries != [] && !LexLe(e.key, entries[0].key) {
      InsertMembers(e, entries[1..]);
      assert entries == [entries[0]] + entries[1..];
    }
  }

  lemma {:induction false} InsertFits(e: Entry, entries: seq<Entry>, depth: nat)
    ensures EntriesOrdered(entries) && Ordered(e.value) ==> EntriesOrdered(Insert(e, entries))
    ensures EntriesFit(entries, depth) && |e.key| <= MAX_STRING_LENGTH && Fits(e.value, depth) ==> EntriesFit(Insert(e, entries), depth)
  {
    hide Fits, Ordered, LexLe;
    var r := Insert(e, entries);
    if entries == [] || LexLe(e.key, entries[0].key) {
      assert r[1..] == entries;
    } else {
      InsertFits(e, entries[1..], depth);
      assert r[1..] == Insert(e, entries[1..]);
    }
  }

  lemma {:induction false} InsertSorts(e: Entry, entries: seq<Entry>)
    requires SortedKeys(entries)
    ensures SortedKeys(Insert(e, entries))
  {
    hide LexLe;
    var r := Insert(e, entries);
    if entries == [] || LexLe(e.key, entries[0].key) {
      HeadIsLeast(e, entries);
    } else {
      var rest := entries[1..];
      InsertSorts(e, rest);
      InsertMembers(e, rest);
      LexTotal(e.key, entries[0].key);
      SortedBelow([entries[0]] + Insert(e, rest), entries[0], Insert(e, rest));
    }
  }

  /** A least entry in front of sorted ones. */
  lemma {:induction false} SortedBelow(r: seq<Entry>, first: Entry, rest: seq<Entry>)
    requires r == [first] + rest && SortedKeys(rest) && forall x :: x in rest ==> LexLe(first.key, x.key)
    ensures SortedKeys(r)
  {
    hide LexLe;
    forall i, j | 0 <= i < j < |r|
      ensures LexLe(r[i].key, r[j].key)
    {
      assert r[j] == rest[j - 1];
      assert i > 0 ==> r[i] == rest[i - 1];
    }
  }

  lemma {:induction false} HeadIsLeast(e: Entry, entries: seq<Entry>)
    requires SortedKeys(entries) && (entries != [] ==> LexLe(e.key, entries[0].key))
    ensures forall x :: x in entries ==> LexLe(e.key, x.key)
  {
    hide LexLe;
    forall i | 0 < i < |entries|
      ensures LexLe(e.key, entries[i].key)
    {
      LexTransitive(e.key, entries[0].key, entries[i].key);
    }
  }

  /** Encoding sorts and keeps everything within the decoder's limits. */
  lemma {:induction false} CanonicalKeeps(n: BNode, depth: nat)
    ensures Ordered(Canonical(n)) && (Fits(n, depth) ==> Fits(Canonical(n), depth))
    decreases n
  {
    match n
    case Dictionary(entries) => CanonicalEntriesKeep(entries, depth + 1);
    case List(items) => CanonicalItemsKeep(items, depth + 1);
    case Number(_) =>
    case String(_) =>
  }

  lemma {:induction false} CanonicalEntriesKeep(entries: seq<Entry>, depth: nat)
    ensures SortedKeys(CanonicalEntries(entries)) && EntriesOrdered(CanonicalEntries(entries))
    ensures EntriesFit(entries, depth) ==> EntriesFit(CanonicalEntries(entries), depth)
    decreases entries
  {
    hide Insert;
    if entries != [] {
      CanonicalKeeps(entries[0].value, depth);
      CanonicalEntriesKeep(entries[1..], depth);
      InsertKeeps(Entry(entries[0].key, Canonical(entries[0].value)), CanonicalEntries(entries[1..]), depth);
    }
  }

  lemma {:induction false} CanonicalItemsKeep(items: seq<BNode>, depth: nat)
    ensures ItemsOrdered(CanonicalItems(items))
    ensures ItemsFit(items, depth) ==> ItemsFit(CanonicalItems(items), depth)
    decreases items
  {
    if items != [] {
      CanonicalKeeps(items[0], depth);
      CanonicalItemsKeep(items[1..], depth);
      assert CanonicalItems(items)[1..] == CanonicalItems(items[1..]);
    }
  }

  /** What is already sorted is encoded as it stands. */
  lemma {:induction false} OrderedIsCanonical(n: BNode)
    requires Ordered(n)
    ensures Canonical(n) == n && Encode(n) == Print(n)
    decreases n
  {
    match n
    case Dictionary(entries) => OrderedEntriesAreCanonical(entries);
    case List(items) => OrderedItemsAreCanonical(items);
    case Number(_) =>
    case String(_) =>
  }

  lemma {:induction false} OrderedEntriesAreCanonical(entries: seq<Entry>)
    requires SortedKeys(entries) && EntriesOrdered(entries)
    ensures CanonicalEntries(entries) == entries
    decreases entries
  {
    if entries != [] {
      var e := Entry(entries[0].key, Canonical(entries[0].value));
      OrderedIsCanonical(entries[0].value);
      OrderedEntriesAreCanonical(entries[1..]);
      assert entries == [e] + entries[1..];
    }
  }

  lemma {:induction false} OrderedItemsAreCanonical(items: seq<BNode>)
    requires ItemsOrdered(items)
    ensures CanonicalItems(items) == items
    decreases items
  {
    if items != [] {
      OrderedIsCanonical(items[0]);
      OrderedItemsAreCanonical(items[1..]);
      assert items == [items[0]] + items[1..];
    }
  }

  /** Round trip: decoding an encoding gives the node with its dictionaries sorted. */
  lemma {:induction false} EncodeRoundTrip(n: BNode)
    requires Fits(n, 0)
    ensures Decode(Encode(n)) == Some(Canonical(n))
    ensures Ordered(n) ==> Decode(Encode(n)) == Some(n)
  {
    CanonicalKeeps(n, 0);
    NodeReadsBack(Canonical(n), 0, "");
    assert Encode(n) + "" == Encode(n);
    if Ordered(n) {
      OrderedIsCanonical(n);
    }
  }
}
