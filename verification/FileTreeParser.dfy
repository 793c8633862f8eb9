/**
  The streaming file-tree parser of `library/src/core/metainfo.rs` on the tokenizer of
  `library/src/utils/bencode_tokenizer.rs`.  Failures are not told apart.
 */
module FileTreeParsing {
  import opened Wrappers
  import opened Decimal
  import opened Bencode
  import opened FileTrees
  import opened Utf8
  import Splitting

  datatype Token = DictStart | ListStart | End | Integer(numeral: Bytes) | Text(bytes: Bytes)

  /** The token at the head of the input and what follows it. */
  function Next(s: Bytes): (r: Option<(Token, Bytes)>)
    ensures r.Some? ==> |r.value.1| < |s|
  {
    if s == "" then None
    else if s[0] == 'd' then Some((DictStart, s[1..]))
    else if s[0] == 'l' then Some((ListStart, s[1..]))
    else if s[0] == 'e' then Some((End, s[1..]))
    else if s[0] == 'i' then
      match ReadNumber(s[1..])
      case None => None
      case Some((numeral, rest)) => Some((Integer(numeral), rest))
    else
      match ReadString(s)
      case None => None
      case Some((bytes, rest)) => Some((Text(bytes), rest))
  }

  // ---------------------------------------------------------------- specification of the parser

  /** What the parser reports: the components joined by slashes. */
  datatype FoundFile = FoundFile(path: Bytes, length: nat, piecesRoot: Bytes)

  function JoinPath(path: Path): Bytes {
    if path == [] then "" else if |path| == 1 then path[0] else JoinPath(path[..|path| - 1]) + "/" + path[|path| - 1]
  }

  /** Skips tokens until `depth` open containers are closed. */
  function Skip(s: Bytes, depth: nat): (r: Option<Bytes>)
    ensures r.Some? ==> |r.value| <= |s|
    decreases |s|
  {
    if depth == 0 then Some(s)
    else
      match Next(s)
      case None => None
      case Some((token, rest)) => Skip(rest, DepthAfter(token, depth))
  }

  function DepthAfter(token: Token, depth: nat): nat
    requires depth > 0
  {
    match token
    case DictStart => depth + 1
    case ListStart => depth + 1
    case End => depth - 1
    case _ => depth
  }

  function Opens(token: Token): nat {
    if token.DictStart? || token.ListStart? then 1 else 0
  }

  /** The length after a `length` property with the given value token. */
  function NewLength(length: nat, token: Token): nat {
    if token.Integer? && ParseUnsigned(token.numeral, U64_SIZE).Some?
    then ParseUnsigned(token.numeral, U64_SIZE).value else length
  }

  /** The inside of a property dictionary: length, root and the rest of the input. */
  function ParseProperties(s: Bytes, length: nat, root: Bytes): (r: Option<(nat, Bytes, Bytes)>)
    ensures r.Some? ==> |r.value.2| < |s|
    decreases |s|
  {
    match Next(s)
    case Some((End, rest)) => Some((length, root, rest))
    case Some((Text(key), valued)) =>
      (match Next(valued)
       case None => None
       case Some((token, rest)) =>
         if key == LENGTH then ParseProperties(rest, NewLength(length, token), root)
         else if key == PIECES_ROOT then ParseProperties(rest, length, if token.Text? then token.bytes else root)
         else
           match Skip(rest, Opens(token))
           case None => None
           case Some(more) => ParseProperties(more, length, root))
    case _ => None
  }

  function Prepend(files: seq<FoundFile>, r: Option<(seq<FoundFile>, Bytes)>): Option<(seq<FoundFile>, Bytes)> {
    match r
    case None => None
    case Some((more, rest)) => Some((files + more, rest))
  }

  /** The inside of a tree dictionary: the files found and the rest of the input. */
  function ParseTree(s: Bytes, path: Path): (r: Option<(seq<FoundFile>, Bytes)>)
    ensures r.Some? ==> |r.value.1| < |s|
    decreases |s|
  {
    match Next(s)
    case Some((End, rest)) => Some(([], rest))
    case Some((Text(key), valued)) =>
      (match Next(valued)
       case Some((DictStart, inside)) =>
         if key == "" then
           match ParseProperties(inside, 0, "")
           case None => None
           case Some((length, root, rest)) => Prepend([FoundFile(JoinPath(path), length, root)], ParseTree(rest, path))
         else if !IsUtf8(key) then None
         else
           (match ParseTree(inside, path + [key])
            case None => None
            case Some((files, rest)) => Prepend(files, ParseTree(rest, path)))
       case _ => None)
    case _ => None
  }

  // ---------------------------------------------------------------- tokens of printed values

  /** Values every part of which the tokenizer accepts, however deeply nested. */
  predicate Readable(n: BNode)
    decreases n
  {
    match n
    case Dictionary(entries) => EntriesReadable(entries)
    case List(items) => ItemsReadable(items)
    case Number(numeral) => ValidNumber(numeral)
    case String(bytes) => |bytes| <= MAX_STRING_LENGTH
  }

  predicate EntriesReadable(entries: seq<Entry>)
    decreases entries
  {
    entries == [] || (|entries[0].key| <= MAX_STRING_LENGTH && Readable(entries[0].value) && EntriesReadable(entries[1..]))
  }

  predicate ItemsReadable(items: seq<BNode>)
    decreases items
  {
    items == [] || (Readable(items[0]) && ItemsReadable(items[1..]))
  }

  lemma {:induction false} NextString(b: Bytes, t: Bytes)
    requires |b| <= MAX_STRING_LENGTH
    ensures Next(PrintString(b) + t) == Some((Text(b), t))
  {
    hide ReadString, PrintString;
    PrintedStringHead(b, t);
    ReadStringExactly(PrintString(b) + t, b, t);
  }

  /** The first token of a printed value. */
  function Head(n: BNode): Token {
    match n
    case Dictionary(_) => DictStart
    case List(_) => ListStart
    case Number(numeral) => Integer(numeral)
    case String(bytes) => Text(bytes)
  }

  /** What a printed value has after its first token. */
  function Tail(n: BNode): Bytes {
    match n
    case Dictionary(entries) => PrintEntries(entries) + "e"
    case List(items) => PrintItems(items) + "e"
    case Number(_) => ""
    case String(_) => ""
  }

  lemma {:induction false} NextOfPrinted(n: BNode, t: Bytes)
    requires Readable(n)
    ensures Next(Print(n) + t) == Some((Head(n), Tail(n) + t))
  {
    hide ReadString, ReadNumber, PrintString, ValidNumber;
    match n
    case Dictionary(entries) =>
      assert (Print(n) + t)[1..] == Tail(n) + t;
    case List(items) =>
      assert (Print(n) + t)[1..] == Tail(n) + t;
    case Number(numeral) =>
      assert (Print(n) + t)[1..] == numeral + "e" + t;
      ReadNumberExactly(numeral + "e" + t, numeral, t);
      assert Tail(n) + t == t;
    case String(bytes) =>
      NextString(bytes, t);
      assert Tail(n) + t == t;
  }

  /** Skipping over a whole value inside an open container changes no depth. */
  lemma {:induction false} SkipValue(n: BNode, t: Bytes, depth: nat)
    requires Readable(n) && depth > 0
    ensures Skip(Print(n) + t, depth) == Skip(t, depth)
    decreases n
  {
    hide Print, Next;
    NextOfPrinted(n, t);
    SkipTail(n, t, depth);
  }

  lemma {:induction false} SkipTail(n: BNode, t: Bytes, depth: nat)
    requires Readable(n)
    ensures Skip(Tail(n) + t, depth + Opens(Head(n))) == Skip(t, depth)
    decreases n, 0
  {
    hide Next;
    match n
    case Dictionary(entries) =>
      SkipEntries(entries, t, depth);
      assert Tail(n) + t == PrintEntries(entries) + "e" + t;
    case List(items) =>
      SkipItems(items, t, depth);
      assert Tail(n) + t == PrintItems(items) + "e" + t;
    case Number(_) =>
      assert Tail(n) + t == t;
    case String(_) =>
      assert Tail(n) + t == t;
  }

  lemma {:induction false} NextEnd(t: Bytes)
    ensures Next("e" + t) == Some((End, t))
  {
  }

  lemma {:induction false} SkipEntries(entries: seq<Entry>, t: Bytes, depth: nat)
    requires EntriesReadable(entries)
    ensures Skip(PrintEntries(entries) + "e" + t, depth + 1) == Skip(t, depth)
    decreases entries
  {
    hide Print, PrintString, Next;
    if entries == [] {
      assert PrintEntries(entries) + "e" + t == "e" + t;
      NextEnd(t);
    } else {
      var key, value, rest := entries[0].key, entries[0].value, entries[1..];
      var more := PrintEntries(rest) + "e" + t;
      assert PrintEntries(entries) + "e" + t == PrintString(key) + (Print(value) + more);
      NextString(key, Print(value) + more);
      SkipValue(value, more, depth + 1);
      SkipEntries(rest, t, depth);
    }
  }

  lemma {:induction false} SkipItems(items: seq<BNode>, t: Bytes, depth: nat)
    requires ItemsReadable(items)
    ensures Skip(PrintItems(items) + "e" + t, depth + 1) == Skip(t, depth)
    decreases items
  {
    hide Print, Next;
    if items == [] {
      assert PrintItems(items) + "e" + t == "e" + t;
      NextEnd(t);
    } else {
      var more := PrintItems(items[1..]) + "e" + t;
      assert PrintItems(items) + "e" + t == Print(items[0]) + more;
      SkipValue(items[0], more, depth + 1);
      SkipItems(items[1..], t, depth);
    }
  }

  /** An unknown property with any nested value is skipped exactly: it changes nothing. */
  lemma {:induction false} UnknownPropertyIgnored(key: Bytes, value: BNode, s: Bytes, length: nat, root: Bytes)
    requires key != LENGTH && key != PIECES_ROOT && |key| <= MAX_STRING_LENGTH && Readable(value)
    ensures ParseProperties(PrintString(key) + Print(value) + s, length, root) == ParseProperties(s, length, root)
  {
    hide Print, PrintString, Next;
    assert PrintString(key) + Print(value) + s == PrintString(key) + (Print(value) + s);
    NextString(key, Print(value) + s);
    NextOfPrinted(value, s);
    SkipTail(value, s, 0);
    assert Skip(s, 0) == Some(s);
  }

  /** A property the parser reads as one: known keys have a number or a string as value. */
  predicate FineProperty(e: Entry) {
    && |e.key| <= MAX_STRING_LENGTH && Readable(e.value)
    && (e.key == LENGTH || e.key == PIECES_ROOT ==> e.value.Number? || e.value.String?)
  }

  /** Length and root after one more property. */
  function AfterProperty(p: (nat, Bytes), e: Entry): (nat, Bytes)
    requires FineProperty(e)
  {
    if e.key == LENGTH then (NewLength(p.0, Head(e.value)), p.1)
    else if e.key == PIECES_ROOT then (p.0, if e.value.String? then e.value.bytes else p.1)
    else p
  }

  function AfterProperties(p: (nat, Bytes), entries: seq<Entry>): (nat, Bytes)
    requires forall i :: 0 <= i < |entries| ==> FineProperty(entries[i])
    decreases |entries|
  {
    if entries == [] then p else AfterProperties(AfterProperty(p, entries[0]), entries[1..])
  }

  lemma {:induction false} PropertyStep(e: Entry, s: Bytes, p: (nat, Bytes))
    requires FineProperty(e)
    ensures var q := AfterProperty(p, e); ParseProperties(PrintString(e.key) + Print(e.value) + s, p.0, p.1) == ParseProperties(s, q.0, q.1)
  {
    hide Print, PrintString, Next, NewLength, Readable;
    if e.key != LENGTH && e.key != PIECES_ROOT {
      UnknownPropertyIgnored(e.key, e.value, s, p.0, p.1);
    } else {
      assert PrintString(e.key) + Print(e.value) + s == PrintString(e.key) + (Print(e.value) + s);
      NextString(e.key, Print(e.value) + s);
      NextOfPrinted(e.value, s);
      assert Tail(e.value) + s == s;
    }
  }

  /** Any properties, in any order and repeated: the last usable length and root count. */
  lemma {:induction false} PropertiesFold(entries: seq<Entry>, s: Bytes, p: (nat, Bytes))
    requires forall i :: 0 <= i < |entries| ==> FineProperty(entries[i])
    ensures var q := AfterProperties(p, entries); ParseProperties(PrintEntries(entries) + s, p.0, p.1) == ParseProperties(s, q.0, q.1)
    decreases |entries|
  {
    hide ParseProperties, FineProperty, AfterProperty, Print, PrintString;
    if entries == [] {
      assert PrintEntries(entries) + s == s;
    } else {
      var rest := PrintEntries(entries[1..]) + s;
      assert PrintEntries(entries) + s == PrintString(entries[0].key) + Print(entries[0].value) + rest;
      PropertyStep(entries[0], rest, p);
      PropertiesFold(entries[1..], s, AfterProperty(p, entries[0]));
    }
  }

  lemma {:induction false} UnknownLeavesFold(before: seq<Entry>, e: Entry, after: seq<Entry>, p: (nat, Bytes))
    requires forall i :: 0 <= i < |before| ==> FineProperty(before[i])
    requires forall i :: 0 <= i < |after| ==> FineProperty(after[i])
    requires FineProperty(e) && e.key != LENGTH && e.key != PIECES_ROOT
    ensures AfterProperties(p, before + [e] + after) == AfterProperties(p, before + after)
    decreases |before|
  {
    var all := before + [e] + after;
    if before == [] {
      assert all == [e] + after && all[1..] == after && before + after == after;
    } else {
      assert all[1..] == before[1..] + [e] + after && (before + after)[1..] == before[1..] + after;
      UnknownLeavesFold(before[1..], e, after, AfterProperty(p, before[0]));
    }
  }

  /** A file dictionary with any fine properties is reported with the length and root they fold to. */
  lemma {:induction false} FileParses(entries: seq<Entry>, path: Path, t: Bytes)
    requires forall i :: 0 <= i < |entries| ==> FineProperty(entries[i])
    ensures var q := AfterProperties((0, ""), entries);
      ParseTree(PrintString("") + ("d" + (PrintEntries(entries) + ("e" + t))), path)
        == Prepend([FoundFile(JoinPath(path), q.0, q.1)], ParseTree(t, path))
  {
    hide FineProperty, AfterProperties, PrintString, PrintEntries, Next, JoinPath;
    var inside := PrintEntries(entries) + ("e" + t);
    NextString("", "d" + inside);
    NextOpen(inside);
    PropertiesFold(entries, "e" + t, (0, ""));
    NextEnd(t);
  }

  /** An unknown property with any nested value, wherever it stands in a file's dictionary, changes nothing. */
  lemma {:induction false} UnknownInFileIgnored(before: seq<Entry>, e: Entry, after: seq<Entry>, path: Path, t: Bytes)
    requires forall i :: 0 <= i < |before| ==> FineProperty(before[i])
    requires forall i :: 0 <= i < |after| ==> FineProperty(after[i])
    requires FineProperty(e) && e.key != LENGTH && e.key != PIECES_ROOT
    ensures ParseTree(PrintString("") + ("d" + (PrintEntries(before + [e] + after) + ("e" + t))), path)
         == ParseTree(PrintString("") + ("d" + (PrintEntries(before + after) + ("e" + t))), path)
  {
    hide FineProperty, AfterProperties, PrintString, PrintEntries, ParseTree;
    FileParses(before + [e] + after, path, t);
    FileParses(before + after, path, t);
    UnknownLeavesFold(before, e, after, (0, ""));
  }

  // ---------------------------------------------------------------- the round trip

  function Reported(files: seq<FileRecord>): seq<FoundFile> {
    if files == [] then []
    else [FoundFile(JoinPath(files[0].path), files[0].length, files[0].piecesRoot)] + Reported(files[1..])
  }

  lemma {:induction false} ReportedAppend(a: seq<FileRecord>, b: seq<FileRecord>)
    ensures Reported(a + b) == Reported(a) + Reported(b)
  {
    if a == [] {
      assert a + b == b;
    } else {
      assert (a + b)[1..] == a[1..] + b;
      ReportedAppend(a[1..], b);
    }
  }

  /** Names and roots within the string limit, no empty name, all names text, lengths a 64-bit signed number can hold. */
  predicate Storable(node: FileTreeNode)
    decreases node
  {
    match node
    case File(length, root) => length < I64_LIMIT && |root| <= MAX_STRING_LENGTH
    case Directory(entries) => EntriesStorable(entries)
  }

  predicate EntriesStorable(entries: seq<Child>)
    decreases entries
  {
    entries == [] || (0 < |entries[0].name| <= MAX_STRING_LENGTH && IsUtf8(entries[0].name) && Storable(entries[0].node) && EntriesStorable(entries[1..]))
  }

  lemma {:induction false} LengthToken(length: nat)
    requires length < I64_LIMIT
    ensures ValidNumber(Dec(length)) && ParseUnsigned(Dec(length), U64_SIZE) == Some(length)
  {
    hide Dec, Value;
    DecShape(length);
    ValueDec(length);
    TwentyDigits();
    DecLength(length, 20);
    ZeroPrints(length);
  }

  lemma {:induction false} TwentyDigits()
    ensures I64_LIMIT < Pow10(20)
  {
    assert Pow10(4) == 10_000;
    assert Pow10(8) == 100_000_000;
    assert Pow10(12) == 1_000_000_000_000;
    assert Pow10(16) == 10_000_000_000_000_000;
  }

  /** The properties of a file come back. */
  lemma {:induction false} PropertiesParse(length: nat, root: Bytes, t: Bytes)
    requires length < I64_LIMIT && |root| <= MAX_STRING_LENGTH
    ensures ParseProperties(PrintEntries(Properties(length, root)) + "e" + t, 0, "") == Some((length, root, t))
  {
    hide PrintString, Next, Dec, ParseUnsigned, ValidNumber;
    var numeral := Number(Dec(length));
    var text := String(root);
    LengthToken(length);
    PropertiesPrinted(length, root);
    var last := "e" + t;
    var second := PrintString(PIECES_ROOT) + (Print(text) + last);
    assert PrintEntries(Properties(length, root)) + "e" + t == PrintString(LENGTH) + (Print(numeral) + second);
    NextString(LENGTH, Print(numeral) + second);
    NextOfPrinted(numeral, second);
    assert Tail(numeral) + second == second;
    NextString(PIECES_ROOT, Print(text) + last);
    NextOfPrinted(text, last);
    assert Tail(text) + last == last;
    NextEnd(t);
    assert ParseProperties(last, length, root) == Some((length, root, t));
    assert ParseProperties(second, length, "") == ParseProperties(last, length, root);
  }

  lemma {:induction false} PropertiesPrinted(length: nat, root: Bytes)
    ensures PrintEntries(Properties(length, root))
         == PrintString(LENGTH) + Print(Number(Dec(length))) + (PrintString(PIECES_ROOT) + Print(String(root)))
  {
    hide PrintString, Dec;
    var e := Properties(length, root);
    assert e[1..][1..] == [];
    assert PrintEntries(e[1..]) == PrintString(PIECES_ROOT) + Print(String(root)) + "";
  }

  /** The inside of a node's printed dictionary. */
  function Body(node: FileTreeNode): Bytes {
    match node
    case File(length, root) => PrintString("") + ("d" + PrintEntries(Properties(length, root)) + "e")
    case Directory(entries) => PrintEntries(ToEntries(entries))
  }

  lemma {:induction false} PrintedBody(node: FileTreeNode)
    ensures Print(ToBNode(node)) == "d" + Body(node) + "e"
  {
    hide PrintString, Properties;
    if node.File? {
      var entry := Entry("", Dictionary(Properties(node.length, node.piecesRoot)));
      assert [entry][1..] == [];
      assert PrintEntries([entry]) == PrintString("") + Print(entry.value) + "";
    }
  }

  /** Parsing the printed form of a node gives its listing and leaves exactly what follows. */
  lemma {:induction false} NodeParses(node: FileTreeNode, path: Path, t: Bytes)
    requires Storable(node)
    ensures ParseTree(Body(node) + "e" + t, path) == Some((Reported(Listing(node, path)), t))
    decreases node
  {
    hide PrintString, Next, Properties, ParseProperties;
    match node
    case File(length, root) =>
      var inside := PrintEntries(Properties(length, root)) + "e" + ("e" + t);
      assert Body(node) + "e" + t == PrintString("") + ("d" + inside);
      NextString("", "d" + inside);
      NextOpen(inside);
      PropertiesParse(length, root, "e" + t);
      NextEnd(t);
      assert Listing(node, path)[1..] == [];
      assert ParseTree("e" + t, path) == Some(([], t));
    case Directory(entries) =>
      EntriesParse(entries, path, t);
  }

  lemma {:induction false} NextOpen(t: Bytes)
    ensures Next("d" + t) == Some((DictStart, t))
  {
  }

  lemma {:induction false} PrintedEntry(entries: seq<Child>, t: Bytes)
    requires entries != []
    ensures PrintEntries(ToEntries(entries)) + "e" + t
         == PrintString(entries[0].name) + ("d" + (Body(entries[0].node) + "e" + (PrintEntries(ToEntries(entries[1..])) + "e" + t)))
  {
    hide PrintString, Print, Body;
    PrintedBody(entries[0].node);
    assert ToEntries(entries)[1..] == ToEntries(entries[1..]);
  }

  lemma {:induction false} EntriesParse(entries: seq<Child>, path: Path, t: Bytes)
    requires EntriesStorable(entries)
    ensures ParseTree(PrintEntries(ToEntries(entries)) + "e" + t, path) == Some((Reported(ListEntries(entries, path)), t))
    decreases entries
  {
    hide PrintString, Next, ParseProperties, IsUtf8;
    var s := PrintEntries(ToEntries(entries)) + "e" + t;
    if entries == [] {
      assert s == "e" + t;
      NextEnd(t);
    } else {
      var name, node, rest := entries[0].name, entries[0].node, entries[1..];
      var more := PrintEntries(ToEntries(rest)) + "e" + t;
      PrintedEntry(entries, t);
      NextString(name, "d" + (Body(node) + "e" + more));
      NextOpen(Body(node) + "e" + more);
      NodeParses(node, path + [name], more);
      EntriesParse(rest, path, t);
      ReportedAppend(Listing(node, path + [name]), ListEntries(rest, path));
    }
  }

  /**
    Round trip: building a tree from prefix-free files, encoding it and parsing the
    encoding reports exactly those files, in component order, and stops at its end.
   */
  lemma {:induction false} FileTreeRoundTrip(files: seq<FileRecord>, t: Bytes)
    requires PrefixFree(files) && forall i :: 0 <= i < |files| ==> FileStorable(files[i])
    ensures InsertAll(files, |files|).Some?
    ensures
      var root := InsertAll(files, |files|).value;
      var listing := Listing(root, []);
      && Next(Encode(ToBNode(root)) + t) == Some((DictStart, Body(root) + "e" + t))
      && ParseTree(Body(root) + "e" + t, []) == Some((Reported(listing), t))
      && InOrder(listing) && forall x :: x in listing <==> x in files
  {
    hide Next, ParseTree, Body, Print, IsUtf8;
    BuildLists(files);
    var root := InsertAll(files, |files|).value;
    BuildStorable(files, |files|);
    PrintedAsIs(root);
    PrintedBody(root);
    assert Encode(ToBNode(root)) + t == "d" + (Body(root) + "e" + t);
    NextOpen(Body(root) + "e" + t);
    NodeParses(root, [], t);
  }

  // ---------------------------------------------------------------- from path strings to path strings

  lemma {:induction false} JoinPathIsJoin(path: Path)
    ensures JoinPath(path) == Splitting.Join(path, '/')
    decreases |path|
  {
    if |path| >= 2 {
      var front, last := path[..|path| - 1], path[|path| - 1];
      JoinPathIsJoin(front);
      JoinLast(front, last);
      assert path == front + [last];
    }
  }

  lemma {:induction false} JoinLast(front: Path, last: Bytes)
    requires front != []
    ensures Splitting.Join(front + [last], '/') == Splitting.Join(front, '/') + "/" + last
    decreases |front|
  {
    var all := front + [last];
    assert all[1..] == front[1..] + [last];
    if |front| == 1 {
      assert all[1..] == [last];
    } else {
      JoinLast(front[1..], last);
    }
  }

  /** Text splits into text at slashes. */
  lemma {:induction false} PartsAreText(s: Bytes)
    requires IsUtf8(s)
    ensures forall i :: 0 <= i < |Splitting.Split(s, '/')| ==> IsUtf8(Splitting.Split(s, '/')[i])
    decreases |s|
  {
    hide IsUtf8;
    var slash := Splitting.IndexOf(s, '/');
    if slash.None? {
      Splitting.SplitPlain(s, '/');
    } else {
      var head, tail := s[..slash.value], s[slash.value + 1..];
      assert s == head + ['/'] + tail;
      SplitAtAscii(head, '/', tail);
      Splitting.SplitFirst(head, tail, '/');
      PartsAreText(tail);
    }
  }

  /** What the builder is given: text paths, roots within the string limit, lengths the encoding can hold. */
  predicate SourceStorable(f: SourceFile) {
    f.length < I64_LIMIT && |f.piecesRoot| <= MAX_STRING_LENGTH && |f.relPath| <= MAX_STRING_LENGTH && IsUtf8(f.relPath)
  }

  lemma {:induction false} RecordsStorable(files: seq<SourceFile>, n: nat)
    requires n <= |files| && forall i :: 0 <= i < |files| ==> SourceStorable(files[i])
    ensures forall i :: 0 <= i < |Records(files, n)| ==>
      FileStorable(Records(files, n)[i]) && forall k :: 0 <= k < |Records(files, n)[i].path| ==> '/' !in Records(files, n)[i].path[k]
  {
    hide IsUtf8, Components;
    if n > 0 {
      RecordsStorable(files, n - 1);
      ComponentsClean(files[n - 1].relPath);
      ComponentsText(files[n - 1].relPath);
    }
  }

  lemma {:induction false} ComponentsText(relPath: Bytes)
    requires IsUtf8(relPath)
    ensures forall i :: 0 <= i < |Components(relPath)| ==> IsUtf8(Components(relPath)[i])
  {
    hide IsUtf8;
    PartsAreText(relPath);
  }

  lemma {:induction false} ReportedAt(files: seq<FileRecord>, i: nat)
    requires i < |files|
    ensures |Reported(files)| == |files|
    ensures Reported(files)[i] == FoundFile(JoinPath(files[i].path), files[i].length, files[i].piecesRoot)
  {
    hide JoinPath;
    if |files| > 1 {
      ReportedAt(files[1..], if i > 0 then i - 1 else 0);
    }
  }

  /**
    Round trip of whole path strings through the encoding: the files given to the
    builder, except those whose path has no component, are reported with their
    length, root and components joined by single slashes, so that splitting a
    reported path at the slashes gives the components back.
   */
  lemma {:induction false} SourceRoundTrip(files: seq<SourceFile>, t: Bytes)
    requires PrefixFree(Records(files, |files|)) && forall i :: 0 <= i < |files| ==> SourceStorable(files[i])
    ensures Inserted(files, |files|).Some?
    ensures
      var root := Inserted(files, |files|).value;
      var listing := Listing(root, []);
      && Next(Encode(ToBNode(root)) + t) == Some((DictStart, Body(root) + "e" + t))
      && ParseTree(Body(root) + "e" + t, []) == Some((Reported(listing), t))
      && InOrder(listing) && (forall x :: x in listing <==> x in Records(files, |files|))
      && |Reported(listing)| == |listing|
      && forall i :: 0 <= i < |listing| ==>
           && Reported(listing)[i].length == listing[i].length && Reported(listing)[i].piecesRoot == listing[i].piecesRoot
           && Splitting.Split(Reported(listing)[i].path, '/') == listing[i].path
  {
    hide Next, ParseTree, Body, IsUtf8, Components, Reported, InOrder, FileStorable;
    var records := Records(files, |files|);
    RecordsStorable(files, |files|);
    FileTreeRoundTrip(records, t);
    var listing := Listing(Inserted(files, |files|).value, []);
    forall i | 0 <= i < |listing|
      ensures |Reported(listing)| == |listing|
      ensures Reported(listing)[i].length == listing[i].length && Reported(listing)[i].piecesRoot == listing[i].piecesRoot
      ensures Splitting.Split(Reported(listing)[i].path, '/') == listing[i].path
    {
      ReportedAt(listing, i);
      assert listing[i] in records;
      JoinPathIsJoin(listing[i].path);
      Splitting.SplitJoin(listing[i].path, '/');
    }
    ReportedSize(listing);
  }

  lemma {:induction false} ReportedSize(files: seq<FileRecord>)
    ensures |Reported(files)| == |files|
  {
    if files != [] {
      ReportedAt(files, 0);
    }
  }

  predicate FileStorable(f: FileRecord) {
    && f.length < I64_LIMIT && |f.piecesRoot| <= MAX_STRING_LENGTH
    && forall k :: 0 <= k < |f.path| ==> 0 < |f.path[k]| <= MAX_STRING_LENGTH && IsUtf8(f.path[k])
  }

  lemma {:induction false} FoundStorable(entries: seq<Child>, name: Bytes)
    requires EntriesStorable(entries) && Find(entries, name).Some?
    ensures Storable(Find(entries, name).value)
  {
    if entries[0].name != name {
      FoundStorable(entries[1..], name);
    }
  }

  lemma {:induction false} PutStorable(entries: seq<Child>, name: Bytes, node: FileTreeNode)
    requires EntriesStorable(entries) && Storable(node) && 0 < |name| <= MAX_STRING_LENGTH && IsUtf8(name)
    ensures EntriesStorable(Put(entries, name, node))
  {
    hide LexLe, Storable, IsUtf8;
    var r := Put(entries, name, node);
    if entries == [] {
    } else if entries[0].name == name {
      assert r[1..] == entries[1..];
    } else if LexLe(name, entries[0].name) {
      assert r[1..] == entries;
    } else {
      PutStorable(entries[1..], name, node);
      assert r[1..] == Put(entries[1..], name, node);
    }
  }

  lemma {:induction false} InsertStorable(node: FileTreeNode, path: Path, length: nat, root: Bytes)
    requires path != [] && Storable(node) && FileStorable(FileRecord(path, length, root)) && InsertFile(node, path, length, root).Some?
    ensures Storable(InsertFile(node, path, length, root).value)
    decreases |path|
  {
    var entries := node.entries;
    if |path| == 1 {
      PutStorable(entries, path[0], File(length, root));
    } else {
      var child := Find(entries, path[0]);
      if child.Some? {
        FoundStorable(entries, path[0]);
      }
      var below := if child.Some? then child.value else Directory([]);
      InsertStorable(below, path[1..], length, root);
      PutStorable(entries, path[0], InsertFile(below, path[1..], length, root).value);
    }
  }

  lemma {:induction false} BuildStorable(files: seq<FileRecord>, n: nat)
    requires n <= |files| && forall i :: 0 <= i < |files| ==> files[i].path != [] && FileStorable(files[i])
    requires InsertAll(files, n).Some?
    ensures Storable(InsertAll(files, n).value)
  {
    if n > 0 {
      BuildStorable(files, n - 1);
      var f := files[n - 1];
      assert f == FileRecord(f.path, f.length, f.piecesRoot);
      InsertStorable(InsertAll(files, n - 1).value, f.path, f.length, f.piecesRoot);
    }
  }

  // ---------------------------------------------------------------- the program

  lemma {:induction false} Slices(s: Bytes, start: nat, a: nat, b: nat)
    requires a <= b && start + b <= |s|
    ensures s[start..][a..b] == s[start + a..start + b] && s[start..][b..] == s[start + b..]
  {
  }

  class Tokenizer {
    const buffer: Bytes
    var position: nat

    ghost predicate Valid()
      reads this
    {
      position <= |buffer|
    }

    function Rest(): Bytes
      reads this
      requires Valid()
    {
      buffer[position..]
    }

    constructor (data: Bytes)
      ensures Valid() && buffer == data && Rest() == data
    {
      buffer, position := data, 0;
    }

    /** Moves over the characters of a numeral. */
    method PassNumeral()
      requires Valid()
      modifies this`position
      ensures Valid() && position == old(position) + NumeralRun(old(Rest()))
    {
      while position < |buffer| && InNumeral(buffer[position])
        invariant old(position) <= position <= |buffer|
        invariant NumeralRun(old(Rest())) == position - old(position) + NumeralRun(Rest())
      {
        assert Rest()[1..] == buffer[position + 1..];
        position := position + 1;
      }
    }

    method PassDigits()
      requires Valid()
      modifies this`position
      ensures Valid() && position == old(position) + LeadingDigits(old(Rest()))
    {
      while position < |buffer| && IsDigit(buffer[position])
        invariant old(position) <= position <= |buffer|
        invariant LeadingDigits(old(Rest())) == position - old(position) + LeadingDigits(Rest())
      {
        assert Rest()[1..] == buffer[position + 1..];
        position := position + 1;
      }
    }

    method TakeNumber() returns (numeral: Option<Bytes>)
      requires Valid()
      modifies this`position
      ensures Valid() && old(position) <= position
      ensures match ReadNumber(old(Rest())) case None => numeral == None case Some((b, rest)) => numeral == Some(b) && Rest() == rest
    {
      hide NumeralRun, ValidNumber;
      var start := position;
      PassNumeral();
      var n := position - start;
      assert buffer[start..position] == old(Rest())[..n];
      if position == |buffer| || buffer[position] != 'e' || !ValidNumber(buffer[start..position]) {
        return None;
      }
      numeral := Some(buffer[start..position]);
      assert buffer[position + 1..] == old(Rest())[n + 1..];
      position := position + 1;
    }

    method TakeString() returns (bytes: Option<Bytes>)
      requires Valid()
      modifies this`position
      ensures Valid() && old(position) <= position
      ensures match ReadString(old(Rest())) case None => bytes == None case Some((b, rest)) => bytes == Some(b) && Rest() == rest
    {
      hide LeadingDigits, Value;
      ghost var s := Rest();
      var start := position;
      PassDigits();
      var n := position - start;
      assert buffer[start..position] == s[..n];
      if position == |buffer| || buffer[position] != ':' || n == 0 || (buffer[start] == '0' && n > 1) || n > MAX_LENGTH_DIGITS {
        return None;
      }
      var length := Value(buffer[start..position]);
      if length > MAX_STRING_LENGTH || position + 1 + length > |buffer| {
        return None;
      }
      var from := position + 1;
      bytes := Some(buffer[from..from + length]);
      Slices(buffer, start, n + 1, n + 1 + length);
      position := from + length;
    }

    /** `next_token`. */
    method NextToken() returns (token: Option<Token>)
      requires Valid()
      modifies this`position
      ensures Valid() && old(position) <= position
      ensures match Next(old(Rest())) case None => token == None case Some((t, rest)) => token == Some(t) && Rest() == rest && position > old(position)
    {
      hide ReadNumber, ReadString;
      if position == |buffer| {
        return None;
      }
      var c := buffer[position];
      assert buffer[position + 1..] == Rest()[1..];
      if c == 'd' || c == 'l' || c == 'e' {
        position := position + 1;
        return Some(if c == 'd' then DictStart else if c == 'l' then ListStart else End);
      }
      if c == 'i' {
        position := position + 1;
        var numeral := TakeNumber();
        return if numeral.None? then None else Some(Integer(numeral.value));
      }
      var bytes := TakeString();
      return if bytes.None? then None else Some(Text(bytes.value));
    }
  }

  /** Skips until `depth` open containers are closed. */
  method SkipOpen(tokenizer: Tokenizer, open: nat) returns (ok: bool)
    requires tokenizer.Valid()
    modifies tokenizer`position
    ensures tokenizer.Valid() && old(tokenizer.position) <= tokenizer.position
    ensures match Skip(old(tokenizer.Rest()), open) case None => !ok case Some(rest) => ok && tokenizer.Rest() == rest
  {
    hide Next;
    var depth := open;
    while depth > 0
      invariant tokenizer.Valid() && old(tokenizer.position) <= tokenizer.position
      invariant Skip(tokenizer.Rest(), depth) == Skip(old(tokenizer.Rest()), open)
      decreases |tokenizer.buffer| - tokenizer.position, depth
    {
      var token := tokenizer.NextToken();
      if token.None? {
        return false;
      }
      depth := DepthAfter(token.value, depth);
    }
    ok := true;
  }

  /** The property loop. */
  method ReadProperties(tokenizer: Tokenizer) returns (r: Option<(nat, Bytes)>)
    requires tokenizer.Valid()
    modifies tokenizer`position
    ensures tokenizer.Valid() && old(tokenizer.position) <= tokenizer.position
    ensures match ParseProperties(old(tokenizer.Rest()), 0, "")
      case None => r == None
      case Some((length, root, rest)) => r == Some((length, root)) && tokenizer.Rest() == rest
  {
    hide Next, Skip, NewLength;
    var length, root := 0, "";
    while true
      invariant tokenizer.Valid() && old(tokenizer.position) <= tokenizer.position
      invariant ParseProperties(tokenizer.Rest(), length, root) == ParseProperties(old(tokenizer.Rest()), 0, "")
      decreases |tokenizer.buffer| - tokenizer.position
    {
      var key := tokenizer.NextToken();
      if key.None? {
        return None;
      }
      if key.value.End? {
        return Some((length, root));
      }
      if !key.value.Text? {
        return None;
      }
      var value := tokenizer.NextToken();
      if value.None? {
        return None;
      }
      if key.value.bytes == LENGTH {
        length := NewLength(length, value.value);
      } else if key.value.bytes == PIECES_ROOT {
        root := if value.value.Text? then value.value.bytes else root;
      } else {
        var ok := SkipOpen(tokenizer, Opens(value.value));
        if !ok {
          return None;
        }
      }
    }
  }

  /** `parse_file_tree_tokenized`: appends the files it finds; recursion passes the extended path. */
  method ParseFileTree(tokenizer: Tokenizer, path: Path, before: seq<FoundFile>) returns (ok: bool, files: seq<FoundFile>)
    requires tokenizer.Valid()
    modifies tokenizer`position
    ensures tokenizer.Valid() && old(tokenizer.position) <= tokenizer.position
    ensures match ParseTree(old(tokenizer.Rest()), path)
      case None => !ok
      case Some((found, rest)) => ok && files == before + found && tokenizer.Rest() == rest
    decreases |tokenizer.buffer| - tokenizer.position
  {
    hide Next, ParseProperties, JoinPath, IsUtf8;
    files := before;
    ghost var found: seq<FoundFile> := [];
    PrependNothing(ParseTree(tokenizer.Rest(), path));
    while true
      invariant tokenizer.Valid() && old(tokenizer.position) <= tokenizer.position
      invariant files == before + found
      invariant Prepend(found, ParseTree(tokenizer.Rest(), path)) == ParseTree(old(tokenizer.Rest()), path)
      decreases |tokenizer.buffer| - tokenizer.position
    {
      var token := tokenizer.NextToken();
      if token.None? {
        return false, files;
      }
      if token.value.End? {
        return true, files;
      }
      if !token.value.Text? {
        return false, files;
      }
      var key := token.value.bytes;
      var opening := tokenizer.NextToken();
      if opening != Some(DictStart) {
        return false, files;
      }
      ghost var more: seq<FoundFile>;
      if key != "" && !IsUtf8(key) {
        return false, files;
      }
      if key == "" {
        var properties := ReadProperties(tokenizer);
        if properties.None? {
          return false, files;
        }
        var file := FoundFile(JoinPath(path), properties.value.0, properties.value.1);
        more := [file];
        files := files + [file];
      } else {
        more := if ParseTree(tokenizer.Rest(), path + [key]).Some? then ParseTree(tokenizer.Rest(), path + [key]).value.0 else [];
        var inner;
        inner, files := ParseFileTree(tokenizer, path + [key], files);
        if !inner {
          return false, files;
        }
      }
      PrependTwice(found, more, ParseTree(tokenizer.Rest(), path));
      assert before + found + more == before + (found + more);
      found := found + more;
    }
  }

  lemma {:induction false} PrependNothing(r: Option<(seq<FoundFile>, Bytes)>)
    ensures Prepend([], r) == r
  {
    if r.Some? {
      assert [] + r.value.0 == r.value.0;
    }
  }

  lemma {:induction false} PrependTwice(a: seq<FoundFile>, b: seq<FoundFile>, r: Option<(seq<FoundFile>, Bytes)>)
    ensures Prepend(a, Prepend(b, r)) == Prepend(a + b, r)
  {
    if r.Some? {
      assert a + (b + r.value.0) == a + b + r.value.0;
    }
  }
}
