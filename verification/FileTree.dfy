/**
  The BitTorrent v2 file tree (BEP 52) as `library/src/core/torrent_builder.rs` builds it:
  nested ordered maps, kept here as lists sorted by name.
 */
module FileTrees {
  import opened Wrappers
  import opened Decimal
  import opened Bencode
  import Splitting

  datatype FileTreeNode =
    | Directory(entries: seq<Child>)
    | File(length: nat, piecesRoot: Bytes)

  datatype Child = Child(name: Bytes, node: FileTreeNode)

  type Path = seq<Bytes>

  datatype FileRecord = FileRecord(path: Path, length: nat, piecesRoot: Bytes)

  predicate Before(a: Bytes, b: Bytes) {
    a != b && LexLe(a, b)
  }

  // ---------------------------------------------------------------- one directory

  /** The ordered map's lookup. */
  function Find(entries: seq<Child>, name: Bytes): Option<FileTreeNode> {
    if entries == [] then None
    else if entries[0].name == name then Some(entries[0].node)
    else Find(entries[1..], name)
  }

  /** The ordered map's insertion, replacing an entry of the same name. */
  function Put(entries: seq<Child>, name: Bytes, node: FileTreeNode): seq<Child> {
    if entries == [] then [Child(name, node)]
    else if entries[0].name == name then [Child(name, node)] + entries[1..]
    else if LexLe(name, entries[0].name) then [Child(name, node)] + entries
    else [entries[0]] + Put(entries[1..], name, node)
  }

  predicate SortedNames(entries: seq<Child>) {
    forall i, j :: 0 <= i < j < |entries| ==> Before(entries[i].name, entries[j].name)
  }

  lemma {:induction false} BeforeTransitive(a: Bytes, b: Bytes, c: Bytes)
    requires Before(a, b) && Before(b, c)
    ensures Before(a, c)
  {
    LexTransitive(a, b, c);
    if a == c {
      LexAntisymmetric(a, b);
    }
  }

  lemma {:induction false} AfterHead(entries: seq<Child>, name: Bytes)
    requires SortedNames(entries) && entries != [] && Before(name, entries[0].name)
    ensures forall i :: 0 <= i < |entries| ==> Before(name, entries[i].name)
    ensures Find(entries, name) == None
  {
    hide Before;
    forall i | 0 < i < |entries|
      ensures Before(name, entries[i].name)
    {
      BeforeTransitive(name, entries[0].name, entries[i].name);
    }
    NotFound(entries, name);
  }

  lemma {:induction false} NotFound(entries: seq<Child>, name: Bytes)
    requires forall i :: 0 <= i < |entries| ==> Before(name, entries[i].name)
    ensures Find(entries, name) == None
  {
    if entries != [] {
      NotFound(entries[1..], name);
    }
  }

  lemma {:induction false} FindPut(entries: seq<Child>, name: Bytes, node: FileTreeNode, other: Bytes)
    ensures Find(Put(entries, name, node), other) == if other == name then Some(node) else Find(entries, other)
  {
    hide LexLe;
    var r := Put(entries, name, node);
    if entries == [] {
      assert r[1..] == [];
    } else if entries[0].name == name {
      assert r[1..] == entries[1..];
    } else if LexLe(name, entries[0].name) {
      assert r[1..] == entries;
    } else {
      assert r[1..] == Put(entries[1..], name, node);
      FindPut(entries[1..], name, node, other);
    }
  }

  lemma {:induction false} PutNames(entries: seq<Child>, name: Bytes, node: FileTreeNode, c: Child)
    requires c in Put(entries, name, node)
    ensures c == Child(name, node) || c in entries
  {
    hide LexLe;
    if entries != [] && entries[0].name != name && !LexLe(name, entries[0].name) && c != entries[0] {
      PutNames(entries[1..], name, node, c);
    }
  }

  lemma {:induction false} PutSorted(entries: seq<Child>, name: Bytes, node: FileTreeNode)
    requires SortedNames(entries)
    ensures SortedNames(Put(entries, name, node))
  {
    hide LexLe;
    if entries != [] && entries[0].name != name {
      if LexLe(name, entries[0].name) {
        AfterHead(entries, name);
      } else {
        LexTotal(name, entries[0].name);
        var rest := entries[1..];
        PutSorted(rest, name, node);
        forall c | c in Put(rest, name, node)
          ensures Before(entries[0].name, c.name)
        {
          PutNames(rest, name, node, c);
        }
      }
    }
  }

  // ---------------------------------------------------------------- inserting files

  /**
    `insert_file`.  `None` is the unreachable branch: descending into something
    that is a file.
   */
  function InsertFile(node: FileTreeNode, path: Path, length: nat, root: Bytes): Option<FileTreeNode>
    requires path != []
    decreases |path|
  {
    match node
    case File(_, _) => None
    case Directory(entries) =>
      if |path| == 1 then Some(Directory(Put(entries, path[0], File(length, root))))
      else
        var child := Find(entries, path[0]);
        match InsertFile(if child.Some? then child.value else Directory([]), path[1..], length, root)
        case None => None
        case Some(changed) => Some(Directory(Put(entries, path[0], changed)))
  }

  /** The file at a path. */
  function Lookup(node: FileTreeNode, path: Path): Option<(nat, Bytes)>
    decreases |path|
  {
    match node
    case File(length, root) => if path == [] then Some((length, root)) else None
    case Directory(entries) =>
      if path == [] then None
      else
        match Find(entries, path[0])
        case None => None
        case Some(child) => Lookup(child, path[1..])
  }

  /** Some proper prefix of the path, below this node, is a file. */
  predicate Blocked(node: FileTreeNode, path: Path)
    requires path != []
  {
    exists k :: 0 <= k < |path| && Lookup(node, path[..k]).Some?
  }

  /** The unreachable branch is reached exactly if a proper prefix of the path is already a file. */
  lemma {:induction false} InsertFailsExactly(node: FileTreeNode, path: Path, length: nat, root: Bytes)
    requires path != []
    ensures InsertFile(node, path, length, root) == None <==> Blocked(node, path)
    decreases |path|
  {
    match node
    case File(_, _) =>
      assert Lookup(node, path[..0]).Some?;
    case Directory(entries) =>
      if |path| == 1 {
        assert forall k :: 0 <= k < |path| ==> path[..k] == [];
      } else {
        var child := Find(entries, path[0]);
        var below := if child.Some? then child.value else Directory([]);
        InsertFailsExactly(below, path[1..], length, root);
        BlockedBelow(entries, path);
      }
  }

  lemma {:induction false} BlockedBelow(entries: seq<Child>, path: Path)
    requires |path| > 1
    ensures var child := Find(entries, path[0]);
      Blocked(Directory(entries), path) <==> Blocked(if child.Some? then child.value else Directory([]), path[1..])
  {
    var child := Find(entries, path[0]);
    var below := if child.Some? then child.value else Directory([]);
    forall k | 0 < k < |path|
      ensures Lookup(Directory(entries), path[..k]) == Lookup(below, path[1..][..k - 1])
    {
      assert path[..k][0] == path[0] && path[..k][1..] == path[1..][..k - 1];
    }
    if Blocked(Directory(entries), path) {
      var k :| 0 <= k < |path| && Lookup(Directory(entries), path[..k]).Some?;
      assert Lookup(below, path[1..][..k - 1]).Some?;
    }
    if Blocked(below, path[1..]) {
      var k :| 0 <= k < |path[1..]| && Lookup(below, path[1..][..k]).Some?;
      assert Lookup(Directory(entries), path[..k + 1]).Some?;
    }
  }

  /** Insertion adds that file, removes what was below its path, and keeps everything else. */
  lemma {:induction false} LookupInsert(node: FileTreeNode, path: Path, length: nat, root: Bytes, q: Path)
    requires path != [] && InsertFile(node, path, length, root).Some?
    ensures Lookup(InsertFile(node, path, length, root).value, q) ==
      if q == path then Some((length, root)) else if path <= q then None else Lookup(node, q)
    decreases |path|
  {
    var entries := node.entries;
    if q != [] {
      if |path| == 1 {
        FindPut(entries, path[0], File(length, root), q[0]);
        assert q[0] == path[0] && q[1..] == [] ==> q == path;
        assert q == [q[0]] + q[1..];
      } else {
        var child := Find(entries, path[0]);
        var below := if child.Some? then child.value else Directory([]);
        var changed := InsertFile(below, path[1..], length, root).value;
        FindPut(entries, path[0], changed, q[0]);
        if q[0] == path[0] {
          LookupInsert(below, path[1..], length, root, q[1..]);
          assert q == [q[0]] + q[1..] && path == [path[0]] + path[1..];
        }
      }
    }
  }

  // ---------------------------------------------------------------- listing files in order

  /** Every file below a node, children in name order. */
  function Listing(node: FileTreeNode, path: Path): seq<FileRecord>
    decreases node
  {
    match node
    case File(length, root) => [FileRecord(path, length, root)]
    case Directory(entries) => ListEntries(entries, path)
  }

  function ListEntries(entries: seq<Child>, path: Path): seq<FileRecord>
    decreases entries
  {
    if entries == [] then [] else Listing(entries[0].node, path + [entries[0].name]) + ListEntries(entries[1..], path)
  }

  /** Names in order in every directory. */
  predicate Sorted(node: FileTreeNode)
    decreases node
  {
    node.Directory? ==> SortedNames(node.entries) && EntriesSorted(node.entries)
  }

  predicate EntriesSorted(entries: seq<Child>)
    decreases entries
  {
    entries == [] || (Sorted(entries[0].node) && EntriesSorted(entries[1..]))
  }

  lemma {:induction false} FoundSorted(entries: seq<Child>, name: Bytes)
    requires EntriesSorted(entries) && Find(entries, name).Some?
    ensures Sorted(Find(entries, name).value)
  {
    if entries[0].name != name {
      FoundSorted(entries[1..], name);
    }
  }

  lemma {:induction false} PutEntriesSorted(entries: seq<Child>, name: Bytes, node: FileTreeNode)
    requires EntriesSorted(entries) && Sorted(node)
    ensures EntriesSorted(Put(entries, name, node))
  {
    hide LexLe, Sorted;
    var r := Put(entries, name, node);
    if entries == [] {
    } else if entries[0].name == name {
      assert r[1..] == entries[1..];
    } else if LexLe(name, entries[0].name) {
      assert r[1..] == entries;
    } else {
      PutEntriesSorted(entries[1..], name, node);
      assert r[1..] == Put(entries[1..], name, node);
    }
  }

  lemma {:induction false} InsertSorted(node: FileTreeNode, path: Path, length: nat, root: Bytes)
    requires path != [] && Sorted(node) && InsertFile(node, path, length, root).Some?
    ensures Sorted(InsertFile(node, path, length, root).value)
    decreases |path|
  {
    var entries := node.entries;
    if |path| == 1 {
      PutSorted(entries, path[0], File(length, root));
      PutEntriesSorted(entries, path[0], File(length, root));
    } else {
      var child := Find(entries, path[0]);
      if child.Some? {
        FoundSorted(entries, path[0]);
      }
      var below := if child.Some? then child.value else Directory([]);
      InsertSorted(below, path[1..], length, root);
      var changed := InsertFile(below, path[1..], length, root).value;
      PutSorted(entries, path[0], changed);
      PutEntriesSorted(entries, path[0], changed);
    }
  }

  /** Component-wise lexicographic order. */
  predicate PathBefore(a: Path, b: Path) {
    b != [] && (a == [] || (if a[0] == b[0] then PathBefore(a[1..], b[1..]) else LexLe(a[0], b[0])))
  }

  predicate InOrder(files: seq<FileRecord>) {
    forall i, j :: 0 <= i < j < |files| ==> PathBefore(files[i].path, files[j].path)
  }

  lemma {:induction false} ListedBelow(node: FileTreeNode, path: Path, x: FileRecord)
    requires x in Listing(node, path)
    ensures path <= x.path
    decreases node
  {
    if node.Directory? {
      var name := ListedUnder(node.entries, path, x);
    }
  }

  lemma {:induction false} ListedUnder(entries: seq<Child>, path: Path, x: FileRecord) returns (k: nat)
    requires x in ListEntries(entries, path)
    ensures k < |entries| && path + [entries[k].name] <= x.path
    decreases entries
  {
    if x in Listing(entries[0].node, path + [entries[0].name]) {
      ListedBelow(entries[0].node, path + [entries[0].name], x);
      k := 0;
    } else {
      var j := ListedUnder(entries[1..], path, x);
      k := j + 1;
    }
  }

  lemma {:induction false} NamesDecide(path: Path, m: Bytes, n: Bytes, a: Path, b: Path)
    requires path + [m] <= a && path + [n] <= b && Before(m, n)
    ensures PathBefore(a, b)
    decreases |path|
  {
    hide LexLe;
    if path == [] {
      assert a[0] == (path + [m])[0] && b[0] == (path + [n])[0];
    } else {
      assert a[0] == (path + [m])[0] == path[0] && b[0] == (path + [n])[0] == path[0];
      assert path[1..] + [m] == (path + [m])[1..] && path[1..] + [n] == (path + [n])[1..];
      NamesDecide(path[1..], m, n, a[1..], b[1..]);
    }
  }

  /** A sorted tree is listed in path order. */
  lemma {:induction false} ListingInOrder(node: FileTreeNode, path: Path)
    requires Sorted(node)
    ensures InOrder(Listing(node, path))
    decreases node
  {
    if node.Directory? {
      EntriesInOrder(node.entries, path);
    }
  }

  lemma {:induction false} EntriesInOrder(entries: seq<Child>, path: Path)
    requires SortedNames(entries) && EntriesSorted(entries)
    ensures InOrder(ListEntries(entries, path))
    decreases entries
  {
    hide PathBefore, Before;
    if entries != [] {
      var first, rest := Listing(entries[0].node, path + [entries[0].name]), ListEntries(entries[1..], path);
      ListingInOrder(entries[0].node, path + [entries[0].name]);
      EntriesInOrder(entries[1..], path);
      forall x, y | x in first && y in rest
        ensures PathBefore(x.path, y.path)
      {
        ListedBelow(entries[0].node, path + [entries[0].name], x);
        var k := ListedUnder(entries[1..], path, y);
        NamesDecide(path, entries[0].name, entries[1..][k].name, x.path, y.path);
      }
    }
  }

  /** The listing holds exactly the files that can be looked up. */
  lemma {:induction false} ListingExactly(node: FileTreeNode, path: Path, q: Path, length: nat, root: Bytes)
    requires Sorted(node)
    ensures FileRecord(path + q, length, root) in Listing(node, path) <==> Lookup(node, q) == Some((length, root))
    decreases node
  {
    if node.Directory? {
      EntriesExactly(node.entries, path, q, length, root);
    } else if q != [] {
      assert |path + q| > |path|;
    } else {
      assert path + q == path;
    }
  }

  lemma {:induction false} EntriesExactly(entries: seq<Child>, path: Path, q: Path, length: nat, root: Bytes)
    requires SortedNames(entries) && EntriesSorted(entries)
    ensures FileRecord(path + q, length, root) in ListEntries(entries, path) <==> Lookup(Directory(entries), q) == Some((length, root))
    decreases entries
  {
    hide Before;
    var x := FileRecord(path + q, length, root);
    if entries != [] {
      var name, rest := entries[0].name, entries[1..];
      EntriesExactly(rest, path, q, length, root);
      if q != [] && q[0] == name {
        assert path + q == path + [name] + q[1..];
        ListingExactly(entries[0].node, path + [name], q[1..], length, root);
        if x in ListEntries(rest, path) {
          var k := ListedUnder(rest, path, x);
          SameHead(path, rest[k].name, q);
          assert Before(name, entries[k + 1].name);
          assert false by { NotBeforeItself(name); }
        }
      } else if x in Listing(entries[0].node, path + [name]) {
        ListedBelow(entries[0].node, path + [name], x);
        SameHead(path, name, q);
      }
    }
  }

  lemma {:induction false} NotBeforeItself(name: Bytes)
    ensures !Before(name, name)
  {
  }

  lemma {:induction false} SameHead(path: Path, name: Bytes, q: Path)
    requires path + [name] <= path + q
    ensures q != [] && q[0] == name
  {
    assert (path + [name])[|path|] == name;
    assert |path + q| > |path|;
    assert (path + q)[|path|] == q[0];
  }

  // ---------------------------------------------------------------- building a tree

  /** Inserting the first n files into an empty root. */
  function InsertAll(files: seq<FileRecord>, n: nat): Option<FileTreeNode>
    requires n <= |files| && forall i :: 0 <= i < |files| ==> files[i].path != []
  {
    if n == 0 then Some(Directory([]))
    else
      match InsertAll(files, n - 1)
      case None => None
      case Some(root) => InsertFile(root, files[n - 1].path, files[n - 1].length, files[n - 1].piecesRoot)
  }

  /** No path is a prefix of another file's path; in particular all paths differ. */
  ghost predicate PrefixFree(files: seq<FileRecord>) {
    && (forall i :: 0 <= i < |files| ==> files[i].path != [])
    && (forall i, j :: 0 <= i < |files| && 0 <= j < |files| && i != j ==> !(files[i].path <= files[j].path))
  }

  lemma {:induction false} BuildFinds(files: seq<FileRecord>, n: nat, q: Path)
    requires PrefixFree(files) && n <= |files|
    ensures InsertAll(files, n).Some? && Sorted(InsertAll(files, n).value)
    ensures var found := Lookup(InsertAll(files, n).value, q);
      && (found.Some? ==> FileRecord(q, found.value.0, found.value.1) in files[..n])
      && forall x :: x in files[..n] && x.path == q ==> found == Some((x.length, x.piecesRoot))
    decreases n
  {
    if n == 0 {
    } else {
      var f := files[n - 1];
      BuildFinds(files, n - 1, q);
      NothingBlocks(files, n);
      var before := InsertAll(files, n - 1).value;
      InsertSorted(before, f.path, f.length, f.piecesRoot);
      LookupInsert(before, f.path, f.length, f.piecesRoot, q);
      assert files[..n] == files[..n - 1] + [f];
      assert f == FileRecord(f.path, f.length, f.piecesRoot);
      if q == f.path {
        assert forall i :: 0 <= i < n - 1 ==> !(files[i].path <= files[n - 1].path);
        assert forall x :: x in files[..n - 1] ==> x.path != q;
      } else if f.path <= q {
        assert forall x :: x in files[..n - 1] ==> x.path != q;
      }
    }
  }

  lemma {:induction false} NothingBlocks(files: seq<FileRecord>, n: nat)
    requires PrefixFree(files) && 0 < n <= |files| && InsertAll(files, n - 1).Some?
    ensures InsertAll(files, n).Some?
    decreases n, 0
  {
    var f, before := files[n - 1], InsertAll(files, n - 1).value;
    InsertFailsExactly(before, f.path, f.length, f.piecesRoot);
    forall k | 0 <= k < |f.path|
      ensures Lookup(before, f.path[..k]) == None
    {
      BuildFinds(files, n - 1, f.path[..k]);
    }
  }

  /** Prefix-free files are all stored, and listed exactly, in path order. */
  lemma {:induction false} BuildLists(files: seq<FileRecord>)
    requires PrefixFree(files)
    ensures InsertAll(files, |files|).Some? && Sorted(InsertAll(files, |files|).value)
    ensures var listing := Listing(InsertAll(files, |files|).value, []);
      InOrder(listing) && forall x :: x in listing <==> x in files
  {
    BuildFinds(files, |files|, []);
    var root := InsertAll(files, |files|).value;
    ListingInOrder(root, []);
    forall x: FileRecord
      ensures x in Listing(root, []) <==> x in files
    {
      BuildFinds(files, |files|, x.path);
      ListingExactly(root, [], x.path, x.length, x.piecesRoot);
      assert [] + x.path == x.path && files[..|files|] == files;
      assert x == FileRecord(x.path, x.length, x.piecesRoot);
    }
  }

  // ---------------------------------------------------------------- paths with slashes

  /** A file as the builder is given it. */
  datatype SourceFile = SourceFile(relPath: Bytes, length: nat, piecesRoot: Bytes)

  function NonEmpty(parts: seq<Bytes>): (r: Path)
    ensures forall i :: 0 <= i < |r| ==> r[i] != "" && r[i] in parts
  {
    if parts == [] then [] else (if parts[0] == "" then [] else [parts[0]]) + NonEmpty(parts[1..])
  }

  /** The parts of a relative path between slashes, empty ones left out. */
  function Components(relPath: Bytes): Path {
    NonEmpty(Splitting.Split(relPath, '/'))
  }

  /** The files that have any component at all; the others are skipped. */
  function Records(files: seq<SourceFile>, n: nat): (r: seq<FileRecord>)
    requires n <= |files|
    ensures forall i :: 0 <= i < |r| ==> r[i].path != []
  {
    if n == 0 then []
    else
      var f, before := files[n - 1], Records(files, n - 1);
      if Components(f.relPath) == [] then before else before + [FileRecord(Components(f.relPath), f.length, f.piecesRoot)]
  }

  /** No component is empty, contains a slash or is longer than the path. */
  lemma {:induction false} ComponentsClean(relPath: Bytes)
    ensures forall i :: 0 <= i < |Components(relPath)| ==>
      var part := Components(relPath)[i]; 0 < |part| <= |relPath| && '/' !in part
  {
    Splitting.SplitParts(relPath, '/');
  }

  lemma {:induction false} NothingLeftOut(parts: seq<Bytes>)
    requires "" !in parts
    ensures NonEmpty(parts) == parts
  {
    if parts != [] {
      NothingLeftOut(parts[1..]);
    }
  }

  /** A path comes back from its components exactly if no part of it is empty. */
  lemma {:induction false} NormalPathExactly(relPath: Bytes)
    requires Components(relPath) != []
    ensures Splitting.Join(Components(relPath), '/') == relPath <==> "" !in Splitting.Split(relPath, '/')
  {
    hide NonEmpty, Splitting.Join, Splitting.Split;
    var parts := Splitting.Split(relPath, '/');
    ComponentsClean(relPath);
    Splitting.SplitJoin(Components(relPath), '/');
    Splitting.JoinSplit(relPath, '/');
    if "" !in parts {
      NothingLeftOut(parts);
    }
  }

  lemma {:induction false} InsertAllPrefix(some: seq<FileRecord>, all: seq<FileRecord>, n: nat)
    requires n <= |some| && some <= all && forall i :: 0 <= i < |all| ==> all[i].path != []
    ensures InsertAll(some, n) == InsertAll(all, n)
  {
    hide InsertFile;
    if n > 0 {
      InsertAllPrefix(some, all, n - 1);
    }
  }

  /** The tree of the first n files. */
  function Inserted(files: seq<SourceFile>, n: nat): Option<FileTreeNode>
    requires n <= |files|
  {
    var records := Records(files, n);
    InsertAll(records, |records|)
  }

  lemma {:induction false} NothingInserted(files: seq<SourceFile>)
    ensures Inserted(files, 0) == Some(Directory([]))
  {
  }

  lemma {:induction false} InsertedStep(files: seq<SourceFile>, n: nat)
    requires n < |files|
    ensures var f, parts := files[n], Components(files[n].relPath);
      Inserted(files, n + 1) ==
        if parts == [] || Inserted(files, n).None? then Inserted(files, n)
        else InsertFile(Inserted(files, n).value, parts, f.length, f.piecesRoot)
  {
    hide InsertFile, Components;
    var before, after := Records(files, n), Records(files, n + 1);
    InsertAllPrefix(before, after, |before|);
  }

  method BuildFileTree(files: seq<SourceFile>) returns (root: Option<FileTreeNode>)
    ensures root == Inserted(files, |files|)
  {
    hide InsertFile, Components, Inserted;
    root := Some(Directory([]));
    NothingInserted(files);
    for i := 0 to |files|
      invariant root == Inserted(files, i)
    {
      InsertedStep(files, i);
      var parts := Components(files[i].relPath);
      if parts == [] {
        continue;
      }
      root := if root.None? then None else InsertFile(root.value, parts, files[i].length, files[i].piecesRoot);
    }
  }

  // ---------------------------------------------------------------- the printed form

  const LENGTH: Bytes := "length"
  const PIECES_ROOT: Bytes := "pieces root"

  function Properties(length: nat, root: Bytes): seq<Entry> {
    [Entry(LENGTH, Number(Dec(length))), Entry(PIECES_ROOT, String(root))]
  }

  /** `to_bnode`: a file is a dictionary under the empty key. */
  function ToBNode(node: FileTreeNode): BNode
    decreases node
  {
    match node
    case File(length, root) => Dictionary([Entry("", Dictionary(Properties(length, root)))])
    case Directory(entries) => Dictionary(ToEntries(entries))
  }

  function ToEntries(entries: seq<Child>): (r: seq<Entry>)
    ensures |r| == |entries| && forall i :: 0 <= i < |r| ==> r[i].key == entries[i].name
    decreases entries
  {
    if entries == [] then [] else [Entry(entries[0].name, ToBNode(entries[0].node))] + ToEntries(entries[1..])
  }

  /** The tree is printed in its own order: the encoder's sorting changes nothing. */
  lemma {:induction false} PrintedAsIs(node: FileTreeNode)
    requires Sorted(node)
    ensures Ordered(ToBNode(node)) && Encode(ToBNode(node)) == Print(ToBNode(node))
  {
    TreeOrdered(node);
    OrderedIsCanonical(ToBNode(node));
  }

  lemma {:induction false} OneEntryOrdered(entry: Entry)
    requires Ordered(entry.value)
    ensures SortedKeys([entry]) && EntriesOrdered([entry])
  {
    var entries := [entry];
    assert entries[1..] == [];
  }

  lemma {:induction false} PropertiesOrdered(length: nat, root: Bytes)
    ensures SortedKeys(Properties(length, root)) && EntriesOrdered(Properties(length, root))
  {
    hide Dec;
    var properties := Properties(length, root);
    var last := Entry(PIECES_ROOT, String(root));
    assert properties[1..] == [last];
    OneEntryOrdered(last);
    assert LexLe(LENGTH, PIECES_ROOT);
  }

  lemma {:induction false} TreeOrdered(node: FileTreeNode)
    requires Sorted(node)
    ensures Ordered(ToBNode(node))
    decreases node
  {
    match node
    case File(length, root) =>
      var properties := Properties(length, root);
      PropertiesOrdered(length, root);
      OneEntryOrdered(Entry("", Dictionary(properties)));
    case Directory(entries) =>
      EntriesTreeOrdered(entries);
      assert SortedKeys(ToEntries(entries));
  }

  lemma {:induction false} EntriesTreeOrdered(entries: seq<Child>)
    requires EntriesSorted(entries)
    ensures EntriesOrdered(ToEntries(entries))
    decreases entries
  {
    if entries != [] {
      TreeOrdered(entries[0].node);
      EntriesTreeOrdered(entries[1..]);
      assert ToEntries(entries)[1..] == ToEntries(entries[1..]);
    }
  }
}
