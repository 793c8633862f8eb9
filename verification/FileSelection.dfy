/**
  File priorities and BEP 53 selection: which pieces are wanted (interval
  overlap and maximum priority, `library/src/core/piece_accounting.rs`) and which
  pieces a selection report lists (division, `library/src/network/metadata_fetcher.rs`).
 */
module FileSelection {
  import opened Wrappers
  import opened Sizes
  import opened PowersOfTwo

  datatype FilePriority = Skip | Low | Normal | High {
    function Rank(): nat {
      match this
      case Skip => 0
      case Low => 1
      case Normal => 4
      case High => 7
    }
  }

  datatype FileDetails = FileDetails(offset: nat, length: nat, priority: FilePriority)

  function MaxPriority(a: FilePriority, b: FilePriority): FilePriority {
    if a.Rank() > b.Rank() then a else b
  }

  // ---------------------------------------------------------------- wanted pieces

  function PieceEnd(pieceLength: nat, total: nat, piece: nat): (r: nat) {
    var end := piece * pieceLength + pieceLength;
    if total > 0 && total < end then total else end
  }

  predicate Overlaps(f: FileDetails, lo: nat, hi: nat) {
    f.length > 0 && f.offset < hi && f.offset + f.length > lo
  }

  /** The highest priority among the first n files that overlap [lo, hi). */
  function MaxOverlap(files: seq<FileDetails>, n: nat, lo: nat, hi: nat): (r: Option<FilePriority>)
    requires n <= |files|
    ensures r.None? <==> forall i :: 0 <= i < n ==> !Overlaps(files[i], lo, hi)
    ensures r == Some(Skip) ==> forall i :: 0 <= i < n && Overlaps(files[i], lo, hi) ==> files[i].priority.Skip?
    ensures r.Some? && r != Some(Skip) ==> exists i :: 0 <= i < n && Overlaps(files[i], lo, hi) && !files[i].priority.Skip?
  {
    if n == 0 then None
    else
      var before := MaxOverlap(files, n - 1, lo, hi);
      var f := files[n - 1];
      if !Overlaps(f, lo, hi) then before
      else match before
        case None => Some(f.priority)
        case Some(p) => Some(MaxPriority(p, f.priority))
  }

  /** It is the priority of some overlapping file, and no overlapping file has a higher one. */
  lemma {:induction false} MaxOverlapIsHighest(files: seq<FileDetails>, n: nat, lo: nat, hi: nat)
    requires n <= |files| && MaxOverlap(files, n, lo, hi).Some?
    ensures var p := MaxOverlap(files, n, lo, hi).value;
      && (exists i :: 0 <= i < n && Overlaps(files[i], lo, hi) && files[i].priority == p)
      && (forall i :: 0 <= i < n && Overlaps(files[i], lo, hi) ==> files[i].priority.Rank() <= p.Rank())
  {
    hide Overlaps;
    if MaxOverlap(files, n - 1, lo, hi).Some? {
      MaxOverlapIsHighest(files, n - 1, lo, hi);
    }
  }

  function PiecePriority(files: seq<FileDetails>, pieceLength: nat, total: nat, piece: nat): (r: FilePriority) {
    if files == [] || pieceLength == 0 then Normal
    else
      var lo, hi := piece * pieceLength, PieceEnd(pieceLength, total, piece);
      if hi <= lo then Normal
      else match MaxOverlap(files, |files|, lo, hi)
        case None => Normal
        case Some(p) => p
  }

  predicate Wanted(files: seq<FileDetails>, pieceLength: nat, total: nat, piece: nat) {
    PiecePriority(files, pieceLength, total, piece) != Skip
  }

  method GetPiecePriority(files: seq<FileDetails>, pieceLength: nat, total: nat, piece: nat) returns (r: FilePriority)
    ensures r == PiecePriority(files, pieceLength, total, piece)
  {
    if |files| == 0 || pieceLength == 0 {
      return Normal;
    }
    var pieceStart := piece * pieceLength;
    var pieceEnd := if total > 0
      then (if pieceStart + pieceLength < total then pieceStart + pieceLength else total)
      else pieceStart + pieceLength;
    if pieceEnd <= pieceStart {
      return Normal;
    }
    var best: Option<FilePriority> := None;
    for i := 0 to |files|
      invariant best == MaxOverlap(files, i, pieceStart, pieceEnd)
    {
      var f := files[i];
      if f.length > 0 && f.offset < pieceEnd && f.offset + f.length > pieceStart {
        best := match best
          case None => Some(f.priority)
          case Some(p) => Some(MaxPriority(p, f.priority));
      }
    }
    return if best.Some? then best.value else Normal;
  }

  /** Every overlapping file is skipped, and there is one. */
  ghost predicate OnlySkipped(files: seq<FileDetails>, lo: nat, hi: nat) {
    && (exists i :: 0 <= i < |files| && Overlaps(files[i], lo, hi))
    && (forall i :: 0 <= i < |files| && Overlaps(files[i], lo, hi) ==> files[i].priority.Skip?)
  }

  /** A piece is unwanted exactly if some file overlaps it and all that do are skipped. */
  lemma {:induction false} UnwantedExactly(files: seq<FileDetails>, pieceLength: nat, total: nat, piece: nat, lo: nat, hi: nat)
    requires lo == piece * pieceLength && hi == PieceEnd(pieceLength, total, piece)
    ensures !Wanted(files, pieceLength, total, piece) <==> pieceLength > 0 && lo < hi && OnlySkipped(files, lo, hi)
  {
  }

  /** Skipping a file never makes a piece wanted. */
  lemma {:induction false} SkippingOnlyShrinks(files: seq<FileDetails>, pieceLength: nat, total: nat, i: nat, piece: nat)
    requires i < |files|
    requires Wanted(files[i := files[i].(priority := Skip)], pieceLength, total, piece)
    ensures Wanted(files, pieceLength, total, piece)
  {
    hide Wanted;
    var skipped := files[i := files[i].(priority := Skip)];
    var lo, hi := piece * pieceLength, PieceEnd(pieceLength, total, piece);
    UnwantedExactly(files, pieceLength, total, piece, lo, hi);
    UnwantedExactly(skipped, pieceLength, total, piece, lo, hi);
    assert forall k :: 0 <= k < |files| ==> Overlaps(skipped[k], lo, hi) == Overlaps(files[k], lo, hi);
  }

  // ---------------------------------------------------------------- applying a selection

  function SelectedPriority(selected: bool, p: FilePriority): FilePriority {
    if !selected then Skip else if p.Skip? then Normal else p
  }

  /** The files after a selection: unselected ones skipped, selected ones no longer skipped. */
  function Apply(files: seq<FileDetails>, selected: seq<nat>, n: nat): (r: seq<FileDetails>)
    requires n <= |files|
    ensures |r| == n
    ensures forall i :: 0 <= i < n ==> r[i] == files[i].(priority := SelectedPriority(i in selected, files[i].priority))
  {
    if n == 0 then []
    else
      Apply(files, selected, n - 1)
        + [files[n - 1].(priority := SelectedPriority(n - 1 in selected, files[n - 1].priority))]
  }

  method SelectFiles(files: seq<FileDetails>, selected: seq<nat>) returns (r: seq<FileDetails>)
    ensures r == Apply(files, selected, |files|)
  {
    r := files;
    for i := 0 to |files|
      invariant |r| == |files|
      invariant r[..i] == Apply(files, selected, i) && r[i..] == files[i..]
    {
      assert r[i] == r[i..][0] == files[i];
      var f := r[i];
      ghost var before := r;
      if i in selected {
        if f.priority == Skip {
          r := r[i := f.(priority := Normal)];
        }
      } else {
        r := r[i := f.(priority := Skip)];
      }
      assert r[..i + 1] == before[..i] + [r[i]];
      assert r[i + 1..] == before[i..][1..] == files[i + 1..];
    }
    assert r[..|files|] == r;
  }

  // ---------------------------------------------------------------- selection report

  /** The inclusive piece range of a file, as the report computes it. */
  function PieceRange(f: FileDetails, pieceLength: nat): (r: (nat, nat)) {
    var start := if pieceLength == 0 then 0 else (f.offset / pieceLength) % U32_SIZE;
    var end := if f.length == 0 || pieceLength == 0 then start else ((f.offset + f.length - 1) / pieceLength) % U32_SIZE;
    (start, end)
  }

  datatype Evaluation = Evaluation(selected: seq<nat>, unselected: seq<nat>, selectedBytes: nat, overlapping: set<nat>)

  predicate IsSelected(selectOnly: seq<nat>, i: nat) {
    selectOnly == [] || i in selectOnly
  }

  /** The indices below n that are selected (or, with want false, not selected), in order. */
  function Picked(selectOnly: seq<nat>, want: bool, n: nat): (r: seq<nat>)
    ensures forall i: nat :: i in r <==> i < n && IsSelected(selectOnly, i) == want
  {
    if n == 0 then []
    else if IsSelected(selectOnly, n - 1) == want then Picked(selectOnly, want, n - 1) + [n - 1]
    else Picked(selectOnly, want, n - 1)
  }

  function PickedBytes(files: seq<FileDetails>, selectOnly: seq<nat>, want: bool, n: nat): (r: nat)
    requires n <= |files|
  {
    if n == 0 then 0
    else PickedBytes(files, selectOnly, want, n - 1)
           + (if IsSelected(selectOnly, n - 1) == want then files[n - 1].length else 0)
  }

  /** Selected and unselected bytes add up to the torrent. */
  lemma {:induction false} BytesConserved(files: seq<FileDetails>, selectOnly: seq<nat>, n: nat)
    requires n <= |files|
    ensures PickedBytes(files, selectOnly, true, n) + PickedBytes(files, selectOnly, false, n) == TotalLength(files, n)
  {
    if n > 0 {
      BytesConserved(files, selectOnly, n - 1);
    }
  }

  /** The report over a file list: who is selected, how many bytes, which pieces. */
  method Evaluate(files: seq<FileDetails>, pieceLength: nat, selectOnly: seq<nat>) returns (e: Evaluation)
    ensures e.selected == Picked(selectOnly, true, |files|) && e.unselected == Picked(selectOnly, false, |files|)
    ensures e.selectedBytes == PickedBytes(files, selectOnly, true, |files|)
    ensures forall p: nat :: p in e.overlapping <==> Listed(files, pieceLength, selectOnly, p)
  {
    var selected: seq<nat>, unselected: seq<nat> := [], [];
    var bytes := 0;
    var overlapping: set<nat> := {};
    for i := 0 to |files|
      invariant selected == Picked(selectOnly, true, i) && unselected == Picked(selectOnly, false, i)
      invariant bytes == PickedBytes(files, selectOnly, true, i)
      invariant forall p: nat :: p in overlapping <==> ListedBelow(files, pieceLength, selectOnly, p, i)
    {
      if |selectOnly| == 0 || i in selectOnly {
        selected := selected + [i];
        bytes := bytes + files[i].length;
        var (start, end) := PieceRange(files[i], pieceLength);
        overlapping := InsertRange(overlapping, start, end);
      } else {
        unselected := unselected + [i];
      }
    }
    e := Evaluation(selected, unselected, bytes, overlapping);
  }

  method InsertRange(pieces: set<nat>, start: nat, end: nat) returns (r: set<nat>)
    ensures forall p: nat :: p in r <==> p in pieces || start <= p <= end
  {
    r := pieces;
    var p := start;
    while p <= end
      invariant start <= p
      invariant forall q: nat :: q in r <==> q in pieces || (start <= q < p && q <= end)
    {
      r := r + {p};
      p := p + 1;
    }
  }

  function TotalLength(files: seq<FileDetails>, n: nat): nat
    requires n <= |files|
  {
    if n == 0 then 0 else TotalLength(files, n - 1) + files[n - 1].length
  }

  ghost predicate InRange(f: FileDetails, pieceLength: nat, p: nat) {
    PieceRange(f, pieceLength).0 <= p <= PieceRange(f, pieceLength).1
  }

  ghost predicate ListedBelow(files: seq<FileDetails>, pieceLength: nat, selectOnly: seq<nat>, p: nat, n: nat)
    requires n <= |files|
  {
    exists i :: 0 <= i < n && IsSelected(selectOnly, i) && InRange(files[i], pieceLength, p)
  }

  /** The report lists piece p. */
  ghost predicate Listed(files: seq<FileDetails>, pieceLength: nat, selectOnly: seq<nat>, p: nat) {
    ListedBelow(files, pieceLength, selectOnly, p, |files|)
  }

  // ---------------------------------------------------------------- equivalence

  /** The files lie end to end from offset 0. */
  ghost predicate Tiling(files: seq<FileDetails>) {
    forall i :: 0 <= i < |files| ==> files[i].offset == TotalLength(files, i)
  }

  /** Files end to end, with fewer pieces than a 32-bit index can count. */
  ghost predicate Torrent(files: seq<FileDetails>, pieceLength: nat, total: nat) {
    && Tiling(files)
    && total == TotalLength(files, |files|)
    && pieceLength > 0
    && total <= pieceLength * U32_SIZE
  }

  /** Division and interval overlap say the same of a non-empty file. */
  lemma {:induction false} RangeIsOverlap(f: FileDetails, pieceLength: nat, total: nat, p: nat)
    requires pieceLength > 0 && f.length > 0 && f.offset + f.length <= total
    requires total <= pieceLength * U32_SIZE
    ensures InRange(f, pieceLength, p) <==> Overlaps(f, p * pieceLength, PieceEnd(pieceLength, total, p))
  {
    var last := f.offset + f.length - 1;
    QuotientBelow(f.offset, pieceLength, U32_SIZE);
    QuotientBelow(last, pieceLength, U32_SIZE);
    QuotientAtMost(f.offset, pieceLength, p);
    QuotientAtLeast(last, pieceLength, p);
  }

  lemma {:induction false} QuotientAtMost(x: nat, d: nat, p: nat)
    requires d > 0
    ensures x / d <= p <==> x < p * d + d
  {
    assert x == d * (x / d) + x % d;
    MulGap(d, p, x / d);
    MulMonotoneIf(d, x / d, p);
  }

  lemma {:induction false} QuotientAtLeast(x: nat, d: nat, p: nat)
    requires d > 0
    ensures p <= x / d <==> p * d <= x
  {
    assert x == d * (x / d) + x % d;
    MulMonotoneIf(d, p, x / d);
    MulGap(d, x / d, p);
  }

  lemma {:induction false} TilingAt(files: seq<FileDetails>, i: nat)
    requires Tiling(files) && i < |files|
    ensures files[i].offset == TotalLength(files, i)
  {
  }

  /** In a tiling every byte lies in some non-empty file. */
  lemma {:induction false} TilingCovers(files: seq<FileDetails>, n: nat, x: nat) returns (i: nat)
    requires Tiling(files) && n <= |files| && x < TotalLength(files, n)
    ensures i < n && files[i].offset <= x < files[i].offset + files[i].length
    decreases n
  {
    hide Tiling;
    TilingAt(files, n - 1);
    if x < TotalLength(files, n - 1) {
      i := TilingCovers(files, n - 1, x);
    } else {
      i := n - 1;
    }
  }

  lemma {:induction false} TilingBounds(files: seq<FileDetails>, i: nat, n: nat)
    requires i < n <= |files|
    ensures TotalLength(files, i) + files[i].length <= TotalLength(files, n)
    decreases n
  {
    if i < n - 1 {
      TilingBounds(files, i, n - 1);
    }
  }

  lemma {:induction false} TilingOverlap(files: seq<FileDetails>, selected: seq<nat>, lo: nat, hi: nat) returns (c: nat)
    requires Tiling(files) && lo < TotalLength(files, |files|) && lo < hi
    ensures c < |files| && Overlaps(Apply(files, selected, |files|)[c], lo, hi)
  {
    c := TilingCovers(files, |files|, lo);
  }

  /** What applying a selection does to the overlap test. */
  lemma {:induction false} OverlapAfterSelection(files: seq<FileDetails>, pieceLength: nat, total: nat, selected: seq<nat>,
                                                 p: nat, lo: nat, hi: nat, i: nat)
    requires Torrent(files, pieceLength, total)
    requires lo == p * pieceLength && hi == PieceEnd(pieceLength, total, p) && i < |files|
    ensures Overlaps(Apply(files, selected, |files|)[i], lo, hi)
       <==> files[i].length > 0 && InRange(files[i], pieceLength, p)
  {
    hide InRange;
    TilingBounds(files, i, |files|);
    if files[i].length > 0 {
      RangeIsOverlap(files[i], pieceLength, total, p);
    }
  }

  /** A selected non-empty file's piece range contains p. */
  ghost predicate Needed(files: seq<FileDetails>, pieceLength: nat, selected: seq<nat>, p: nat) {
    exists i :: 0 <= i < |files| && i in selected && files[i].length > 0 && InRange(files[i], pieceLength, p)
  }

  /**
    After applying a selection to any tiling, a piece of the torrent is wanted
    exactly if a selected non-empty file's piece range contains it.
   */
  lemma {:induction false} WantedAfterSelection(files: seq<FileDetails>, pieceLength: nat, total: nat, selected: seq<nat>, p: nat)
    requires Torrent(files, pieceLength, total)
    requires p * pieceLength < total
    ensures Wanted(Apply(files, selected, |files|), pieceLength, total, p) <==> Needed(files, pieceLength, selected, p)
  {
    var lo, hi := p * pieceLength, PieceEnd(pieceLength, total, p);
    PieceNonEmpty(pieceLength, total, p);
    var c := TilingOverlap(files, selected, lo, hi);
    hide Torrent, Needed, Wanted, OnlySkipped, Apply, PieceEnd;
    UnwantedExactly(Apply(files, selected, |files|), pieceLength, total, p, lo, hi);
    SkippedAfterSelection(files, pieceLength, total, selected, p, lo, hi, c);
  }

  lemma {:induction false} PieceNonEmpty(pieceLength: nat, total: nat, p: nat)
    requires pieceLength > 0 && p * pieceLength < total
    ensures p * pieceLength < PieceEnd(pieceLength, total, p)
  {
  }

  lemma {:induction false} SkippedAfterSelection(files: seq<FileDetails>, pieceLength: nat, total: nat, selected: seq<nat>,
                                                 p: nat, lo: nat, hi: nat, c: nat)
    requires Torrent(files, pieceLength, total)
    requires lo == p * pieceLength && hi == PieceEnd(pieceLength, total, p)
    requires c < |files| && Overlaps(Apply(files, selected, |files|)[c], lo, hi)
    ensures OnlySkipped(Apply(files, selected, |files|), lo, hi) <==> !Needed(files, pieceLength, selected, p)
  {
    hide InRange, Apply, TotalLength, Overlaps, PieceEnd, Tiling;
    var after := Apply(files, selected, |files|);
    forall i | 0 <= i < |files|
      ensures Overlaps(after[i], lo, hi) <==> files[i].length > 0 && InRange(files[i], pieceLength, p)
    {
      OverlapAfterSelection(files, pieceLength, total, selected, p, lo, hi, i);
    }
  }

  /** With no empty file selected, the report and the scheduler name the same pieces. */
  lemma {:induction false} SelectionEquivalence(files: seq<FileDetails>, pieceLength: nat, total: nat, selected: seq<nat>, p: nat)
    requires Torrent(files, pieceLength, total)
    requires selected != [] && p * pieceLength < total
    requires forall i :: 0 <= i < |files| && i in selected ==> files[i].length > 0
    ensures Listed(files, pieceLength, selected, p) <==> Wanted(Apply(files, selected, |files|), pieceLength, total, p)
  {
    hide Wanted, InRange, Apply;
    WantedAfterSelection(files, pieceLength, total, selected, p);
  }

  /** The start piece of every selected empty file is wanted anyway. */
  ghost predicate EmptyFilesHarmless(files: seq<FileDetails>, pieceLength: nat, total: nat, selected: seq<nat>) {
    forall i :: 0 <= i < |files| && i in selected && files[i].length == 0 ==>
      var start := PieceRange(files[i], pieceLength).0;
      start * pieceLength < total ==> Needed(files, pieceLength, selected, start)
  }

  /**
    For tilings with empty files too: report and scheduler agree on every piece
    exactly if every selected empty file starts in a piece that is needed anyway.
   */
  lemma {:induction false} SelectionEquivalenceExactly(files: seq<FileDetails>, pieceLength: nat, total: nat, selected: seq<nat>)
    requires Torrent(files, pieceLength, total)
    requires selected != []
    ensures EmptyFilesHarmless(files, pieceLength, total, selected) <==>
      forall p: nat :: p * pieceLength < total ==>
        (Listed(files, pieceLength, selected, p) <==> Wanted(Apply(files, selected, |files|), pieceLength, total, p))
  {
    hide Wanted, Apply, PieceRange, Listed, TotalLength, Tiling, Needed;
    forall p: nat | p * pieceLength < total
      ensures Wanted(Apply(files, selected, |files|), pieceLength, total, p) <==> Needed(files, pieceLength, selected, p)
      ensures Listed(files, pieceLength, selected, p)
         <==> Needed(files, pieceLength, selected, p) || StartsEmptyFile(files, pieceLength, selected, p)
    {
      WantedAfterSelection(files, pieceLength, total, selected, p);
      ListedExactly(files, pieceLength, selected, p);
    }
    assert forall i :: 0 <= i < |files| && i in selected && files[i].length == 0 ==>
                         StartsEmptyFile(files, pieceLength, selected, PieceRange(files[i], pieceLength).0);
  }

  ghost predicate StartsEmptyFile(files: seq<FileDetails>, pieceLength: nat, selected: seq<nat>, p: nat) {
    exists i :: 0 <= i < |files| && i in selected && files[i].length == 0 && PieceRange(files[i], pieceLength).0 == p
  }

  /** The report lists the needed pieces and the start pieces of selected empty files. */
  lemma {:induction false} ListedExactly(files: seq<FileDetails>, pieceLength: nat, selected: seq<nat>, p: nat)
    requires selected != []
    ensures Listed(files, pieceLength, selected, p)
       <==> Needed(files, pieceLength, selected, p) || StartsEmptyFile(files, pieceLength, selected, p)
  {
    hide PieceRange, InRange;
    forall i | 0 <= i < |files| && files[i].length == 0
      ensures InRange(files[i], pieceLength, p) <==> p == PieceRange(files[i], pieceLength).0
    {
      EmptyRange(files[i], pieceLength, p);
    }
  }

  lemma {:induction false} EmptyRange(f: FileDetails, pieceLength: nat, p: nat)
    requires f.length == 0
    ensures InRange(f, pieceLength, p) <==> p == PieceRange(f, pieceLength).0
  {
  }
}
