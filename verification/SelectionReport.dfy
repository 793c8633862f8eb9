/**
  The whole report of `evaluate_bep53_selection` in
  `library/src/network/metadata_fetcher.rs`.  Percentages are real numbers: rounding
  is not modelled.
 */
module SelectionReports {
  import opened FileSelection
  import Sorting

  datatype Report = Report(
    indices: seq<nat>,
    evaluation: Evaluation,
    totalBytes: nat,
    byteSavings: real,
    pieceCount: nat,
    totalPieces: nat,
    pieceSavings: real)

  /** The share saved, in percent and never negative. */
  function Savings(part: nat, whole: nat): real {
    if whole == 0 then 0.0
    else
      var percent := (1.0 - part as real / whole as real) * 100.0;
      if percent < 0.0 then 0.0 else percent
  }

  /** What is saved is the share of the rest; a part above the whole saves nothing. */
  lemma {:induction false} SavingsExactly(part: nat, whole: nat)
    ensures part <= whole ==> Savings(part, whole) * whole as real == 100.0 * (whole - part) as real
    ensures part >= whole <==> Savings(part, whole) == 0.0
    ensures 0.0 <= Savings(part, whole) <= 100.0
  {
    if whole > 0 {
      RatioOrder(part as real, whole as real);
      RestOfRatio(part as real, whole as real, part as real / whole as real);
    }
  }

  lemma {:induction false} RatioOrder(p: real, w: real)
    requires p >= 0.0 && w > 0.0
    ensures p / w >= 0.0 && (p / w) * w == p
    ensures (p <= w <==> p / w <= 1.0) && (p >= w <==> p / w >= 1.0)
  {
  }

  lemma {:induction false} RestOfRatio(p: real, w: real, ratio: real)
    requires ratio * w == p
    ensures ((1.0 - ratio) * 100.0) * w == 100.0 * (w - p)
  {
    assert (1.0 - ratio) * w == w - p;
    assert ((1.0 - ratio) * 100.0) * w == 100.0 * ((1.0 - ratio) * w);
  }

  function Indices(n: nat): (r: seq<nat>)
    ensures forall i: nat :: i in r <==> i < n
  {
    if n == 0 then [] else Indices(n - 1) + [n - 1]
  }

  /**
    The report: increasing indices, exactly the selected files and pieces, and the
    savings as the share of what is left out of the manifest's totals; with the
    true total that is the share of the unselected bytes.
   */
  method EvaluateSelection(files: seq<FileDetails>, pieceLength: nat, totalBytes: nat, totalPieces: nat, selectOnly: seq<nat>) returns (r: Report)
    ensures Sorting.Increasing(r.indices) && forall i: nat :: i in r.indices <==> if selectOnly == [] then i < |files| else i in selectOnly
    ensures r.evaluation.selected == Picked(selectOnly, true, |files|) && r.evaluation.unselected == Picked(selectOnly, false, |files|)
    ensures r.evaluation.selectedBytes == PickedBytes(files, selectOnly, true, |files|)
    ensures forall p: nat :: p in r.evaluation.overlapping <==> Listed(files, pieceLength, selectOnly, p)
    ensures r.totalBytes == totalBytes && 0.0 <= r.byteSavings <= 100.0
    ensures r.evaluation.selectedBytes <= totalBytes ==> r.byteSavings * totalBytes as real == 100.0 * (totalBytes - r.evaluation.selectedBytes) as real
    ensures r.evaluation.selectedBytes >= totalBytes ==> r.byteSavings == 0.0
    ensures totalBytes == TotalLength(files, |files|) ==>
      r.byteSavings * totalBytes as real == 100.0 * PickedBytes(files, selectOnly, false, |files|) as real
    ensures r.pieceCount == |r.evaluation.overlapping| && r.totalPieces == totalPieces && 0.0 <= r.pieceSavings <= 100.0
    ensures r.pieceCount <= totalPieces ==> r.pieceSavings * totalPieces as real == 100.0 * (totalPieces - r.pieceCount) as real
    ensures r.pieceCount >= totalPieces ==> r.pieceSavings == 0.0
  {
    hide Savings, Indices, Sorting.Increasing, Sorting.SortedSet, Picked, PickedBytes, Listed, TotalLength;
    var e := Evaluate(files, pieceLength, selectOnly);
    var named := if selectOnly == [] then Indices(|files|) else selectOnly;
    Sorting.SortedSetExactly(named);
    BytesConserved(files, selectOnly, |files|);
    SavingsExactly(e.selectedBytes, totalBytes);
    SavingsExactly(|e.overlapping|, totalPieces);
    r := Report(Sorting.SortedSet(named), e, totalBytes, Savings(e.selectedBytes, totalBytes), |e.overlapping|, totalPieces,
                Savings(|e.overlapping|, totalPieces));
  }
}
