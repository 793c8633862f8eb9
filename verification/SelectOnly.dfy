/** The BEP 53 file selection of `library/src/core/magnet.rs`: parsing and printing index ranges. */
module SelectOnly {
  import opened Wrappers
  import opened Decimal
  import opened Sorting
  import opened Splitting

  /** White space among the characters a decoded value can contain. */
  predicate IsSpace(c: char) {
    '\t' <= c <= '\r' || c == ' ' || c as int == 0x85 || c as int == 0xA0
  }

  function TrimStart(s: string): string {
    if s != "" && IsSpace(s[0]) then TrimStart(s[1..]) else s
  }

  function TrimEnd(s: string): string {
    if s != "" && IsSpace(s[|s| - 1]) then TrimEnd(s[..|s| - 1]) else s
  }

  function Trim(s: string): string {
    TrimEnd(TrimStart(s))
  }

  // ---------------------------------------------------------------- parsing a selection

  /** The inclusive range a part names, if it names one. */
  function PartRange(text: string): Option<(nat, nat)> {
    var part := Trim(text);
    var dash := IndexOf(part, '-');
    if dash.None? then
      var n := ParseUnsigned(part, U64_SIZE);
      if n.None? then None else Some((n.value, n.value))
    else
      var first := ParseUnsigned(Trim(part[..dash.value]), U64_SIZE);
      var last := ParseUnsigned(Trim(part[dash.value + 1..]), U64_SIZE);
      if first.None? || last.None? || first.value > last.value then None else Some((first.value, last.value))
  }

  /** Appends the n indices from a on that are not there yet. */
  function Pushed(out: seq<nat>, a: nat, n: nat): seq<nat> {
    if n == 0 then out
    else
      var o := Pushed(out, a, n - 1);
      if a + n - 1 in o then o else o + [a + n - 1]
  }

  function PushPart(out: seq<nat>, text: string): seq<nat> {
    match PartRange(text)
    case None => out
    case Some((a, b)) => if a <= b then Pushed(out, a, b - a + 1) else out
  }

  function PushParts(out: seq<nat>, parts: seq<string>): seq<nat>
    decreases |parts|
  {
    if parts == [] then out else PushParts(PushPart(out, parts[0]), parts[1..])
  }

  /** `parse_bep53_select_only`. */
  function Selected(s: string, out: seq<nat>): seq<nat> {
    Sort(PushParts(out, Split(s, ',')))
  }

  /** Some part names the index. */
  ghost predicate Named(parts: seq<string>, x: nat) {
    exists i :: 0 <= i < |parts| && InPart(parts[i], x)
  }

  ghost predicate InPart(text: string, x: nat) {
    PartRange(text).Some? && PartRange(text).value.0 <= x <= PartRange(text).value.1
  }

  lemma {:induction false} PushedExactly(out: seq<nat>, a: nat, n: nat)
    requires Distinct(out)
    ensures Distinct(Pushed(out, a, n)) && forall x :: x in Pushed(out, a, n) <==> x in out || a <= x < a + n
  {
    if n > 0 {
      PushedExactly(out, a, n - 1);
    }
  }

  lemma {:induction false} PushPartsExactly(out: seq<nat>, parts: seq<string>)
    requires Distinct(out)
    ensures Distinct(PushParts(out, parts)) && forall x :: x in PushParts(out, parts) <==> x in out || Named(parts, x)
    decreases |parts|
  {
    hide PartRange;
    if parts != [] {
      var r := PartRange(parts[0]);
      if r.Some? && r.value.0 <= r.value.1 {
        PushedExactly(out, r.value.0, r.value.1 - r.value.0 + 1);
      }
      PushPartsExactly(PushPart(out, parts[0]), parts[1..]);
      assert forall x: nat :: (Named(parts, x) <==> InPart(parts[0], x) || Named(parts[1..], x));
    }
  }

  /** A parsed selection is increasing and holds exactly the old indices and those named. */
  lemma {:induction false} SelectedExactly(s: string, out: seq<nat>)
    requires Distinct(out)
    ensures Increasing(Selected(s, out))
    ensures forall x :: x in Selected(s, out) <==> x in out || Named(Split(s, ','), x)
  {
    hide Sort, PushParts, Named, Split;
    PushPartsExactly(out, Split(s, ','));
    SortDistinct(PushParts(out, Split(s, ',')));
  }

  // ---------------------------------------------------------------- printing a selection

  /** How many elements the leading run of consecutive indices has. */
  function RunLength(s: seq<nat>): (n: nat)
    requires s != []
    ensures 0 < n <= |s| && s[n - 1] == s[0] + n - 1
    ensures forall i :: 0 <= i < n ==> s[i] == s[0] + i
  {
    if |s| < 2 || s[1] != s[0] + 1 then 1
    else
      var n := RunLength(s[1..]);
      assert forall i :: 0 < i < n + 1 ==> s[i] == s[1..][i - 1];
      1 + n
  }

  function RunText(a: nat, b: nat): string {
    if a == b then Dec(a) else Dec(a) + "-" + Dec(b)
  }

  function Runs(s: seq<nat>): seq<string>
    decreases |s|
  {
    if s == [] then [] else [RunText(s[0], s[RunLength(s) - 1])] + Runs(s[RunLength(s)..])
  }

  /** `format_bep53_select_only`. */
  function Formatted(indices: seq<nat>): string {
    Join(Runs(SortedSet(indices)), ',')
  }

  predicate Plain(s: string) {
    forall i :: 0 <= i < |s| ==> IsDigit(s[i]) || s[i] == '-'
  }

  lemma {:induction false} TrimPlain(s: string)
    requires Plain(s)
    ensures Trim(s) == s
  {
  }

  lemma {:induction false} RunTextPlain(a: nat, b: nat)
    ensures Plain(RunText(a, b)) && RunText(a, b) != ""
  {
    hide Dec;
    DecShape(a);
    DecShape(b);
  }

  /** The text of a run names that run. */
  lemma {:induction false} RunReadsBack(a: nat, b: nat)
    requires a <= b < U64_SIZE
    ensures PartRange(RunText(a, b)) == Some((a, b))
  {
    hide Dec, ParseUnsigned, Trim, Plain;
    RunTextPlain(a, b);
    RunTextPlain(a, a);
    RunTextPlain(b, b);
    TrimPlain(RunText(a, b));
    TrimPlain(Dec(a));
    TrimPlain(Dec(b));
    ParsePrinted(a, U64_SIZE);
    ParsePrinted(b, U64_SIZE);
    NoDash(a);
    if a != b {
      IndexOfFirst(Dec(a), Dec(b), '-');
      var t := RunText(a, b);
      assert t[..|Dec(a)|] == Dec(a) && t[|Dec(a)| + 1..] == Dec(b);
    }
  }

  lemma {:induction false} NoDash(n: nat)
    ensures '-' !in Dec(n) && ',' !in Dec(n)
  {
    DecShape(n);
  }

  lemma {:induction false} PushRun(out: seq<nat>, s: seq<nat>, n: nat)
    requires Increasing(s) && n <= |s| && (forall i :: 0 <= i < n ==> s[i] == s[0] + i)
    requires forall x, i :: x in out && 0 <= i < |s| ==> x < s[i]
    ensures n > 0 ==> Pushed(out, s[0], n) == out + s[..n]
  {
    if n > 0 {
      if n == 1 {
        assert Pushed(out, s[0], 0) == out + s[..0];
      } else {
        PushRun(out, s, n - 1);
      }
      assert s[..n] == s[..n - 1] + [s[n - 1]];
      assert s[n - 1] !in out + s[..n - 1];
      assert out + s[..n - 1] + [s[n - 1]] == out + s[..n];
    }
  }

  /** Increasing 64-bit indices, all greater than what is already there. */
  ghost predicate Ahead(out: seq<nat>, s: seq<nat>) {
    && Increasing(s) && (forall i :: 0 <= i < |s| ==> s[i] < U64_SIZE)
    && (forall x, i :: x in out && 0 <= i < |s| ==> x < s[i])
  }

  lemma {:induction false} AheadLater(out: seq<nat>, s: seq<nat>, n: nat)
    requires Ahead(out, s) && n <= |s|
    ensures Ahead(out + s[..n], s[n..])
  {
  }

  /** The first run of a selection is parsed whole. */
  lemma {:induction false} FirstRun(out: seq<nat>, s: seq<nat>)
    requires Ahead(out, s) && s != []
    ensures PushPart(out, Runs(s)[0]) == out + s[..RunLength(s)]
  {
    hide PartRange, Pushed, RunText;
    var n := RunLength(s);
    RunReadsBack(s[0], s[n - 1]);
    PushRun(out, s, n);
    assert Runs(s)[0] == RunText(s[0], s[n - 1]);
  }

  lemma {:induction false} NoRuns(s: seq<nat>)
    ensures s == [] ==> Runs(s) == []
  {
  }

  lemma {:induction false} LaterRuns(s: seq<nat>)
    requires s != []
    ensures Runs(s) != [] && Runs(s)[1..] == Runs(s[RunLength(s)..])
  {
    hide RunText;
  }

  lemma {:induction false} RunsReadBack(out: seq<nat>, s: seq<nat>)
    requires Ahead(out, s)
    ensures PushParts(out, Runs(s)) == out + s
    decreases |s|
  {
    hide PushPart, Runs, RunLength, Ahead;
    if s == [] {
      NoRuns(s);
      assert out + s == out;
    } else {
      var n := RunLength(s);
      FirstRun(out, s);
      AheadLater(out, s, n);
      RunsReadBack(out + s[..n], s[n..]);
      LaterRuns(s);
      assert out + s[..n] + s[n..] == out + s;
    }
  }

  lemma {:induction false} RunsWithoutComma(s: seq<nat>)
    ensures forall i :: 0 <= i < |Runs(s)| ==> ',' !in Runs(s)[i] && Plain(Runs(s)[i]) && Runs(s)[i] != ""
    ensures s != [] ==> Runs(s) != []
    decreases |s|
  {
    hide RunText, Plain;
    if s != [] {
      var n := RunLength(s);
      RunsWithoutComma(s[n..]);
      RunTextPlain(s[0], s[n - 1]);
      PlainHasNoComma(RunText(s[0], s[n - 1]));
    }
  }

  lemma {:induction false} PlainHasNoComma(s: string)
    requires Plain(s)
    ensures ',' !in s
  {
  }

  lemma {:induction false} IncreasingReadsBack(s: seq<nat>)
    requires Increasing(s) && s != [] && forall i :: 0 <= i < |s| ==> s[i] < U64_SIZE
    ensures Join(Runs(s), ',') != "" && Selected(Join(Runs(s), ','), []) == s
  {
    hide PushParts, Split, Join, Sort, Plain;
    RunsWithoutComma(s);
    SplitJoin(Runs(s), ',');
    JoinNonEmpty(Runs(s), ',');
    RunsReadBack([], s);
    assert [] + s == s;
    SortedStays(s);
  }

  /** Round trip: parsing a printed selection gives its sorted, repetition-free form. */
  lemma {:induction false} SelectRoundTrip(indices: seq<nat>)
    requires forall i :: 0 <= i < |indices| ==> indices[i] < U64_SIZE
    ensures indices != [] ==> Formatted(indices) != "" && Selected(Formatted(indices), []) == SortedSet(indices)
    ensures Selected(Formatted(indices), []) == indices <==> Increasing(indices)
  {
    hide Selected, SortedSet;
    var s := SortedSet(indices);
    SortedSetExactly(indices);
    if indices != [] {
      assert indices[0] in s;
      assert forall i :: 0 <= i < |s| ==> s[i] in indices;
      IncreasingReadsBack(s);
    } else {
      NothingSelected(indices);
    }
  }

  lemma {:induction false} NothingSelected(indices: seq<nat>)
    ensures indices == [] ==> Selected(Formatted(indices), []) == []
  {
    assert Split("", ',') == [""] && [""][1..] == [];
    assert Trim("") == "";
    assert indices == [] ==> PartRange("") == None;
  }

  lemma {:induction false} JoinNonEmpty(parts: seq<string>, c: char)
    requires parts != [] && parts[0] != ""
    ensures Join(parts, c) != ""
  {
  }

  // ---------------------------------------------------------------- the program

  method PushRange(out: seq<nat>, first: nat, last: nat) returns (r: seq<nat>)
    requires first <= last
    ensures r == Pushed(out, first, last - first + 1)
  {
    r := out;
    for i := first to last + 1
      invariant r == Pushed(out, first, i - first)
    {
      if i !in r {
        r := r + [i];
      }
    }
  }

  method ParseSelectOnly(s: string, out: seq<nat>) returns (r: seq<nat>)
    ensures r == Selected(s, out)
  {
    hide PartRange, Pushed, Split, Sort;
    var parts := Split(s, ',');
    r := out;
    while parts != []
      invariant PushParts(r, parts) == PushParts(out, Split(s, ','))
    {
      var range := PartRange(parts[0]);
      if range.Some? && range.value.0 <= range.value.1 {
        r := PushRange(r, range.value.0, range.value.1);
      }
      parts := parts[1..];
    }
    r := Sort(r);
  }

  method FormatSelectOnly(indices: seq<nat>) returns (r: string)
    ensures r == if indices == [] then "" else Formatted(indices)
  {
    hide SortedSet, Runs, RunText, Join;
    if indices == [] {
      return "";
    }
    var parts := CompressRuns(SortedSet(indices));
    r := Join(parts, ',');
  }

  method CompressRuns(sorted: seq<nat>) returns (parts: seq<string>)
    ensures parts == Runs(sorted)
  {
    hide Runs, RunLength, RunText;
    parts := [];
    var rest := sorted;
    while rest != []
      invariant parts + Runs(rest) == Runs(sorted)
      decreases |rest|
    {
      RunStep(parts, rest);
      var n := CountRun(rest);
      parts := parts + [RunText(rest[0], rest[n - 1])];
      rest := rest[n..];
    }
    NoRuns(rest);
  }

  lemma {:induction false} RunStep(parts: seq<string>, s: seq<nat>)
    requires s != []
    ensures parts + Runs(s) == parts + [RunText(s[0], s[RunLength(s) - 1])] + Runs(s[RunLength(s)..])
  {
    hide RunText;
    var first, rest := RunText(s[0], s[RunLength(s) - 1]), Runs(s[RunLength(s)..]);
    assert parts + ([first] + rest) == parts + [first] + rest;
  }

  /** The inner loop: how far the leading run reaches. */
  method CountRun(sorted: seq<nat>) returns (n: nat)
    requires sorted != []
    ensures n == RunLength(sorted)
  {
    var i := 0;
    while i + 1 < |sorted| && sorted[i + 1] == sorted[i] + 1
      invariant 0 <= i < |sorted|
      invariant RunLength(sorted) == i + RunLength(sorted[i..])
    {
      assert sorted[i..][1..] == sorted[i + 1..];
      i := i + 1;
    }
    assert |sorted[i..]| < 2 || sorted[i..][1] != sorted[i..][0] + 1;
    n := i + 1;
  }
}
