/** Sizes of sets and maps, and results that continue a sequence. */
module Collections {
  import opened Wrappers

  lemma {:induction false} SubsetSize<T>(a: set<T>, b: set<T>)
    requires a <= b
    ensures |a| <= |b| && (|a| == |b| ==> a == b)
    decreases |a|
  {
    if a != {} {
      var x :| x in a;
      SubsetSize(a - {x}, b - {x});
      assert a == (a - {x}) + {x} && b == (b - {x}) + {x};
    }
  }

  /** A sequence followed by what a possibly failing continuation yields. */
  ghost function After<T>(out: seq<T>, rest: Option<seq<T>>): (r: Option<seq<T>>)
    ensures rest == Some([]) ==> r == Some(out)
    ensures out == [] ==> r == rest
  {
    match rest
    case None => None
    case Some(more) =>
      assert out + [] == out && [] + more == more;
      Some(out + more)
  }

  lemma {:induction false} AfterOne<T>(out: seq<T>, x: T, rest: Option<seq<T>>)
    ensures After(out, After([x], rest)) == After(out + [x], rest)
  {
    if rest.Some? {
      assert out + ([x] + rest.value) == out + [x] + rest.value;
    }
  }
}
