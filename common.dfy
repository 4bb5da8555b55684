/** Small value types shared by the whole model: optional values, partial-update
    fields, and the sums and means the aggregations are built from. */
module Common {

  /** A value that may be absent (Python's None, JavaScript's null). */
  datatype Option<+T> = None | Some(value: T)

  /** One field of a partial-update payload: left out of the request (Keep) or
      sent explicitly, possibly as null (Put). */
  datatype Patch<+T> = Keep | Put(value: T)

  /** The field value after applying a patch. */
  function Apply<T>(p: Patch<T>, current: T): T
  {
    match p
    case Keep => current
    case Put(v) => v
  }

  /** Left-to-right sum, as Python's sum(). */
  function Sum(xs: seq<real>): real
  {
    if xs == [] then 0.0 else Sum(xs[..|xs| - 1]) + xs[|xs| - 1]
  }

  /** The arithmetic mean, absent for an empty list (the code's `if values else None`). */
  function Mean(xs: seq<real>): (r: Option<real>)
    ensures r.None? <==> xs == []
    ensures r.Some? ==> r.value * (|xs| as real) == Sum(xs)
  {
    if xs == [] then None else Some(Sum(xs) / (|xs| as real))
  }

  /** The values of the present entries, in order: `[v for v in vs if v is not None]`. */
  function Present(vs: seq<Option<real>>): (r: seq<real>)
    ensures |r| <= |vs|
  {
    if vs == [] then []
    else
      var init := Present(vs[..|vs| - 1]);
      match vs[|vs| - 1]
      case None => init
      case Some(v) => init + [v]
  }

  /** Every present entry's value occurs in the list of present values, and nothing else does. */
  lemma {:induction false} PresentMembership(vs: seq<Option<real>>, x: real)
    ensures x in Present(vs) <==> Some(x) in vs
  {
    if vs != [] {
      var init := vs[..|vs| - 1];
      PresentMembership(init, x);
      assert vs == init + [vs[|vs| - 1]];
    }
  }

  /** Present is empty exactly when every entry is absent. */
  lemma {:induction false} PresentEmpty(vs: seq<Option<real>>)
    ensures Present(vs) == [] <==> forall i :: 0 <= i < |vs| ==> vs[i].None?
  {
    if vs != [] {
      var init := vs[..|vs| - 1];
      PresentEmpty(init);
      assert forall i :: 0 <= i < |init| ==> init[i] == vs[i];
    }
  }

  /** A sum of values that all lie in [lo, hi] lies in [lo * n, hi * n]. */
  lemma {:induction false} SumBounds(xs: seq<real>, lo: real, hi: real)
    requires forall i :: 0 <= i < |xs| ==> lo <= xs[i] <= hi
    ensures lo * (|xs| as real) <= Sum(xs) <= hi * (|xs| as real)
  {
    if xs != [] {
      var init := xs[..|xs| - 1];
      assert forall i :: 0 <= i < |init| ==> init[i] == xs[i];
      SumBounds(init, lo, hi);
      assert lo * (|xs| as real) == lo * (|init| as real) + lo;
      assert hi * (|xs| as real) == hi * (|init| as real) + hi;
    }
  }

  /** The mean of values that all lie in [lo, hi] lies in [lo, hi] too. */
  lemma MeanBounds(xs: seq<real>, lo: real, hi: real)
    requires xs != []
    requires forall i :: 0 <= i < |xs| ==> lo <= xs[i] <= hi
    ensures Mean(xs).Some? && lo <= Mean(xs).value <= hi
  {
    SumBounds(xs, lo, hi);
    var n := |xs| as real;
    assert Mean(xs).value == Sum(xs) / n;
    assert lo * n <= Sum(xs) <= hi * n;
    assert lo == (lo * n) / n && hi == (hi * n) / n;
  }
}
