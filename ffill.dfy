/** `fillna(method="ffill")` on one column: every missing cell takes the most
    recent earlier value that is present; cells before the first present
    value stay missing. */
module ForwardFill {
  import opened Wrappers

  function FFill<T>(s: seq<Option<T>>): (r: seq<Option<T>>)
    ensures |r| == |s|
    ensures forall i :: 0 <= i < |s| && s[i].Some? ==> r[i] == s[i]
    ensures forall i :: 0 < i < |s| && s[i].None? ==> r[i] == r[i - 1]
    ensures |s| > 0 && s[0].None? ==> r[0].None?
  {
    if s == [] then []
    else
      var init, last := s[..|s| - 1], s[|s| - 1];
      var p := FFill(init);
      var r := p + [if last.Some? then last else if p == [] then None else p[|p| - 1]];
      assert forall i :: 0 <= i < |init| ==> init[i] == s[i] && r[i] == p[i];
      r
  }

  /** A missing cell gets the nearest earlier present value of its column. */
  lemma {:induction false} FFillTakesNearest<T>(s: seq<Option<T>>, j: int, i: int)
    requires 0 <= j <= i < |s| && s[j].Some?
    requires forall k :: j < k <= i ==> s[k].None?
    ensures FFill(s)[i] == s[j]
    decreases i
  {
    if j < i {
      FFillTakesNearest(s, j, i - 1);
    }
  }

  /** A cell with no present value at or before it stays missing. */
  lemma {:induction false} FFillKeepsLeadingNulls<T>(s: seq<Option<T>>, i: int)
    requires 0 <= i < |s|
    requires forall k :: 0 <= k <= i ==> s[k].None?
    ensures FFill(s)[i].None?
    decreases i
  {
    assert s[i].None?;
    if i > 0 {
      FFillKeepsLeadingNulls(s, i - 1);
    }
  }

  /** Every value the fill produces already occurs in the column. */
  lemma {:induction false} FFillDrawsFromColumn<T>(s: seq<Option<T>>, i: int)
    requires 0 <= i < |s| && FFill(s)[i].Some?
    ensures exists j :: 0 <= j <= i && FFill(s)[i] == s[j]
    decreases i
  {
    if s[i].None? {
      assert i > 0 && FFill(s)[i - 1] == FFill(s)[i];
      FFillDrawsFromColumn(s, i - 1);
    }
  }

  /** A bound on the present values of a column still holds after the fill. */
  lemma FFillKeepsBound<T>(s: seq<Option<T>>, ok: T -> bool)
    requires forall i :: 0 <= i < |s| && s[i].Some? ==> ok(s[i].value)
    ensures forall i :: 0 <= i < |s| && FFill(s)[i].Some? ==> ok(FFill(s)[i].value)
  {
    forall i | 0 <= i < |s| && FFill(s)[i].Some?
      ensures ok(FFill(s)[i].value)
    {
      FFillDrawsFromColumn(s, i);
    }
  }

  /** Filling a filled column changes nothing. */
  lemma FFillIdempotent<T>(s: seq<Option<T>>)
    ensures FFill(FFill(s)) == FFill(s)
  {
    var r := FFill(s);
    var rr := FFill(r);
    forall i | 0 <= i < |s|
      ensures rr[i] == r[i]
    {
      FFillFixesFilled(s, i);
    }
  }

  lemma {:induction false} FFillFixesFilled<T>(s: seq<Option<T>>, i: int)
    requires 0 <= i < |s|
    ensures FFill(FFill(s))[i] == FFill(s)[i]
    decreases i
  {
    var r := FFill(s);
    assert s[i].Some? ==> r[i].Some?;
    if i > 0 {
      FFillFixesFilled(s, i - 1);
    }
  }
}
