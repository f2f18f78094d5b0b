/** `normalize` (main.cpp:94-102): the vertex `std::max_element` picks with
    operator< sets the scale, max(its magnitude, 1), and every vertex of the
    vector is divided by that scale in place. */
module Normalization {
  import opened Geometry

  /** t is where `std::max_element` stops with operator<: no element is larger
      in magnitude than vs[t], and every element before it is strictly smaller,
      so vs[t] is the first of the largest. */
  predicate IsFirstMax(vs: seq<GLvec3>, t: nat) {
    t < |vs|
    && (forall j | 0 <= j < |vs| :: !Less(vs[t], vs[j]))
    && (forall j | 0 <= j < t :: Less(vs[j], vs[t]))
  }

  /** The index of the first element of largest magnitude. */
  function MaxIndex(vs: seq<GLvec3>): (t: nat)
    requires vs != []
    ensures IsFirstMax(vs, t)
    decreases |vs|
  {
    if |vs| == 1 then 0
    else
      var init := vs[..|vs| - 1];
      var t := MaxIndex(init);
      assert forall j | 0 <= j < |init| :: init[j] == vs[j];
      if Less(vs[t], vs[|vs| - 1]) then |vs| - 1 else t
  }

  /** The first maximum is a single index: any two positions that both qualify
      are the same. */
  lemma {:induction false} FirstMaxUnique(vs: seq<GLvec3>, t: nat, u: nat)
    requires IsFirstMax(vs, t) && IsFirstMax(vs, u)
    ensures t == u
  {
    assert !Less(vs[t], vs[u]) && !Less(vs[u], vs[t]);
  }

  /** `max_val` (main.cpp:98-99): the magnitude of the picked vertex when it
      exceeds 1, and 1 otherwise. */
  function Scale(vs: seq<GLvec3>): (s: real)
    requires vs != []
    ensures s >= 1.0
    ensures forall j | 0 <= j < |vs| :: Magnitude(vs[j]) <= s
    ensures s == 1.0 || s == Magnitude(vs[MaxIndex(vs)])
  {
    var m := Magnitude(vs[MaxIndex(vs)]);
    if m > 1.0 then m else 1.0
  }

  /** The vector after `normalize`: every vertex divided by the scale. */
  function Normalized(vs: seq<GLvec3>): (r: seq<GLvec3>)
    requires vs != []
    ensures |r| == |vs|
  {
    seq(|vs|, i requires 0 <= i < |vs| => Div(vs[i], Scale(vs)))
  }

  /** `std::max_element(v.begin(), v.end())`: a running candidate that is
      replaced only by a strictly larger element. */
  method MaxElement(v: array<GLvec3>) returns (t: nat)
    requires v.Length > 0
    ensures IsFirstMax(v[..], t)
  {
    t := 0;
    var i := 1;
    while i < v.Length
      invariant 1 <= i <= v.Length
      invariant IsFirstMax(v[..i], t)
    {
      if Less(v[t], v[i]) {
        t := i;
      }
      i := i + 1;
    }
    assert v[..v.Length] == v[..];
  }

  /** `normalize(v)`: every element is overwritten by itself divided by the
      scale, which is computed once before the loop. */
  method Normalize(v: array<GLvec3>)
    requires v.Length > 0
    modifies v
    ensures v[..] == Normalized(old(v[..]))
  {
    ghost var vs := v[..];
    var t := MaxElement(v);
    FirstMaxUnique(vs, t, MaxIndex(vs));
    var u := v[t];
    var m := Magnitude(u);
    var scale := if m > 1.0 then m else 1.0;
    assert scale == Scale(vs);
    for i := 0 to v.Length
      invariant forall j | 0 <= j < i :: v[j] == Div(vs[j], scale)
      invariant forall j | i <= j < v.Length :: v[j] == vs[j]
    {
      v[i] := Div(v[i], scale);
    }
  }

  /** Dividing a magnitude m by a scale s >= m gives at most 1. */
  lemma DivAtMostOne(m: real, s: real)
    requires 0.0 <= m <= s && s >= 1.0
    ensures m / s <= 1.0
  {
    DivMonotone(s, m, s);
    DivSelf(s);
  }

  /** After `normalize` every vertex has magnitude at most 1: each coordinate
      lies in [-1, 1]. */
  lemma {:induction false} NormalizedBounded(vs: seq<GLvec3>)
    requires vs != []
    ensures forall i | 0 <= i < |vs| :: Magnitude(Normalized(vs)[i]) <= 1.0
    ensures forall i | 0 <= i < |vs| ::
      var w := Normalized(vs)[i]; -1.0 <= w.x <= 1.0 && -1.0 <= w.y <= 1.0 && -1.0 <= w.z <= 1.0
  {
    var s := Scale(vs);
    forall i | 0 <= i < |vs| ensures Magnitude(Normalized(vs)[i]) <= 1.0 {
      MagnitudeOfDiv(vs[i], s);
      DivAtMostOne(Magnitude(vs[i]), s);
    }
  }

  /** `normalize` never makes a coordinate larger in absolute value. */
  lemma {:induction false} NormalizedShrinks(vs: seq<GLvec3>)
    requires vs != []
    ensures forall i | 0 <= i < |vs| ::
      Abs(Normalized(vs)[i].x) <= Abs(vs[i].x)
      && Abs(Normalized(vs)[i].y) <= Abs(vs[i].y)
      && Abs(Normalized(vs)[i].z) <= Abs(vs[i].z)
  {
    var s := Scale(vs);
    forall i | 0 <= i < |vs|
      ensures Abs(Normalized(vs)[i].x) <= Abs(vs[i].x)
      ensures Abs(Normalized(vs)[i].y) <= Abs(vs[i].y)
      ensures Abs(Normalized(vs)[i].z) <= Abs(vs[i].z)
    {
      AbsDivShrinks(vs[i].x, s);
      AbsDivShrinks(vs[i].y, s);
      AbsDivShrinks(vs[i].z, s);
    }
  }

  /** When every vertex already has magnitude at most 1 the scale is 1 and
      `normalize` changes nothing. */
  lemma {:induction false} NormalizeNoOp(vs: seq<GLvec3>)
    requires vs != [] && forall i | 0 <= i < |vs| :: Magnitude(vs[i]) <= 1.0
    ensures Scale(vs) == 1.0 && Normalized(vs) == vs
  {
    var r := Normalized(vs);
    forall i | 0 <= i < |vs| ensures r[i] == vs[i] {
      var v := vs[i];
      assert v.x / 1.0 == v.x && v.y / 1.0 == v.y && v.z / 1.0 == v.z;
    }
  }

  /** Normalizing twice is normalizing once. */
  lemma {:induction false} NormalizeIdempotent(vs: seq<GLvec3>)
    requires vs != []
    ensures Normalized(Normalized(vs)) == Normalized(vs)
  {
    NormalizedBounded(vs);
    NormalizeNoOp(Normalized(vs));
  }

  /** When some vertex has magnitude above 1, the first such largest vertex
      ends with magnitude exactly 1. */
  lemma {:induction false} LargestBecomesUnit(vs: seq<GLvec3>)
    requires vs != [] && Magnitude(vs[MaxIndex(vs)]) > 1.0
    ensures Magnitude(Normalized(vs)[MaxIndex(vs)]) == 1.0
  {
    var t := MaxIndex(vs);
    var m := Magnitude(vs[t]);
    MagnitudeOfDiv(vs[t], m);
    DivSelf(m);
  }
}
