/** The parts of numpy's array semantics that the map maker relies on:
    float64 values that may be infinite, Python's negative indexing,
    first-occurrence argmin/argmax, and the min/max/sum reductions. */
module NumPy {

  /** A float64 as the hydrology and city code use it: finite, or one of the
      two infinities (`np.inf`, `-np.inf`). NaN is not modelled. */
  datatype Ext = NegInf | Fin(v: real) | PosInf

  predicate Lt(a: Ext, b: Ext) {
    if a.NegInf? then !b.NegInf?
    else if a.PosInf? then false
    else b.PosInf? || (b.Fin? && a.v < b.v)
  }

  predicate Le(a: Ext, b: Ext) {
    a == b || Lt(a, b)
  }

  /** `np.minimum` of two values */
  function Min(a: Ext, b: Ext): (m: Ext)
    ensures Le(m, a) && Le(m, b)
    ensures m == a || m == b
  {
    if Le(a, b) then a else b
  }

  /** `np.maximum` of two values */
  function Max(a: Ext, b: Ext): (m: Ext)
    ensures Le(a, m) && Le(b, m)
    ensures m == a || m == b
  {
    if Le(a, b) then b else a
  }

  /** Adding a finite number leaves an infinity where it is. */
  function Plus(a: Ext, d: real): Ext {
    if a.Fin? then Fin(a.v + d) else a
  }

  /** Python indexing: a negative index counts from the end. */
  function At<T>(s: seq<T>, j: int): (x: T)
    requires -|s| <= j < |s|
    ensures x == s[Resolve(j, |s|)]
    ensures j == -1 ==> x == s[|s| - 1]
  {
    if j < 0 then s[|s| + j] else s[j]
  }

  /** The position `At(s, j)` reads: `j` itself when it is not negative,
      otherwise `j` counted back from the end. */
  function Resolve(j: int, n: nat): (k: nat)
    requires -(n as int) <= j < n
    ensures k < n
  {
    if j < 0 then n + j else j
  }

  /** `np.argmin`: the first position holding the smallest value. */
  function ArgMin(s: seq<Ext>): (k: nat)
    requires |s| > 0
    ensures k < |s|
    ensures forall j :: 0 <= j < |s| ==> Le(s[k], s[j])
    ensures forall j :: 0 <= j < k ==> Lt(s[k], s[j])
  {
    if |s| == 1 then 0
    else
      var k' := ArgMin(s[1..]);
      assert forall j :: 1 <= j < |s| ==> s[j] == s[1..][j - 1];
      if Le(s[0], s[k' + 1]) then 0 else k' + 1
  }

  /** `np.argmax`: the first position holding the largest value. */
  function ArgMax(s: seq<Ext>): (k: nat)
    requires |s| > 0
    ensures k < |s|
    ensures forall j :: 0 <= j < |s| ==> Le(s[j], s[k])
    ensures forall j :: 0 <= j < k ==> Lt(s[j], s[k])
  {
    if |s| == 1 then 0
    else
      var k' := ArgMax(s[1..]);
      assert forall j :: 1 <= j < |s| ==> s[j] == s[1..][j - 1];
      if Le(s[k' + 1], s[0]) then 0 else k' + 1
  }

  /** `.sum()` */
  function Sum(s: seq<real>): real {
    if s == [] then 0.0 else s[0] + Sum(s[1..])
  }

  /** `.min()` of a non-empty array */
  function MinOf(s: seq<real>): (m: real)
    requires |s| > 0
    ensures forall j :: 0 <= j < |s| ==> m <= s[j]
  {
    if |s| == 1 then s[0]
    else
      var m' := MinOf(s[1..]);
      assert forall j :: 1 <= j < |s| ==> s[j] == s[1..][j - 1];
      if s[0] <= m' then s[0] else m'
  }

  /** `.max()` of a non-empty array */
  function MaxOf(s: seq<real>): (m: real)
    requires |s| > 0
    ensures forall j :: 0 <= j < |s| ==> s[j] <= m
  {
    if |s| == 1 then s[0]
    else
      var m' := MaxOf(s[1..]);
      assert forall j :: 1 <= j < |s| ==> s[j] == s[1..][j - 1];
      if m' <= s[0] then s[0] else m'
  }

  /** `.max()` of a non-empty array of counts */
  function MaxNat(s: seq<nat>): (m: nat)
    requires |s| > 0
    ensures forall j :: 0 <= j < |s| ==> s[j] <= m
  {
    if |s| == 1 then s[0]
    else
      var m' := MaxNat(s[1..]);
      assert forall j :: 1 <= j < |s| ==> s[j] == s[1..][j - 1];
      if m' <= s[0] then s[0] else m'
  }

  /** The minimum is one of the values. */
  lemma {:induction false} MinOfAttained(s: seq<real>)
    requires |s| > 0
    ensures exists j :: 0 <= j < |s| && s[j] == MinOf(s)
  {
    if MinOf(s) == s[0] {
      assert s[0] == MinOf(s);
    } else {
      MinOfAttained(s[1..]);
      var j :| 0 <= j < |s| - 1 && s[1..][j] == MinOf(s[1..]);
      assert s[j + 1] == MinOf(s);
    }
  }

  /** The maximum is one of the values. */
  lemma {:induction false} MaxOfAttained(s: seq<real>)
    requires |s| > 0
    ensures exists j :: 0 <= j < |s| && s[j] == MaxOf(s)
  {
    if MaxOf(s) == s[0] {
      assert s[0] == MaxOf(s);
    } else {
      MaxOfAttained(s[1..]);
      var j :| 0 <= j < |s| - 1 && s[1..][j] == MaxOf(s[1..]);
      assert s[j + 1] == MaxOf(s);
    }
  }

  /** The largest count is one of the counts. */
  lemma {:induction false} MaxNatAttained(s: seq<nat>)
    requires |s| > 0
    ensures exists j :: 0 <= j < |s| && s[j] == MaxNat(s)
  {
    if MaxNat(s) == s[0] {
      assert s[0] == MaxNat(s);
    } else {
      MaxNatAttained(s[1..]);
      var j :| 0 <= j < |s| - 1 && s[1..][j] == MaxNat(s[1..]);
      assert s[j + 1] == MaxNat(s);
    }
  }

  /** Summing one more value adds it to the total, whichever end it joins. */
  lemma {:induction false} SumAppend(s: seq<real>, x: real)
    ensures Sum(s + [x]) == Sum(s) + x
    ensures Sum([x] + s) == x + Sum(s)
  {
    assert ([x] + s)[1..] == s;
    if s != [] {
      assert (s + [x])[1..] == s[1..] + [x];
      SumAppend(s[1..], x);
    }
  }

  /** A sum of values that all lie in [lo, hi] lies in [|s| lo, |s| hi]. */
  lemma {:induction false} SumBounds(s: seq<real>, lo: real, hi: real)
    requires forall j :: 0 <= j < |s| ==> lo <= s[j] <= hi
    ensures |s| as real * lo <= Sum(s) <= |s| as real * hi
  {
    if s != [] {
      SumBounds(s[1..], lo, hi);
    }
  }
}
