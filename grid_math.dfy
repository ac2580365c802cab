// Small sequence helpers the layout is specified with: sums, the first
// minimum (Kotlin's `minByOrNull`), the maximum (`maxOrNull`) and the clamp
// (`coerceIn`).

module GridMath {

  datatype Option<T> = None | Some(value: T)

  function Min(a: nat, b: nat): nat
  {
    if a <= b then a else b
  }

  function Abs(x: int): nat
  {
    if x < 0 then -x else x
  }

  /**
   * Kotlin's integer `/`: the quotient is truncated toward zero, so the
   * remainder `a - q * b` has the sign of `a` and is smaller than `b` in size.
   */
  function DivTrunc(a: int, b: int): (q: int)
    requires b != 0
    ensures a >= 0 ==> 0 <= a - q * b < Abs(b)
    ensures a < 0 ==> 0 <= q * b - a < Abs(b)
  {
    if a >= 0 then
      if b > 0 then a / b else -(a / -b)
    else
      if b > 0 then -((-a) / b) else (-a) / (-b)
  }

  /** Sum of a sequence, accumulated from the left. */
  function Sum(s: seq<nat>): nat
  {
    if |s| == 0 then 0 else Sum(s[..|s| - 1]) + s[|s| - 1]
  }

  /** Adding `h` to one entry adds `h` to the sum. */
  lemma {:induction false} SumUpdate(s: seq<nat>, c: nat, h: nat)
    requires c < |s|
    ensures Sum(s[c := s[c] + h]) == Sum(s) + h
  {
    var t := s[c := s[c] + h];
    var k := |s| - 1;
    if c == k {
      assert t[..k] == s[..k];
    } else {
      assert t[..k] == s[..k][c := s[c] + h];
      SumUpdate(s[..k], c, h);
    }
  }

  /** A sequence whose entries all equal `w` sums to its length times `w`. */
  lemma {:induction false} SumOfConstant(s: seq<nat>, w: nat)
    requires forall i :: 0 <= i < |s| ==> s[i] == w
    ensures Sum(s) == |s| * w
  {
    if |s| > 0 {
      SumOfConstant(s[..|s| - 1], w);
      assert Sum(s) == (|s| - 1) * w + w;
    }
  }

  /**
   * Index of the first smallest entry: the scan keeps the earlier index on a
   * tie, as `minByOrNull` does.
   */
  function ArgMin(s: seq<nat>): (k: nat)
    requires |s| > 0
    ensures k < |s|
    ensures forall j :: 0 <= j < |s| ==> s[k] <= s[j]
    ensures forall j :: 0 <= j < k ==> s[j] > s[k]
  {
    if |s| == 1 then 0
    else
      var k := ArgMin(s[..|s| - 1]);
      if s[|s| - 1] < s[k] then |s| - 1 else k
  }

  /** The first smallest entry is unique: any index with both properties is ArgMin's. */
  lemma ArgMinUnique(s: seq<nat>, k: nat)
    requires k < |s|
    requires forall j :: 0 <= j < |s| ==> s[k] <= s[j]
    requires forall j :: 0 <= j < k ==> s[j] > s[k]
    ensures k == ArgMin(s)
  {
    var m := ArgMin(s);
    assert s[m] <= s[k] && s[k] <= s[m];
  }

  /** The largest entry, or None for the empty sequence (`maxOrNull`). */
  function MaxOrNone(s: seq<nat>): (m: Option<nat>)
    ensures m.None? <==> |s| == 0
    ensures m.Some? ==> exists i :: 0 <= i < |s| && s[i] == m.value
    ensures m.Some? ==> forall i :: 0 <= i < |s| ==> s[i] <= m.value
  {
    if |s| == 0 then None
    else
      match MaxOrNone(s[..|s| - 1])
      case None => Some(s[|s| - 1])
      case Some(m) => if m < s[|s| - 1] then Some(s[|s| - 1]) else Some(m)
  }

  /** The point of `[lo, hi]` nearest to `v` (`coerceIn`). */
  function Clamp(v: nat, lo: nat, hi: nat): (r: nat)
    requires lo <= hi
    ensures lo <= r <= hi
    ensures lo <= v <= hi ==> r == v
    ensures v < lo ==> r == lo
    ensures hi < v ==> r == hi
  {
    if v < lo then lo else if v > hi then hi else v
  }
}
