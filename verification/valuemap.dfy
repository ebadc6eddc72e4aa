/** MAP_VALUE, MAP_VALUE_PAIR and value_map: which of n values a pseudo-index selects.
    The quotient of the source's two floats is taken as the exact rational; a product with it
    that is too large for size_t has no defined conversion, and then nothing is selected. */
module ValueMap {
  import opened Text
  import opened Arithmetic

  const SIZE_MODULUS := 0x1_0000_0000_0000_0000

  function Min(x: int, y: int): int { if x < y then x else y }

  function Max(x: int, y: int): int { if x < y then y else x }

  /** Whether frac * n, where frac = offset / range, is within size_t. */
  predicate Converts(offset: nat, range: nat, n: nat)
    requires range > 0
  {
    assert offset * n >= 0;
    offset * n / range < SIZE_MODULUS
  }

  /** The whole part of frac * n, clamped to the last element. */
  function ElementNr(offset: nat, range: nat, n: nat): (e: nat)
    requires range > 0 && n > 0
    ensures e < n
  {
    assert offset * n >= 0;
    Min(offset * n / range, n - 1)
  }

  /** idx - min_idx in size_t. */
  function Offset(idx: nat, minIdx: nat): nat {
    (idx - minIdx) % SIZE_MODULUS
  }

  ghost predicate SizeT(i: nat) { i < 0x1_0000_0000_0000_0000 }

  /** The element number that both MAP_VALUE and MAP_VALUE_PAIR compute. None: the conversion
      of frac * n to size_t is undefined, as it would not hold the value. */
  function Selected(n: nat, idx1: nat, idx2: nat, idx: nat): (e: Option<nat>)
    requires n > 0 && idx1 != idx2
    ensures e.Some? ==> e.value < n
  {
    var minIdx := if idx1 < idx2 then idx1 else idx2;
    var maxIdx := if minIdx == idx1 then idx2 else idx1;
    var offset, range := Offset(idx, minIdx), maxIdx - minIdx;
    if Converts(offset, range, n) then Some(ElementNr(offset, range, n)) else None
  }

  function MapValue<T>(values: seq<T>, idx1: nat, idx2: nat, idx: nat, empty: T): Option<T>
    requires idx1 != idx2
  {
    if values == [] then Some(empty)
    else match Selected(|values|, idx1, idx2, idx)
      case None => None
      case Some(e) => Some(values[e])
  }

  function MapValuePair<T>(values: seq<T>, idx1: nat, idx2: nat, idx: nat, empty: T): Option<(nat, T)>
    requires idx1 != idx2
  {
    if values == [] then Some((0, empty))
    else match Selected(|values|, idx1, idx2, idx)
      case None => None
      case Some(e) => Some((e, values[e]))
  }

  // ----- the quotient

  lemma {:induction false} ElementMonotone(d: nat, d': nat, range: nat, n: nat)
    requires range > 0 && n > 0 && d <= d'
    ensures ElementNr(d, range, n) <= ElementNr(d', range, n)
  {
    MulLe(n, d, d');
    DivLe(d * n, d' * n, range);
  }

  lemma {:induction false} ElementAtEnds(range: nat, n: nat)
    requires range > 0 && n > 0
    ensures ElementNr(0, range, n) == 0
    ensures forall d :: d >= range ==> ElementNr(d, range, n) == n - 1
  {
    DivIs(0, range, 0, 0);
    forall d: nat | d >= range ensures ElementNr(d, range, n) == n - 1 {
      MulLe(n, range, d);
      DivLe(range * n, d * n, range);
      DivIs(range * n, range, n, 0);
    }
  }

  function CeilDiv(a: nat, b: nat): (c: nat)
    requires b > 0
  {
    (a + b - 1) / b
  }

  lemma {:induction false} CeilDivLe(a: nat, b: nat, c: nat)
    requires b > 0
    ensures CeilDiv(a, b) <= c <==> a <= c * b
  {
    var q := CeilDiv(a, b);
    var m := (a + b - 1) % b;
    assert a + b - 1 == b * q + m;
    if q <= c { MulLe(b, q, c); } else {
      MulLe(b, c + 1, q);
      Distribute(b, c, 1);
    }
  }

  lemma {:induction false} QuotientIs(x: nat, d: nat, k: nat)
    requires d > 0
    ensures x / d == k <==> k * d <= x < (k + 1) * d
  {
    Distribute(d, k, 1);
    if k * d <= x < (k + 1) * d { DivIs(x, d, k, x - d * k); }
    if x / d == k { assert x == d * k + x % d; }
  }

  /** Where the block of element k begins. */
  function BlockStart(k: nat, range: nat, n: nat): nat
    requires n > 0
  {
    MulLe(range, 0, k);
    CeilDiv(k * range, n)
  }

  /** Below range, element k is selected exactly by the indices of its block. */
  lemma {:induction false} Blocks(d: nat, range: nat, n: nat, k: nat)
    requires n > 0 && d < range && k < n
    ensures ElementNr(d, range, n) == k <==> BlockStart(k, range, n) <= d < BlockStart(k + 1, range, n)
  {
    hide CeilDiv;
    BelowLast(d, range, n);
    QuotientIs(d * n, range, k);
    CeilDivLe(k * range, n, d);
    CeilDivLe((k + 1) * range, n, d);
  }

  lemma {:induction false} BelowLast(d: nat, range: nat, n: nat)
    requires n > 0 && d < range
    ensures d * n >= 0 && d * n / range < n
  {
    MulLe(n, d, range - 1);
    Distribute(n, range, -1);
    var q := d * n / range;
    QuotientIs(d * n, range, q);
    if q >= n { MulLe(range, n, q); }
  }

  lemma {:induction false} CeilBounds(a: nat, n: nat)
    requires n > 0
    ensures n * CeilDiv(a, n) - n < a <= n * CeilDiv(a, n)
  {
    assert a + n - 1 == n * CeilDiv(a, n) + (a + n - 1) % n;
  }

  lemma {:induction false} CeilOfSum(a: nat, n: nat, c: nat, q: nat, r: nat)
    requires n > 0 && r < n && n * c - n < a <= n * c && n * q >= 0
    ensures var sum := CeilDiv(a + (n * q + r), n); sum == c + q || (r > 0 && sum == c + q + 1)
  {
    var top := a + (n * q + r) + n - 1;
    var m := a + r + n - 1 - n * c;
    Distribute(n, c, q);
    if m < n {
      DivIs(top, n, c + q, m);
    } else {
      Distribute(n, c + q, 1);
      DivIs(top, n, c + q + 1, m - n);
    }
  }

  /** Every block has floor(range / n) or ceil(range / n) indices. */
  lemma {:induction false} BlockSize(range: nat, n: nat, k: nat)
    requires n > 0
    ensures var size := BlockStart(k + 1, range, n) - BlockStart(k, range, n);
            size == range / n || size == CeilDiv(range, n)
  {
    var q, r := range / n, range % n;
    var a := k * range;
    MulLe(range, 0, k);
    Distribute(range, k, 1);
    var c := BlockStart(k, range, n);
    assert BlockStart(k + 1, range, n) == CeilDiv(a + range, n);
    CeilBounds(a, n);
    hide CeilDiv, BlockStart;
    assert range == n * q + r;
    CeilOfSum(a, n, c, q, r);
    CeilOfRange(n, q, r);
  }

  lemma {:induction false} CeilOfRange(n: nat, q: nat, r: nat)
    requires n > 0 && r < n && n * q >= 0
    ensures CeilDiv(n * q + r, n) == if r == 0 then q else q + 1
  {
    if r == 0 {
      DivIs(n * q + r + n - 1, n, q, n - 1);
    } else {
      Distribute(n, q, 1);
      DivIs(n * q + r + n - 1, n, q + 1, r - 1);
    }
  }

  lemma {:induction false} BlockEnds(range: nat, n: nat)
    requires n > 0
    ensures BlockStart(0, range, n) == 0 && BlockStart(n, range, n) == range
  {
    DivIs(n - 1, n, 0, n - 1);
    DivIs(n * range + n - 1, n, range, n - 1);
  }

  lemma {:induction false} StartsIncrease(range: nat, n: nat, j: nat)
    requires n > 0
    requires forall k: nat :: k < j ==> BlockStart(k, range, n) < BlockStart(k + 1, range, n)
    ensures BlockStart(j, range, n) >= j
  {
    if j > 0 {
      StartsIncrease(range, n, j - 1);
      assert BlockStart(j - 1, range, n) < BlockStart(j - 1 + 1, range, n);
    }
  }

  ghost predicate Hit(k: nat, range: nat, n: nat)
    requires range > 0 && n > 0
  {
    exists d: nat :: d < range && ElementNr(d, range, n) == k
  }

  /** Every one of the n values is selected by some index below range exactly when there
      are at least as many indices as values. */
  lemma {:induction false} AllHit(range: nat, n: nat)
    requires range > 0 && n > 0
    ensures (forall k: nat :: k < n ==> Hit(k, range, n)) <==> range >= n
  {
    BlockEnds(range, n);
    if range >= n {
      forall k: nat | k < n ensures Hit(k, range, n) {
        HitWhenLong(k, range, n);
      }
    }
    if forall k: nat :: k < n ==> Hit(k, range, n) {
      forall k: nat | k < n ensures BlockStart(k, range, n) < BlockStart(k + 1, range, n) {
        assert Hit(k, range, n);
        var d: nat :| d < range && ElementNr(d, range, n) == k;
        Blocks(d, range, n, k);
      }
      StartsIncrease(range, n, n);
    }
  }

  lemma {:induction false} HitWhenLong(k: nat, range: nat, n: nat)
    requires range >= n > 0 && k < n
    ensures Hit(k, range, n)
  {
    var d := BlockStart(k, range, n);
    BlockSize(range, n, k);
    assert range / n >= 1 by { DivLe(n, range, n); DivIs(n, n, 1, 0); }
    assert CeilDiv(range, n) >= 1 by { DivLe(n, range + n - 1, n); DivIs(n, n, 1, 0); }
    CeilDivLe(k * range, n, range - 1);
    assert k * range <= (range - 1) * n by {
      MulLe(range, k, n - 1);
      Distribute(range, n, -1);
      Distribute(n, range, -1);
    }
    Blocks(d, range, n, k);
  }

  // ----- MAP_VALUE and MAP_VALUE_PAIR

  /** The two extrema may be given in either order. */
  lemma ExtremaCommute<T>(values: seq<T>, idx1: nat, idx2: nat, idx: nat, empty: T)
    requires idx1 != idx2
    ensures MapValuePair(values, idx1, idx2, idx, empty) == MapValuePair(values, idx2, idx1, idx, empty)
    ensures MapValue(values, idx1, idx2, idx, empty) ==
            match MapValuePair(values, idx1, idx2, idx, empty) case None => None case Some(p) => Some(p.1)
    ensures values == [] ==> MapValuePair(values, idx1, idx2, idx, empty) == Some((0, empty))
  {
  }

  lemma {:induction false} ConvertsBelow(offset: nat, range: nat, n: nat)
    requires range > 0
    ensures Converts(offset, range, n) <==> offset * n < SIZE_MODULUS * range
  {
    var x := offset * n;
    var q := x / range;
    assert x == range * q + x % range;
    if q < SIZE_MODULUS {
      MulLe(range, q + 1, SIZE_MODULUS);
      Distribute(range, q, 1);
    } else {
      MulLe(range, SIZE_MODULUS, q);
    }
  }

  /** Whether the selection is defined: the product of the index's distance above the
      smaller extremum, in size_t, and the number of values is below 2^64 times the range. */
  predicate Fits(n: nat, idx1: nat, idx2: nat, idx: nat) {
    Offset(idx, Min(idx1, idx2)) * n < 0x1_0000_0000_0000_0000 * (Max(idx1, idx2) - Min(idx1, idx2))
  }

  lemma {:induction false} SelectedFits(n: nat, idx1: nat, idx2: nat, idx: nat)
    requires n > 0 && idx1 != idx2
    ensures Selected(n, idx1, idx2, idx).Some? <==> Fits(n, idx1, idx2, idx)
  {
    var lo := Min(idx1, idx2);
    ConvertsBelow(Offset(idx, lo), Max(idx1, idx2) - lo, n);
  }

  lemma OffsetIs(idx: nat, lo: nat)
    requires SizeT(idx) && SizeT(lo)
    ensures Offset(idx, lo) == if idx >= lo then idx - lo else idx - lo + SIZE_MODULUS
  {
  }

  /** Between the extrema the selection is always defined. */
  lemma {:induction false} FitsBetween(n: nat, idx1: nat, idx2: nat, idx: nat)
    requires idx1 != idx2 && SizeT(n) && SizeT(idx1) && SizeT(idx2)
    requires Min(idx1, idx2) <= idx <= Max(idx1, idx2)
    ensures Fits(n, idx1, idx2, idx)
  {
    var lo, hi := Min(idx1, idx2), Max(idx1, idx2);
    OffsetIs(idx, lo);
    MulLe(n, idx - lo, hi - lo);
    MulLe(hi - lo, n, SIZE_MODULUS - 1);
  }

  /** There each value is selected by the indices of one block, and no others. */
  lemma {:induction false} SelectedBetween(n: nat, idx1: nat, idx2: nat, idx: nat, k: nat)
    requires idx1 != idx2 && SizeT(n) && SizeT(idx1) && SizeT(idx2) && k < n
    requires Min(idx1, idx2) <= idx < Max(idx1, idx2)
    ensures var lo, range := Min(idx1, idx2), Max(idx1, idx2) - Min(idx1, idx2);
            Selected(n, idx1, idx2, idx) == Some(k) <==>
            lo + BlockStart(k, range, n) <= idx < lo + BlockStart(k + 1, range, n)
  {
    hide BlockStart, Fits, Converts, ElementNr;
    var lo, hi := Min(idx1, idx2), Max(idx1, idx2);
    FitsBetween(n, idx1, idx2, idx);
    SelectedFits(n, idx1, idx2, idx);
    OffsetIs(idx, lo);
    Blocks(idx - lo, hi - lo, n, k);
  }

  /** It is defined for every index exactly when there are no more values than steps between
      the extrema. */
  lemma {:induction false} AlwaysFits(n: nat, idx1: nat, idx2: nat)
    requires n > 0 && idx1 != idx2 && SizeT(idx1) && SizeT(idx2)
    ensures (forall idx: nat :: SizeT(idx) ==> Selected(n, idx1, idx2, idx).Some?) <==>
            n <= Max(idx1, idx2) - Min(idx1, idx2)
  {
    var lo, hi := Min(idx1, idx2), Max(idx1, idx2);
    var range := hi - lo;
    if n <= range {
      forall idx: nat | SizeT(idx) ensures Selected(n, idx1, idx2, idx).Some? {
        SelectedFits(n, idx1, idx2, idx);
        OffsetIs(idx, lo);
        MulLe(Offset(idx, lo), n, range);
        MulLe(range, Offset(idx, lo), SIZE_MODULUS - 1);
      }
    } else {
      var idx := if lo == 0 then SIZE_MODULUS - 1 else lo - 1;
      OffsetIs(idx, lo);
      assert SizeT(idx) && Offset(idx, lo) == SIZE_MODULUS - 1;
      SelectedFits(n, idx1, idx2, idx);
      MulLe(SIZE_MODULUS - 1, range + 1, n);
      assert !Fits(n, idx1, idx2, idx);
    }
  }

  /** At the smaller extremum the first value is selected. From the larger one on it is the
      last one, and so it is below the smaller one, where the unsigned difference wraps
      round; unless the selection is not defined. */
  lemma {:induction false} SelectedOutside(n: nat, idx1: nat, idx2: nat, idx: nat)
    requires n > 0 && idx1 != idx2 && SizeT(idx1) && SizeT(idx2) && SizeT(idx)
    ensures idx == Min(idx1, idx2) ==> Selected(n, idx1, idx2, idx) == Some(0)
    ensures idx < Min(idx1, idx2) || idx >= Max(idx1, idx2) ==>
              Selected(n, idx1, idx2, idx) == if Fits(n, idx1, idx2, idx) then Some(n - 1) else None
  {
    var lo, hi := Min(idx1, idx2), Max(idx1, idx2);
    ElementAtEnds(hi - lo, n);
    SelectedFits(n, idx1, idx2, idx);
    OffsetIs(idx, lo);
    hide Fits;
    if idx == lo {
      ConvertsBelow(0, hi - lo, n);
    }
  }

  /** Line 1863 computes a limited index that line 1867 does not use: limiting the index
      changes nothing exactly when there is only one value, or the index is not below the
      smaller extremum and its selection is defined. */
  lemma {:induction false} LimitedIndexAgrees(n: nat, idx1: nat, idx2: nat, idx: nat)
    requires n > 0 && SizeT(n) && idx1 != idx2 && SizeT(idx1) && SizeT(idx2) && SizeT(idx)
    ensures var limited := Max(Min(idx1, idx2), Min(idx, Max(idx1, idx2)));
            Selected(n, idx1, idx2, idx) == Selected(n, idx1, idx2, limited) <==>
            n == 1 || (idx >= Min(idx1, idx2) && Fits(n, idx1, idx2, idx))
  {
    hide Selected, Fits;
    var limited := Max(Min(idx1, idx2), Min(idx, Max(idx1, idx2)));
    SelectedOutside(n, idx1, idx2, idx);
    SelectedOutside(n, idx1, idx2, limited);
    FitsBetween(n, idx1, idx2, limited);
    AlwaysFits(n, idx1, idx2);
    SelectedFits(n, idx1, idx2, idx);
    SelectedFits(n, idx1, idx2, limited);
  }

  /** One step between the extrema and two values: an index just below them is not defined. */
  lemma SelectionUndefined()
    ensures Selected(2, 1, 2, 0) == None
  {
  }

  /** From the smaller extremum on, a larger index never selects an earlier value. */
  lemma {:induction false} SelectedMonotone(n: nat, idx1: nat, idx2: nat, idx: nat, idx': nat)
    requires n > 0 && idx1 != idx2 && SizeT(idx1) && SizeT(idx2) && SizeT(idx')
    requires Min(idx1, idx2) <= idx <= idx'
    ensures Selected(n, idx1, idx2, idx').Some? ==>
              && Selected(n, idx1, idx2, idx).Some?
              && Selected(n, idx1, idx2, idx).value <= Selected(n, idx1, idx2, idx').value
  {
    var lo, hi := Min(idx1, idx2), Max(idx1, idx2);
    OffsetIs(idx, lo);
    OffsetIs(idx', lo);
    MulLe(n, idx - lo, idx' - lo);
    ConvertsBelow(idx - lo, hi - lo, n);
    ConvertsBelow(idx' - lo, hi - lo, n);
    ElementMonotone(idx - lo, idx' - lo, hi - lo, n);
  }

  // ----- value_map

  ghost function Tabulated<V>(vec: seq<V>, range: nat): (t: seq<V>)
    requires range > 0 && vec != []
    ensures |t| == range + 1
  {
    seq(range + 1, i requires 0 <= i < range + 1 => vec[ElementNr(i, range, |vec|)])
  }

  ghost function LookedUp<V>(table: seq<V>, idx: nat): V
    requires table != []
  {
    if idx < |table| then table[idx] else table[|table| - 1]
  }

  ghost function Overwritten<V>(table: seq<V>, idx: nat, val: V): seq<V> {
    if idx < |table| then table[idx := val] else table
  }

  lemma {:induction false} TableConverts(i: nat, range: nat, n: nat)
    requires 0 <= i <= range && range > 0 && SizeT(n)
    ensures Converts(i, range, n)
  {
    ConvertsBelow(i, range, n);
    MulLe(n, i, range);
    MulLe(range, n, SIZE_MODULUS - 1);
  }

  class ValueTable<V(0)> {
    var vec: array<V>
    const idx1: nat
    const idx2: nat

    ghost predicate Valid()
      reads this
    {
      idx1 <= idx2 && vec.Length == if idx1 == idx2 then 0 else idx2 + 1
    }

    /** As the source says, idx_1 is zero and the smaller of the two. */
    constructor (values: seq<V>, i1: nat, i2: nat)
      requires i1 == 0 <= i2 && (i1 != i2 ==> values != []) && SizeT(i2) && SizeT(|values|)
      ensures Valid() && fresh(vec) && idx1 == i1 && idx2 == i2
      ensures i1 < i2 ==> vec[..] == Tabulated(values, i2)
    {
      idx1 := i1;
      idx2 := i2;
      var table := new V[if i1 == i2 then 0 else i2 - i1 + 1];
      vec := table;
      new;
      if i1 == i2 {
        return;
      }
      var idxRange := i2 - i1;
      var idx := i1;
      while idx <= i2
        invariant i1 <= idx <= i2 + 1 && vec == table
        invariant forall i :: 0 <= i < idx ==> vec[i] == Tabulated(values, idxRange)[i]
        decreases i2 + 1 - idx
      {
        assert Converts(idx - i1, idxRange, |values|) by {
          TableConverts(idx - i1, idxRange, |values|);
        }
        vec[idx] := values[ElementNr(idx - i1, idxRange, |values|)];
        idx := idx + 1;
      }
    }

    method Lookup(idx: nat) returns (v: V)
      requires Valid() && idx1 < idx2
      ensures v == if idx < idx1 then vec[0] else LookedUp(vec[..], idx)
    {
      if idx < idx1 {
        return vec[0];
      }
      if idx > idx2 {
        return vec[vec.Length - 1];
      }
      return vec[idx];
    }

    method Overwrite(idx: nat, val: V)
      requires Valid() && idx1 < idx2
      modifies vec
      ensures vec[..] == if idx < idx1 then old(vec[..]) else Overwritten(old(vec[..]), idx, val)
    {
      if idx >= idx1 && idx <= idx2 {
        vec[idx] := val;
      }
    }
  }

  /** The precomputed table answers what the formula would, and beyond the range what the
      formula gives at its end. That is what the formula gives there too, exactly where it is
      defined; with no more values than the range it is defined everywhere. */
  lemma {:induction false} TableIsMapValue<V>(vec: seq<V>, range: nat, i: nat, empty: V)
    requires range > 0 && SizeT(range) && SizeT(i) && vec != [] && SizeT(|vec|)
    ensures MapValue(vec, 0, range, Min(i, range), empty) == Some(LookedUp(Tabulated(vec, range), i))
    ensures MapValue(vec, 0, range, i, empty) == Some(LookedUp(Tabulated(vec, range), i)) <==>
            i * |vec| < SIZE_MODULUS * range
    ensures |vec| <= range ==> i * |vec| < SIZE_MODULUS * range
  {
    var n := |vec|;
    OffsetIs(i, 0);
    OffsetIs(Min(i, range), 0);
    ElementAtEnds(range, n);
    TableConverts(Min(i, range), range, n);
    ConvertsBelow(i, range, n);
    if n <= range {
      MulLe(i, n, range);
      MulLe(range, i, SIZE_MODULUS - 1);
    }
    hide Converts;
  }

  ghost function OverwrittenAll<V>(table: seq<V>, writes: seq<(nat, V)>): (t: seq<V>)
    ensures |t| == |table|
  {
    if writes == [] then table
    else
      var (idx, val) := writes[|writes| - 1];
      Overwritten(OverwrittenAll(table, writes[..|writes| - 1]), idx, val)
  }

  /** The last value written at i, if any. */
  ghost function LastWrite<V>(writes: seq<(nat, V)>, i: nat): Option<V> {
    if writes == [] then None
    else if writes[|writes| - 1].0 == i then Some(writes[|writes| - 1].1)
    else LastWrite(writes[..|writes| - 1], i)
  }

  /** After any run of overwrites a lookup gives the last value written at the index, cut
      down to the end of the range, and otherwise what the formula gives there. In particular a
      write at the end of the range shows at every index beyond it, and a write beyond the
      range nowhere. */
  lemma {:induction false} OverwriteRun<V>(vec: seq<V>, range: nat, writes: seq<(nat, V)>, i: nat, empty: V)
    requires range > 0 && SizeT(range) && SizeT(i) && vec != [] && SizeT(|vec|)
    ensures Some(LookedUp(OverwrittenAll(Tabulated(vec, range), writes), i)) ==
            match LastWrite(writes, Min(i, range))
            case None => MapValue(vec, 0, range, Min(i, range), empty)
            case Some(v) => Some(v)
    decreases |writes|
  {
    if writes == [] {
      TableIsMapValue(vec, range, i, empty);
    } else {
      OverwriteRun(vec, range, writes[..|writes| - 1], i, empty);
    }
  }
}
