/** is_bust_call, pair_index, busts_database and bust_map. */
module Busts {
  import opened Text
  import opened Splitting

  // ----- what a bust is: one typing error apart

  ghost predicate DifferOnlyAt(a: string, b: string, i: nat)
    requires |a| == |b|
  {
    i < |a| && a[i] != b[i] && forall j :: 0 <= j < |a| && j != i ==> a[j] == b[j]
  }

  ghost predicate Substitution(a: string, b: string) {
    |a| == |b| && exists i: nat :: DifferOnlyAt(a, b, i)
  }

  function Without(s: string, i: nat): string
    requires i < |s|
  {
    s[..i] + s[i + 1..]
  }

  ghost predicate Omission(a: string, b: string) {
    exists i :: 0 <= i < |a| && b == Without(a, i)
  }

  function Swapped(s: string, i: nat): string
    requires i + 1 < |s|
  {
    s[i := s[i + 1]][i + 1 := s[i]]
  }

  ghost predicate Inversion(a: string, b: string) {
    a != b && exists i :: 0 <= i < |a| - 1 && b == Swapped(a, i)
  }

  ghost predicate OneEdit(a: string, b: string) {
    Substitution(a, b) || Omission(a, b) || Omission(b, a) || Inversion(a, b)
  }

  /** What the two edits do, place by place. */
  lemma EditsPlaceByPlace(s: string, i: nat)
    requires i < |s|
    ensures |Without(s, i)| == |s| - 1
    ensures forall j :: 0 <= j < i ==> Without(s, i)[j] == s[j]
    ensures forall j, k :: i < j < |s| && k == j - 1 ==> Without(s, i)[k] == s[j]
    ensures i + 1 < |s| ==>
              && |Swapped(s, i)| == |s| && Swapped(s, i)[i] == s[i + 1] && Swapped(s, i)[i + 1] == s[i]
              && forall j :: 0 <= j < |s| && j != i && j != i + 1 ==> Swapped(s, i)[j] == s[j]
  {
  }

  lemma OneEditLengths(a: string, b: string)
    ensures Substitution(a, b) || Inversion(a, b) ==> |a| == |b|
    ensures Omission(a, b) ==> |a| == |b| + 1
    ensures OneEdit(a, b) ==> a != b
  {
  }

  lemma {:induction false} InversionBack(a: string, b: string)
    requires Inversion(a, b)
    ensures Inversion(b, a)
  {
    var i :| 0 <= i < |a| - 1 && b == Swapped(a, i);
    assert Swapped(b, i) == a;
  }

  /** Testing for busts is symmetrical, and no call is a bust of itself. */
  lemma {:induction false} OneEditSymmetric(a: string, b: string)
    ensures OneEdit(a, b) <==> OneEdit(b, a)
    ensures !OneEdit(a, a)
  {
    if Inversion(a, b) { InversionBack(a, b); }
    if Inversion(b, a) { InversionBack(b, a); }
    SubstitutionBack(a, b);
    SubstitutionBack(b, a);
    OneEditLengths(a, a);
  }

  lemma {:induction false} SubstitutionBack(a: string, b: string)
    ensures Substitution(a, b) ==> Substitution(b, a)
  {
    if Substitution(a, b) {
      var i: nat :| DifferOnlyAt(a, b, i);
      assert DifferOnlyAt(b, a, i);
    }
  }

  // ----- is_bust_call

  /** How many of the first n characters differ. */
  ghost function Differences(a: string, b: string, n: nat): nat
    requires n <= |a| == |b|
  {
    if n == 0 then 0 else Differences(a, b, n - 1) + if a[n - 1] != b[n - 1] then 1 else 0
  }

  lemma {:induction false} NoDifference(a: string, b: string, n: nat)
    requires n <= |a| == |b|
    ensures Differences(a, b, n) == 0 <==> a[..n] == b[..n]
  {
    if n > 0 {
      NoDifference(a, b, n - 1);
      assert a[..n] == a[..n - 1] + [a[n - 1]] && b[..n] == b[..n - 1] + [b[n - 1]];
    }
  }

  lemma {:induction false} OneDifference(a: string, b: string, n: nat)
    requires n <= |a| == |b|
    ensures Differences(a, b, n) == 1 <==> Substitution(a[..n], b[..n])
  {
    if n > 0 {
      OneDifference(a, b, n - 1);
      NoDifference(a, b, n - 1);
      SubstitutionSnoc(a[..n - 1], a[n - 1], b[..n - 1], b[n - 1]);
      assert a[..n] == a[..n - 1] + [a[n - 1]] && b[..n] == b[..n - 1] + [b[n - 1]];
    }
  }

  lemma {:induction false} SubstitutionSnoc(a: string, x: char, b: string, y: char)
    requires |a| == |b|
    ensures Substitution(a + [x], b + [y]) <==> if x == y then Substitution(a, b) else a == b
  {
    var a', b' := a + [x], b + [y];
    var n := |a|;
    if Substitution(a', b') {
      var i: nat :| DifferOnlyAt(a', b', i);
      assert a == a'[..n] && b == b'[..n];
      if i < n {
        assert a'[n] == b'[n];
        assert DifferOnlyAt(a, b, i);
      }
    }
    if x == y && Substitution(a, b) {
      var i: nat :| DifferOnlyAt(a, b, i);
      assert DifferOnlyAt(a', b', i);
    }
    if x != y && a == b {
      assert DifferOnlyAt(a', b', n);
    }
  }

  /** A text one shorter occurs in another exactly when it lacks its first or last character. */
  lemma {:induction false} ContainsOneShorter(longer: string, shorter: string)
    requires |longer| == |shorter| + 1
    ensures Contains(longer, shorter) <==> shorter == Without(longer, 0) || shorter == Without(longer, |shorter|)
  {
    var n := |shorter|;
    assert Without(longer, 0) == longer[1..1 + n];
    assert Without(longer, n) == longer[0..n];
    assert OccursAt(longer, shorter, 0) <==> shorter == longer[0..n];
    assert OccursAt(longer, shorter, 1) <==> shorter == longer[1..1 + n];
    if Contains(longer, shorter) {
      var i :| OccursAt(longer, shorter, i);
      assert i == 0 || i == 1;
    }
  }

  method IsBustCall(call1: string, call2: string) returns (bust: bool)
    ensures bust <==> OneEdit(call1, call2)
  {
    hide Contains, Inversion, Substitution, Swapped, Find, OccursAt;
    OneEditLengths(call1, call2);
    OneEditLengths(call2, call1);
    if call1 == call2 {
      return false;
    }
    var l1, l2 := |call1|, |call2|;
    if l1 - l2 >= 2 || l2 - l1 >= 2 {
      return false;
    }
    if l1 != l2 {
      var longer := if l1 > l2 then call1 else call2;
      var shorter := if l1 > l2 then call2 else call1;
      assert OneEdit(call1, call2) == Omission(longer, shorter);
      ContainsOneShorter(longer, shorter);
      if Find(longer, shorter, 0).Some? {
        assert Contains(longer, shorter) by { FindContains(longer, shorter); }
        return true;
      }
      assert !Contains(longer, shorter) by { FindContains(longer, shorter); }
      for posn := 1 to |longer| - 1
        invariant forall i :: 0 <= i < posn ==> shorter != Without(longer, i)
      {
        var tmp := longer[..posn] + longer[posn + 1..];
        if tmp == shorter {
          assert shorter == Without(longer, posn);
          return true;
        }
      }
      return false;
    }
    var differences := 0;
    var posn := 0;
    while posn < l1 && differences < 2
      invariant posn <= l1 && differences <= 2
      invariant differences == Differences(call1, call2, posn)
    {
      if call1[posn] != call2[posn] {
        differences := differences + 1;
      }
      posn := posn + 1;
    }
    DifferencesGrow(call1, call2, posn, l1);
    OneDifference(call1, call2, l1);
    assert call1[..l1] == call1 && call2[..l1] == call2;
    if differences == 1 {
      return true;
    }
    bust := InvertedOnce(call1, call2);
  }

  lemma {:induction false} DifferencesGrow(a: string, b: string, n: nat, m: nat)
    requires n <= m <= |a| == |b|
    ensures Differences(a, b, n) <= Differences(a, b, m)
  {
    if n < m { DifferencesGrow(a, b, n, m - 1); }
  }

  /** The last loop of is_bust_call. */
  method InvertedOnce(call1: string, call2: string) returns (bust: bool)
    requires call1 != call2
    ensures bust <==> Inversion(call1, call2)
  {
    var posn := 0;
    while posn < |call1| - 1
      invariant forall i :: 0 <= i < posn && i + 1 < |call1| ==> call2 != Swapped(call1, i)
    {
      var callTmp := Swapped(call1, posn);
      if callTmp == call2 {
        return true;
      }
      posn := posn + 1;
    }
    return false;
  }

  // ----- pair_index

  const PLUS := '+'

  function PairIndex(call1: string, call2: string): string {
    if Less(call1, call2) then call1 + [PLUS] + call2 else call2 + [PLUS] + call1
  }

  lemma {:induction false} JoinPair(x: string, y: string)
    ensures JoinSpec([x, y], [PLUS]) == x + [PLUS] + y
  {
    assert [x, y][1..] == [y];
  }

  /** For calls without '+' the index stands for the unordered pair. */
  lemma {:induction false} PairIndexIdentifies(a: string, b: string, c: string, d: string)
    requires PLUS !in a && PLUS !in b && PLUS !in c && PLUS !in d
    ensures PairIndex(a, b) == PairIndex(c, d) <==> {a, b} == {c, d}
  {
    hide Less, JoinSpec;
    var v, w := InOrder(a, b), InOrder(c, d);
    JoinPair(v[0], v[1]);
    JoinPair(w[0], w[1]);
    SplitOfJoin(v, PLUS);
    SplitOfJoin(w, PLUS);
    OrderedPairs(a, b, c, d);
  }

  function InOrder(a: string, b: string): seq<string> {
    if Less(a, b) then [a, b] else [b, a]
  }

  lemma {:induction false} OrderedPairs(a: string, b: string, c: string, d: string)
    ensures InOrder(a, b) == InOrder(c, d) <==> {a, b} == {c, d}
  {
    hide Less;
    LessTrichotomy(a, b);
    LessTrichotomy(c, d);
    if {a, b} == {c, d} {
      assert a in {c, d} && b in {c, d} && c in {a, b} && d in {a, b};
    }
    if InOrder(a, b) == InOrder(c, d) {
      var v, w := InOrder(a, b), InOrder(c, d);
      assert {a, b} == {v[0], v[1]} && {c, d} == {w[0], w[1]};
    }
  }

  /** With '+' in a call two different pairs can share an index. */
  lemma {:induction false} PairIndexAmbiguous()
    ensures PairIndex("A+B", "C") == PairIndex("A", "B+C") && {"A+B", "C"} != {"A", "B+C"}
  {
    assert "A+B"[0] == 'A' && "C"[0] == 'C' && "A"[0] == 'A' && "B+C"[0] == 'B';
    assert "A+B" != "A" && "A+B" != "B+C";
    assert "A+B" in {"A+B", "C"};
  }

  // ----- busts_database

  ghost predicate Call(c: string) { PLUS !in c }

  /** Two sets of index strings, filled as pairs of calls are looked at. */
  class BustsDatabase {
    var knownBusts: set<string>
    var knownNonBusts: set<string>

    /** What the strings say about pairs of calls is true. */
    ghost predicate Valid()
      reads this
    {
      forall a, b :: Call(a) && Call(b) ==>
        && (PairIndex(a, b) in knownBusts ==> OneEdit(a, b))
        && (PairIndex(a, b) in knownNonBusts ==> !OneEdit(a, b))
    }

    constructor ()
      ensures Valid() && knownBusts == {} && knownNonBusts == {}
    {
      knownBusts, knownNonBusts := {}, {};
    }

    method KnownBust(index: string)
      modifies this`knownBusts
      ensures knownBusts == old(knownBusts) + {index}
    {
      knownBusts := knownBusts + {index};
    }

    method KnownNonBust(index: string)
      modifies this`knownNonBusts
      ensures knownNonBusts == old(knownNonBusts) + {index}
    {
      knownNonBusts := knownNonBusts + {index};
    }

    /** The test that dynamic autocorrection makes of a posted call against a stored one:
        whether the stored call counts as a hit. The cache never changes the answer, and
        afterwards it knows the pair. */
    method IsHit(postCall: string, c: string) returns (hit: bool)
      requires Valid() && Call(postCall) && Call(c)
      modifies this
      ensures Valid()
      ensures hit <==> postCall == c || OneEdit(postCall, c)
      ensures old(knownBusts) <= knownBusts && old(knownNonBusts) <= knownNonBusts
      ensures postCall != c ==> PairIndex(postCall, c) in (if hit then knownBusts else knownNonBusts)
      ensures postCall == c ==> knownBusts == old(knownBusts) && knownNonBusts == old(knownNonBusts)
    {
      if postCall == c {
        return true;
      }
      var calls := PairIndex(postCall, c);
      if calls in knownBusts {
        return true;
      }
      if calls in knownNonBusts {
        return false;
      }
      SamePairSameAnswer(postCall, c);
      hit := IsBustCall(postCall, c);
      if hit {
        KnownBust(calls);
      } else {
        KnownNonBust(calls);
      }
    }
  }

  lemma {:induction false} SamePairSameAnswer(a: string, b: string)
    requires Call(a) && Call(b)
    ensures forall c, d :: Call(c) && Call(d) && PairIndex(c, d) == PairIndex(a, b) ==>
                             (OneEdit(c, d) <==> OneEdit(a, b))
  {
    hide OneEdit, PairIndex;
    forall c, d | Call(c) && Call(d) && PairIndex(c, d) == PairIndex(a, b) ensures OneEdit(c, d) <==> OneEdit(a, b) {
      PairIndexIdentifies(c, d, a, b);
      assert c in {a, b} && d in {a, b} && a in {c, d} && b in {c, d};
      OneEditSymmetric(a, b);
    }
  }

  ghost function Indices(pairs: seq<(string, string)>): set<string> {
    set k | 0 <= k < |pairs| :: PairIndex(pairs[k].0, pairs[k].1)
  }

  /** After any run of insertions the string set answers as a set of unordered pairs would. */
  lemma {:induction false} IndicesAreUnorderedPairs(pairs: seq<(string, string)>, a: string, b: string)
    requires Call(a) && Call(b) && forall k :: 0 <= k < |pairs| ==> Call(pairs[k].0) && Call(pairs[k].1)
    ensures PairIndex(a, b) in Indices(pairs) <==> exists k :: 0 <= k < |pairs| && {pairs[k].0, pairs[k].1} == {a, b}
  {
    forall k | 0 <= k < |pairs|
      ensures PairIndex(pairs[k].0, pairs[k].1) == PairIndex(a, b) <==> {pairs[k].0, pairs[k].1} == {a, b}
    {
      PairIndexIdentifies(pairs[k].0, pairs[k].1, a, b);
    }
  }

  // ----- bust_map

  ghost predicate Maps(m: map<string, set<string>>, a: string, b: string) {
    a in m && b in m[a]
  }

  /** Places i and j, in either order, hold a and b. */
  ghost predicate Holds(c: seq<string>, i: nat, j: nat, a: string, b: string) {
    i < |c| && j < |c| && ((c[i] == a && c[j] == b) || (c[i] == b && c[j] == a))
  }

  ghost predicate PairDone(c: seq<string>, bust: (string, string) -> bool, a: string, b: string, i: nat, j: nat) {
    exists k, l :: 0 <= k < l < |c| && (k < i || (k == i && l < j)) && bust(c[k], c[l]) && Holds(c, k, l, a, b)
  }

  function Add(m: map<string, set<string>>, key: string, v: string): map<string, set<string>> {
    m[key := (if key in m then m[key] else {}) + {v}]
  }

  /** Each pair of places is looked at once, yet the map is the whole relation. */
  method BustMap(container: seq<string>, bust: (string, string) -> bool) returns (rv: map<string, set<string>>)
    requires forall x, y :: bust(x, y) == bust(y, x)
    ensures forall a, b :: Maps(rv, a, b) <==>
              bust(a, b) &&
              exists i, j :: 0 <= i < |container| && 0 <= j < |container| && i != j &&
                             container[i] == a && container[j] == b
    ensures forall a :: a in rv ==> rv[a] != {}
  {
    rv := map[];
    for i := 0 to |container|
      invariant forall a, b :: Maps(rv, a, b) <==> PairDone(container, bust, a, b, i, 0)
      invariant forall a :: a in rv ==> rv[a] != {}
    {
      forall a, b ensures PairDone(container, bust, a, b, i, 0) <==> PairDone(container, bust, a, b, i, i + 1) {
        PairDoneRow(container, bust, a, b, i);
      }
      for j := i + 1 to |container|
        invariant forall a, b :: Maps(rv, a, b) <==> PairDone(container, bust, a, b, i, j)
        invariant forall a :: a in rv ==> rv[a] != {}
      {
        forall a, b ensures PairDone(container, bust, a, b, i, j + 1) <==>
                            PairDone(container, bust, a, b, i, j) ||
                            (bust(container[i], container[j]) && Holds(container, i, j, a, b)) {
          PairDoneStep(container, bust, a, b, i, j);
        }
        if bust(container[i], container[j]) {
          AddedBothWays(rv, container[i], container[j]);
          rv := Add(rv, container[i], container[j]);
          rv := Add(rv, container[j], container[i]);
        }
      }
      forall a, b ensures Maps(rv, a, b) <==> PairDone(container, bust, a, b, i + 1, 0) {
        PairDoneRow(container, bust, a, b, i);
      }
    }
    forall a, b ensures PairDone(container, bust, a, b, |container|, 0) <==>
        bust(a, b) &&
        exists i, j :: 0 <= i < |container| && 0 <= j < |container| && i != j &&
                       container[i] == a && container[j] == b {
      AllPairsDone(container, bust, a, b);
    }
  }

  lemma AddedBothWays(m: map<string, set<string>>, x: string, y: string)
    ensures var m' := Add(Add(m, x, y), y, x);
            && (forall a, b :: Maps(m', a, b) <==> Maps(m, a, b) || (a == x && b == y) || (a == y && b == x))
            && ((forall a :: a in m ==> m[a] != {}) ==> forall a :: a in m' ==> m'[a] != {})
  {
  }

  lemma PairDoneStep(c: seq<string>, bust: (string, string) -> bool, a: string, b: string, i: nat, j: nat)
    requires i < j < |c|
    ensures PairDone(c, bust, a, b, i, j + 1) <==>
            PairDone(c, bust, a, b, i, j) || (bust(c[i], c[j]) && Holds(c, i, j, a, b))
  {
  }

  lemma PairDoneRow(c: seq<string>, bust: (string, string) -> bool, a: string, b: string, i: nat)
    requires i < |c|
    ensures PairDone(c, bust, a, b, i, 0) <==> PairDone(c, bust, a, b, i, i + 1)
    ensures PairDone(c, bust, a, b, i, |c|) <==> PairDone(c, bust, a, b, i + 1, 0)
  {
  }

  lemma AllPairsDone(c: seq<string>, bust: (string, string) -> bool, a: string, b: string)
    requires forall x, y :: bust(x, y) == bust(y, x)
    ensures PairDone(c, bust, a, b, |c|, 0) <==>
            bust(a, b) && exists i, j :: 0 <= i < |c| && 0 <= j < |c| && i != j && c[i] == a && c[j] == b
  {
  }
}
