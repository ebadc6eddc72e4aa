/** exchange_field_values and INVERT_MAPPING: legal values by canonical value, and back. */
module Exchange {
  import opened Text

  type Values = map<string, set<string>>

  ghost predicate LegalFor(m: Values, cv: string, v: string) {
    cv in m && v in m[cv]
  }

  // ----- INVERT_MAPPING

  /** order is how a std::map with the keys of m is walked. */
  ghost predicate InOrder(m: Values, order: seq<string>) {
    && (forall k :: k in m <==> k in order)
    && (forall i, j :: 0 <= i < j < |order| ==> Less(order[i], order[j]))
  }

  ghost function AllOf(m: Values): set<string> {
    set k, v | k in m && v in m[k] :: v
  }

  /** Each value that occurs is sent to the least key whose set holds it. */
  ghost predicate LeastKeyInverse(m: Values, inv: map<string, string>) {
    && inv.Keys == AllOf(m)
    && (forall v :: v in inv ==> inv[v] in m && v in m[inv[v]])
    && (forall v, k :: v in inv && k in m && v in m[k] ==> !Less(k, inv[v]))
  }

  /** The inner loop: emplace leaves an existing entry alone. */
  method InvertOne(k1: string, v1: set<string>, before: map<string, string>) returns (rv: map<string, string>)
    ensures rv.Keys == before.Keys + v1
    ensures forall v :: v in rv ==> rv[v] == if v in before then before[v] else k1
  {
    rv := before;
    var todo := v1;
    while todo != {}
      invariant todo <= v1 && rv.Keys == before.Keys + (v1 - todo)
      invariant forall v :: v in rv ==> rv[v] == if v in before then before[v] else k1
      decreases todo
    {
      var v :| v in todo;
      if v !in rv {
        rv := rv[v := k1];
      }
      todo := todo - {v};
    }
  }

  /** Key number j of the walk is where v is first seen. */
  ghost predicate FirstAt(m: Values, order: seq<string>, v: string, j: nat) {
    && j < |order|
    && LegalFor(m, order[j], v)
    && forall l :: 0 <= l < j ==> !LegalFor(m, order[l], v)
  }

  /** The result after i keys of the walk. */
  ghost predicate InvertedSoFar(m: Values, order: seq<string>, i: nat, inv: map<string, string>) {
    && i <= |order|
    && (forall v :: v in inv ==> exists j :: 0 <= j < i && FirstAt(m, order, v, j) && inv[v] == order[j])
    && (forall v, j :: 0 <= j < i && LegalFor(m, order[j], v) ==> v in inv)
  }

  lemma InvertStep(m: Values, order: seq<string>, i: nat, before: map<string, string>, after: map<string, string>)
    requires i < |order| && order[i] in m && InvertedSoFar(m, order, i, before)
    requires after.Keys == before.Keys + m[order[i]]
    requires forall v :: v in after ==> after[v] == if v in before then before[v] else order[i]
    ensures InvertedSoFar(m, order, i + 1, after)
  {
  }

  lemma {:induction false} InvertDone(m: Values, order: seq<string>, inv: map<string, string>)
    requires InOrder(m, order) && InvertedSoFar(m, order, |order|, inv)
    ensures LeastKeyInverse(m, inv)
  {
    hide Less;
    forall v, k | k in m && v in m[k] ensures v in inv && !Less(k, inv[v]) {
      var l :| 0 <= l < |order| && order[l] == k;
      assert LegalFor(m, order[l], v);
      var j :| 0 <= j < |order| && FirstAt(m, order, v, j) && inv[v] == order[j];
      LessTrichotomy(order[j], order[l]);
    }
    forall v | v in inv ensures v in AllOf(m) && inv[v] in m && v in m[inv[v]] {
      var j :| 0 <= j < |order| && FirstAt(m, order, v, j) && inv[v] == order[j];
    }
  }

  method InvertMapping(original: Values, order: seq<string>) returns (rv: map<string, string>)
    requires InOrder(original, order)
    ensures LeastKeyInverse(original, rv)
  {
    hide Less, LeastKeyInverse, InvertedSoFar;
    rv := map[];
    assert InvertedSoFar(original, order, 0, rv) by { InvertNothing(original, order); }
    for i := 0 to |order|
      invariant InvertedSoFar(original, order, i, rv)
    {
      var next := InvertOne(order[i], original[order[i]], rv);
      InvertStep(original, order, i, rv, next);
      rv := next;
    }
    InvertDone(original, order, rv);
  }

  lemma InvertNothing(m: Values, order: seq<string>)
    ensures InvertedSoFar(m, order, 0, map[])
  {
  }

  /** There is only one such inverse. */
  lemma {:induction false} InverseUnique(m: Values, inv: map<string, string>, inv': map<string, string>)
    requires LeastKeyInverse(m, inv) && LeastKeyInverse(m, inv')
    ensures inv == inv'
  {
    forall v | v in inv ensures inv[v] == inv'[v] {
      LessTrichotomy(inv[v], inv'[v]);
    }
  }

  ghost function Regrouped(inv: map<string, string>, k: string): set<string> {
    set v | v in inv && inv[v] == k
  }

  ghost predicate NothingShared(m: Values, k: string, k': string) {
    k in m && k' in m && k != k' ==> m[k] !! m[k']
  }

  ghost predicate Disjoint(m: Values) {
    forall k, k' :: NothingShared(m, k, k')
  }

  /** Collecting the values by their key gives the original sets back exactly when no value
      belongs to two keys. */
  lemma {:induction false} RegroupingRestores(m: Values, inv: map<string, string>)
    requires LeastKeyInverse(m, inv)
    ensures (forall k :: k in m ==> Regrouped(inv, k) == m[k]) <==> Disjoint(m)
  {
    assert forall k, v :: k in m && v in m[k] ==> v in AllOf(m);
    if Disjoint(m) {
      forall k | k in m ensures Regrouped(inv, k) == m[k] {
        forall v | v in m[k] ensures v in inv && inv[v] == k {
          assert NothingShared(m, k, inv[v]);
        }
      }
    }
    if forall k :: k in m ==> Regrouped(inv, k) == m[k] {
      forall k, k' ensures NothingShared(m, k, k') {
        assert k != k' ==> Regrouped(inv, k) !! Regrouped(inv, k');
      }
    }
  }

  // ----- exchange_field_values

  /** What add_value does to the map. */
  function WithCanonical(m: Values, cv: string): Values {
    if cv in m then m else m[cv := {cv}]
  }

  function WithValue(m: Values, cv: string, v: string): Values {
    var m' := WithCanonical(m, cv);
    m'[cv := m'[cv] + {v}]
  }

  class ExchangeFieldValues {
    var values: Values

    constructor ()
      ensures values == map[]
    {
      values := map[];
    }

    method AddCanonicalValue(cv: string)
      modifies this
      ensures values == WithCanonical(old(values), cv)
    {
      if cv !in values {
        values := values[cv := {cv}];
      }
    }

    method AddValue(cv: string, v: string)
      modifies this
      ensures values == WithValue(old(values), cv, v)
    {
      AddCanonicalValue(cv);
      values := values[cv := values[cv] + {v}];
    }

    /** The number of values that are legal for cv; none are legal for an unknown one. */
    method NValues(cv: string) returns (n: nat)
      ensures n == |set v | v in AllOf(values) && LegalFor(values, cv, v)|
    {
      ghost var legal := set v | v in AllOf(values) && LegalFor(values, cv, v);
      if cv !in values {
        assert legal == {};
        return 0;
      }
      assert legal == values[cv];
      n := |values[cv]|;
    }

    method CanonicalValues() returns (rv: set<string>)
      ensures rv == values.Keys
    {
      rv := {};
      var todo := values.Keys;
      while todo != {}
        invariant todo <= values.Keys && rv == values.Keys - todo
        decreases todo
      {
        var cv :| cv in todo;
        rv := rv + {cv};
        todo := todo - {cv};
      }
    }

    method AllValues() returns (rv: set<string>)
      ensures rv == AllOf(values)
    {
      rv := {};
      var todo := values.Keys;
      while todo != {}
        invariant todo <= values.Keys
        invariant forall v :: v in rv <==> exists k :: k in values.Keys - todo && v in values[k]
        decreases todo
      {
        var cv :| cv in todo;
        ghost var done := values.Keys - todo;
        rv := rv + values[cv];
        todo := todo - {cv};
        assert values.Keys - todo == done + {cv};
      }
    }

    method IsLegalValueFor(cv: string, putative: string) returns (legal: bool)
      ensures legal <==> LegalFor(values, cv, putative)
    {
      legal := if cv in values then putative in values[cv] else false;
    }

    method IsLegalValue(value: string) returns (legal: bool)
      ensures legal <==> exists cv :: LegalFor(values, cv, value)
    {
      var todo := CanonicalValues();
      legal := false;
      while todo != {} && !legal
        invariant todo <= values.Keys
        invariant legal ==> exists cv :: LegalFor(values, cv, value)
        invariant !legal ==> forall cv :: cv in values && cv !in todo ==> !LegalFor(values, cv, value)
        decreases todo
      {
        var cv :| cv in todo;
        legal := IsLegalValueFor(cv, value);
        todo := todo - {cv};
      }
    }
  }

  /** A value is legal for some canonical value, listed among all the values, and known to
      the inverse, all at once or not at all. */
  lemma {:induction false} LegalityAgrees(m: Values, inv: map<string, string>, v: string)
    requires LeastKeyInverse(m, inv)
    ensures (exists cv :: LegalFor(m, cv, v)) <==> v in AllOf(m)
    ensures v in AllOf(m) <==> v in inv
  {
    if cv :| LegalFor(m, cv, v) {
      assert cv in m && v in m[cv];
    }
    if v in AllOf(m) {
      var cv :| cv in m && v in m[cv];
      assert LegalFor(m, cv, v);
    }
  }

  ghost function AfterAdds(adds: seq<(string, string)>): Values {
    if adds == [] then map[]
    else WithValue(AfterAdds(adds[..|adds| - 1]), adds[|adds| - 1].0, adds[|adds| - 1].1)
  }

  /** cv was named by addition number i, with v or as v itself. */
  ghost predicate AddedAt(adds: seq<(string, string)>, i: nat, cv: string, v: string) {
    i < |adds| && adds[i].0 == cv && (v == cv || adds[i].1 == v)
  }

  /** After any run of additions from empty, the values legal for a canonical value are
      itself and what was added to it, and nothing if it was never named. */
  lemma {:induction false} AddsRun(adds: seq<(string, string)>, cv: string, v: string)
    ensures LegalFor(AfterAdds(adds), cv, v) <==> exists i: nat :: AddedAt(adds, i, cv, v)
    ensures cv in AfterAdds(adds) <==> exists i: nat :: AddedAt(adds, i, cv, cv)
  {
    if adds != [] {
      var last := |adds| - 1;
      var before := adds[..last];
      AddsRun(before, cv, v);
      AddedSnoc(before, adds[last], cv, v);
      AddedSnoc(before, adds[last], cv, cv);
      AddsRun(before, cv, cv);
      assert adds == before + [adds[last]];
      WithValueLegal(AfterAdds(before), adds[last].0, adds[last].1, cv, v);
    }
  }

  lemma {:induction false} AddedSnoc(before: seq<(string, string)>, x: (string, string), cv: string, w: string)
    ensures (exists i: nat :: AddedAt(before + [x], i, cv, w)) <==>
            (exists i: nat :: AddedAt(before, i, cv, w)) || (x.0 == cv && (w == cv || x.1 == w))
  {
    var adds, last := before + [x], |before|;
    if i: nat :| AddedAt(before, i, cv, w) {
      assert AddedAt(adds, i, cv, w);
    }
    if i: nat :| AddedAt(adds, i, cv, w) && i < last {
      assert AddedAt(before, i, cv, w);
    }
    assert AddedAt(adds, last, cv, w) <==> x.0 == cv && (w == cv || x.1 == w);
  }

  lemma WithValueLegal(m: Values, c: string, x: string, cv: string, v: string)
    ensures LegalFor(WithValue(m, c, x), cv, v) <==>
            LegalFor(m, cv, v) || (cv == c && (v == x || (cv !in m && v == cv)))
    ensures cv in WithValue(m, c, x) <==> cv in m || cv == c
  {
  }
}
