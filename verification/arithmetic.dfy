/** Small facts about products and quotients. */
module Arithmetic {
  function Power(b: nat, e: nat): nat {
    if e == 0 then 1 else b * Power(b, e - 1)
  }

  lemma MulLe(a: nat, x: int, y: int)
    requires x <= y
    ensures a * x <= a * y
  {
  }

  lemma MulPos(x: int, y: int)
    requires x > 0 && y > 0
    ensures x * y > 0
  {
  }

  lemma Distribute(a: int, x: int, y: int)
    ensures a * (x + y) == a * x + a * y
  {
  }

  lemma Reassociate(a: int, x: int, y: int)
    ensures a * (x * y) == (a * x) * y
  {
  }

  lemma {:induction false} PowerPositive(b: nat, e: nat)
    requires b > 0
    ensures Power(b, e) > 0
  {
    if e > 0 {
      PowerPositive(b, e - 1);
      MulPos(b, Power(b, e - 1));
    }
  }

  /** Quotient and remainder are unique. */
  lemma {:induction false} DivIs(x: int, d: int, q: int, m: int)
    requires 0 <= m < d && x == d * q + m
    ensures x / d == q && x % d == m
  {
    var q', m' := x / d, x % d;
    assert x == d * q' + m';
    if q' > q {
      MulLe(d, q + 1, q');
      Distribute(d, q, 1);
    }
    if q' < q {
      MulLe(d, q' + 1, q);
      Distribute(d, q', 1);
    }
  }

  lemma {:induction false} DivLe(x: int, y: int, d: int)
    requires d > 0 && x <= y
    ensures x / d <= y / d
  {
    if x / d > y / d {
      MulLe(d, y / d + 1, x / d);
      Distribute(d, y / d, 1);
    }
  }

  lemma {:induction false} DivDiv(x: nat, a: int, b: int)
    requires a > 0 && b > 0
    ensures a * b > 0 && x / (a * b) == (x / a) / b
  {
    MulPos(a, b);
    var y := x / a;
    var q, r1, r2 := y / b, x % a, y % b;
    Distribute(a, b * q, r2);
    Reassociate(a, b, q);
    MulLe(a, r2 + 1, b);
    Distribute(a, r2, 1);
    MulLe(a, 0, r2);
    DivIs(x, a * b, q, a * r2 + r1);
  }
}

/** The least and greatest elements of a finite set of integers. */
module Extrema {
  import opened Text

  lemma {:induction false} AnElement<T>(s: set<T>) returns (x: T)
    requires s != {}
    ensures x in s
  {
    x :| x in s;
  }

  lemma {:induction false} HasGreatest(s: set<int>) returns (g: int)
    requires s != {}
    ensures g in s && forall t :: t in s ==> t <= g
  {
    var x := AnElement(s);
    if s == {x} {
      g := x;
    } else {
      assert s - {x} != {} by { assert s == (s - {x}) + {x}; }
      g := HasGreatest(s - {x});
      g := if x > g then x else g;
      assert forall t :: t in s ==> t == x || t in s - {x};
    }
  }

  /** The greatest element, if any. */
  function Greatest(s: set<int>): (r: Option<int>)
    ensures s == {} <==> r.None?
    ensures r.Some? ==> r.value in s && forall t :: t in s ==> t <= r.value
  {
    if s == {} then None
    else
      assert exists g :: g in s && forall t :: t in s ==> t <= g by { var g := HasGreatest(s); }
      var g :| g in s && forall t :: t in s ==> t <= g;
      Some(g)
  }

  lemma {:induction false} HasLeast(s: set<int>) returns (g: int)
    requires s != {}
    ensures g in s && forall t :: t in s ==> g <= t
  {
    var negated := set t | t in s :: -t;
    var x := AnElement(s);
    assert -x in negated;
    var n := HasGreatest(negated);
    g := -n;
    assert forall t :: t in s ==> -t in negated;
  }

  function Least(s: set<int>): (r: Option<int>)
    ensures s == {} <==> r.None?
    ensures r.Some? ==> r.value in s && forall t :: t in s ==> r.value <= t
  {
    if s == {} then None
    else
      assert exists g :: g in s && forall t :: t in s ==> g <= t by { var g := HasLeast(s); }
      var g :| g in s && forall t :: t in s ==> g <= t;
      Some(g)
  }
}
