/** separated_string: decimal numbers with a separator before every third digit from the right. */
module Grouping {
  import opened Text
  import opened Arithmetic
  import opened Numbers
  import opened Splitting

  /** t with sep before every third character, counted from the end. */
  function Grouped(t: string, sep: char): string {
    if |t| <= 3 then t else Grouped(t[..|t| - 3], sep) + [sep] + t[|t| - 3..]
  }

  ghost function Groups(t: string): (g: seq<string>)
    ensures g != []
  {
    if |t| <= 3 then [t] else Groups(t[..|t| - 3]) + [t[|t| - 3..]]
  }

  /** Group number k, counted from the right. */
  function FromRight(g: seq<string>, k: nat): string
    requires k < |g|
  {
    g[|g| - 1 - k]
  }

  /** What is left to group, and the grouped text to its right. */
  ghost predicate Assembled(text: string, left: string, right: string, sep: char) {
    Grouped(text, sep) == (if left == "" then "" else Grouped(left, sep)) + right
  }

  /** The characters taken from the end of before have gone to the front of right. */
  ghost predicate Taking(before: string, right: string, tmp: string, taken: string, rv: string) {
    before == tmp + taken && rv == taken + right
  }

  method SeparatedString(n: int, sep: char) returns (rv: string)
    ensures rv == Grouped(ToString(n), sep)
  {
    ghost var text := ToString(n);
    var tmp := ToString(n);
    assert tmp != "";
    hide *;
    rv := "";
    StartGrouping(text, sep);
    while tmp != ""
      invariant Assembled(text, tmp, rv, sep)
      decreases |tmp|
    {
      ghost var before, right := tmp, rv;
      ghost var taken := "";
      var N := 0;
      StartTaking(before, right);
      while N < 3 && tmp != ""
        invariant N == |taken| <= 3 && |tmp| == |before| - N && Taking(before, right, tmp, taken, rv)
      {
        TakeOne(before, right, tmp, taken, rv);
        taken := [tmp[|tmp| - 1]] + taken;
        rv := [tmp[|tmp| - 1]] + rv;
        tmp := Substring(tmp, 0, |tmp| - 1);
        N := N + 1;
      }
      GroupStep(text, before, right, tmp, taken, rv, sep);
      if tmp != "" {
        rv := [sep] + rv;
      }
    }
    GroupedAll(text, rv, sep);
  }

  lemma StartGrouping(text: string, sep: char)
    requires text != ""
    ensures Assembled(text, text, "", sep)
  {
  }

  lemma GroupedAll(text: string, rv: string, sep: char)
    requires Assembled(text, "", rv, sep)
    ensures rv == Grouped(text, sep)
  {
  }

  lemma StartTaking(before: string, right: string)
    ensures Taking(before, right, before, "", right)
  {
  }

  lemma TakeOne(before: string, right: string, tmp: string, taken: string, rv: string)
    requires Taking(before, right, tmp, taken, rv) && tmp != ""
    ensures var c := [tmp[|tmp| - 1]]; var rest := Substring(tmp, 0, |tmp| - 1);
            |rest| == |tmp| - 1 && Taking(before, right, rest, c + taken, c + rv)
  {
  }

  lemma GroupStep(text: string, before: string, right: string, tmp: string, taken: string, rv: string, sep: char)
    requires Assembled(text, before, right, sep) && before != ""
    requires Taking(before, right, tmp, taken, rv) && |taken| <= 3 && (tmp != "" ==> |taken| == 3)
    ensures Assembled(text, tmp, if tmp == "" then rv else [sep] + rv, sep)
  {
  }

  lemma {:induction false} GroupedIsJoined(t: string, sep: char)
    ensures Grouped(t, sep) == JoinSpec(Groups(t), [sep])
  {
    if |t| > 3 {
      GroupedIsJoined(t[..|t| - 3], sep);
      JoinSnoc(Groups(t[..|t| - 3]), t[|t| - 3..], [sep]);
    }
  }

  lemma {:induction false} GroupShapes(t: string)
    requires t != ""
    ensures var g := Groups(t);
            && |g| == (|t| + 2) / 3
            && 1 <= |g[0]| <= 3
            && (forall i :: 0 < i < |g| ==> |g[i]| == 3)
            && (forall i :: 0 <= i < |g| ==> forall c :: c in g[i] ==> c in t)
            && Concat(g) == t
  {
    hide Concat;
    if |t| > 3 {
      var a, b := t[..|t| - 3], t[|t| - 3..];
      GroupShapes(a);
      var g := Groups(t);
      assert g == Groups(a) + [b];
      hide Groups;
      assert forall i :: 0 <= i < |g| - 1 ==> g[i] == Groups(a)[i];
      ConcatAppend(Groups(a), [b]);
      ConcatOne(b);
      assert t == a + b;
    } else {
      ConcatOne(t);
    }
  }

  lemma {:induction false} ConcatOne(t: string)
    ensures Concat([t]) == t
  {
    assert Concat([t][1..]) == "";
  }

  lemma {:induction false} GroupValue(t: string, k: nat)
    requires t != "" && AllDigits(t) && k < |Groups(t)|
    ensures AllDigits(FromRight(Groups(t), k))
    ensures Value(FromRight(Groups(t), k)) == Value(t) / PowerPos(1000, k) % 1000
    decreases k
  {
    hide Value, Power;
    if |t| > 3 {
      var a, b := t[..|t| - 3], t[|t| - 3..];
      SplitValue(t, a, b);
      if k > 0 {
        GroupValue(a, k - 1);
        NextPower(Value(t), k);
      } else {
        DivByOne(Value(t));
      }
    } else {
      SmallValue(t);
      DivByOne(Value(t));
    }
  }

  lemma {:induction false} SplitValue(t: string, a: string, b: string)
    requires AllDigits(t) && t == a + b && |b| == 3
    ensures AllDigits(a) && AllDigits(b)
    ensures Value(t) / 1000 == Value(a) && Value(t) % 1000 == Value(b)
  {
    DigitsOfParts(t, a, b);
    hide *;
    JoinThreeDigits(a, b);
    DivIs(Value(t), 1000, Value(a), Value(b));
  }

  lemma {:induction false} JoinThreeDigits(a: string, b: string)
    requires AllDigits(a) && AllDigits(b) && |b| == 3
    ensures AllDigits(a + b) && Value(a + b) == 1000 * Value(a) + Value(b) && Value(b) < 1000
  {
    PowersOfTen();
    hide *;
    ValueOfConcat(a, b);
    assert Power(10, |b|) == 1000;
  }

  lemma {:induction false} DigitsOfParts(t: string, a: string, b: string)
    requires AllDigits(t) && t == a + b
    ensures AllDigits(a) && AllDigits(b)
  {
    assert forall i :: 0 <= i < |a| ==> a[i] == t[i];
    assert forall i :: 0 <= i < |b| ==> b[i] == t[|a| + i];
  }

  lemma {:induction false} PowersOfTen()
    ensures Power(10, 0) == 1 && Power(10, 1) == 10 && Power(10, 2) == 100 && Power(10, 3) == 1000
  {
    assert Power(10, 1) == 10 * Power(10, 0);
    assert Power(10, 2) == 10 * Power(10, 1);
    assert Power(10, 3) == 10 * Power(10, 2);
  }

  lemma {:induction false} NextPower(v: nat, k: nat)
    requires k > 0
    ensures v / PowerPos(1000, k) == v / 1000 / PowerPos(1000, k - 1)
  {
    DivDiv(v, 1000, PowerPos(1000, k - 1));
  }

  lemma {:induction false} DivByOne(v: nat)
    ensures v / PowerPos(1000, 0) == v
  {
    DivIs(v, 1, v, 0);
  }

  lemma {:induction false} SmallValue(t: string)
    requires AllDigits(t) && |t| <= 3
    ensures Value(t) < 1000
  {
    ValueOfConcat("", t);
    PowersOfTen();
  }

  function PowerPos(b: nat, e: nat): (p: nat)
    requires b > 0
    ensures p > 0 && p == Power(b, e)
  {
    PowerPositive(b, e);
    Power(b, e)
  }

  lemma {:induction false} SplitGrouped(t: string, sep: char)
    requires t != "" && sep !in t
    ensures Split(Grouped(t, sep), sep) == Groups(t)
  {
    hide Groups, Grouped, Split, JoinSpec;
    GroupedIsJoined(t, sep);
    GroupShapes(t);
    SplitOfJoin(Groups(t), sep);
  }

  /** The groups between the separators are the base-1000 digits of the number. */
  lemma {:induction false} SeparatedIsBaseThousand(n: nat, sep: char)
    requires !IsDigit(sep)
    ensures var g := Split(Grouped(Decimal(n), sep), sep);
            && |g| == (|Decimal(n)| + 2) / 3
            && 1 <= |g[0]| <= 3 && (forall i :: 0 < i < |g| ==> |g[i]| == 3)
            && Concat(g) == Decimal(n)
            && (forall k :: 0 <= k < |g| ==>
                  && AllDigits(FromRight(g, k))
                  && Value(FromRight(g, k)) == n / PowerPos(1000, k) % 1000)
  {
    hide Value, Decimal, Groups, Grouped, PowerPos, Split, Concat;
    var t := Decimal(n);
    SplitGrouped(t, sep);
    GroupShapes(t);
    ValueOfDecimal(n);
    forall k | 0 <= k < |Groups(t)|
      ensures AllDigits(FromRight(Groups(t), k))
      ensures Value(FromRight(Groups(t), k)) == n / PowerPos(1000, k) % 1000
    {
      GroupValue(t, k);
    }
  }

  /** remove_char. */
  function RemoveChar(s: string, c: char): string {
    if s == "" then "" else (if s[0] == c then "" else [s[0]]) + RemoveChar(s[1..], c)
  }

  lemma {:induction false} RemoveCharConcat(a: string, b: string, c: char)
    ensures RemoveChar(a + b, c) == RemoveChar(a, c) + RemoveChar(b, c)
  {
    if a == "" {
      assert a + b == b;
    } else {
      assert (a + b)[1..] == a[1..] + b;
      RemoveCharConcat(a[1..], b, c);
    }
  }

  lemma {:induction false} RemoveAbsent(s: string, c: char)
    requires c !in s
    ensures RemoveChar(s, c) == s
  {
    if s != "" { RemoveAbsent(s[1..], c); }
  }

  lemma {:induction false} RemoveSeparators(t: string, sep: char)
    requires sep !in t
    ensures RemoveChar(Grouped(t, sep), sep) == t
  {
    if |t| <= 3 {
      RemoveAbsent(t, sep);
    } else {
      var a, b := t[..|t| - 3], t[|t| - 3..];
      RemoveSeparators(a, sep);
      RemoveAbsent(b, sep);
      assert Grouped(t, sep) == Grouped(a, sep) + [sep] + b;
      RemoveOne(sep);
      hide RemoveChar, Grouped;
      RemoveCharConcat(Grouped(a, sep) + [sep], b, sep);
      RemoveCharConcat(Grouped(a, sep), [sep], sep);
      assert t == a + "" + b;
    }
  }

  lemma RemoveOne(c: char)
    ensures RemoveChar([c], c) == ""
  {
  }

  /** Deleting the separators gives the printed number back, sign included. */
  lemma {:induction false} SeparatedRoundTrip(n: int, sep: char)
    requires !IsDigit(sep) && sep != '-'
    ensures RemoveChar(Grouped(ToString(n), sep), sep) == ToString(n)
  {
    assert sep !in ToString(n);
    RemoveSeparators(ToString(n), sep);
  }

  lemma {:induction false} SignedGroups(t: string, sep: char)
    requires t != ""
    ensures Grouped("-" + t, sep) == if |t| % 3 == 0 then "-" + [sep] + Grouped(t, sep) else "-" + Grouped(t, sep)
  {
    var s := "-" + t;
    if |t| >= 3 {
      var a, b := t[..|t| - 3], t[|t| - 3..];
      assert s[..|s| - 3] == "-" + a && s[|s| - 3..] == b;
      if a == "" {
        assert "-" + a == "-" && t == b;
        assert Grouped(s, sep) == Grouped("-" + a, sep) + [sep] + b;
      } else {
        SignedGroups(a, sep);
      }
    }
  }

  /** A negative number prints as its sign and the grouped absolute value exactly when the
      number of digits is not a multiple of three; otherwise a separator follows the sign. */
  lemma {:induction false} NegativeSeparated(n: int, sep: char)
    requires n < 0
    ensures Grouped(ToString(n), sep) == "-" + Grouped(Decimal(-n), sep) <==> |Decimal(-n)| % 3 != 0
  {
    SignedGroups(Decimal(-n), sep);
  }
}
