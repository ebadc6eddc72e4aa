/** The parts of std::string and of the "safe substring" helper on which the text
    functions rest. A search that finds nothing (npos) is None. */
module Text {
  datatype Option<+T> = None | Some(value: T)

  predicate OccursAt(s: string, t: string, i: int) {
    0 <= i && i + |t| <= |s| && s[i..i + |t|] == t
  }

  ghost predicate Contains(s: string, t: string) {
    exists i :: OccursAt(s, t, i)
  }

  /** std::string::find(t, from). */
  function Find(s: string, t: string, from: nat): (r: Option<nat>)
    ensures r.Some? ==>
              && from <= r.value
              && r.value + |t| <= |s|
              && OccursAt(s, t, r.value)
              && forall j :: from <= j < r.value ==> !OccursAt(s, t, j)
    ensures r.None? ==> forall j :: from <= j ==> !OccursAt(s, t, j)
    decreases |s| - from
  {
    if from + |t| > |s| then None
    else if OccursAt(s, t, from) then Some(from)
    else Find(s, t, from + 1)
  }

  lemma FindContains(s: string, t: string)
    ensures Find(s, t, 0).Some? <==> Contains(s, t)
  {
  }

  /** std::string::find(c, from). */
  function FindChar(s: string, c: char, from: nat): (r: Option<nat>)
    ensures r.Some? ==> from <= r.value < |s| && s[r.value] == c && (forall i :: from <= i < r.value ==> s[i] != c)
    ensures r.None? ==> forall i :: from <= i < |s| ==> s[i] != c
    decreases |s| - from
  {
    if from >= |s| then None
    else if s[from] == c then Some(from)
    else FindChar(s, c, from + 1)
  }

  /** std::string::find_first_not_of(c, from). */
  function FindNotChar(s: string, c: char, from: nat): (r: Option<nat>)
    ensures r.Some? ==> from <= r.value < |s| && s[r.value] != c && (forall i :: from <= i < r.value ==> s[i] == c)
    ensures r.None? ==> forall i :: from <= i < |s| ==> s[i] == c
    decreases |s| - from
  {
    if from >= |s| then None
    else if s[from] != c then Some(from)
    else FindNotChar(s, c, from + 1)
  }

  /** substring(str, start, length): never out of range, unlike substr. */
  function Substring(s: string, start: nat, length: nat): string {
    if start >= |s| then ""
    else if start + length >= |s| then s[start..]
    else s[start..start + length]
  }

  lemma {:induction false} SliceOfSlice(s: string, a: nat, b: nat, i: nat, j: nat)
    requires a <= b <= |s| && i <= j <= b - a
    ensures s[a..b][i..j] == s[a + i..a + j]
  {
    forall k | 0 <= k < j - i ensures s[a..b][i..j][k] == s[a + i..a + j][k] {
      assert s[a..b][i + k] == s[a + i + k];
    }
  }

  lemma {:induction false} SliceOfTail(s: string, a: nat, i: nat, j: nat)
    requires a <= |s| && i <= j <= |s| - a
    ensures s[a..][i..j] == s[a + i..a + j]
  {
    SliceOfSlice(s, a, |s|, i, j);
    assert s[a..] == s[a..|s|];
  }

  lemma TailOfTail(s: string, a: nat, i: nat)
    requires a + i <= |s|
    ensures s[a..][i..] == s[a + i..]
  {
  }

  function Concat(pieces: seq<string>): string {
    if pieces == [] then "" else pieces[0] + Concat(pieces[1..])
  }

  lemma {:induction false} ConcatAppend(v: seq<string>, w: seq<string>)
    ensures Concat(v + w) == Concat(v) + Concat(w)
  {
    if v == [] {
      assert v + w == w;
    } else {
      assert (v + w)[1..] == v[1..] + w;
      ConcatAppend(v[1..], w);
    }
  }

  /** A search result is determined by where the first occurrence is. */
  lemma {:induction false} FindIs(s: string, t: string, from: nat, p: nat)
    requires from <= p && OccursAt(s, t, p)
    requires forall j :: from <= j < p ==> !OccursAt(s, t, j)
    ensures Find(s, t, from) == Some(p)
  {
    var r := Find(s, t, from);
    assert r.Some?;
  }

  lemma {:induction false} FindCharIs(s: string, c: char, from: nat, p: nat)
    requires from <= p < |s| && s[p] == c && (forall i :: from <= i < p ==> s[i] != c)
    ensures FindChar(s, c, from) == Some(p)
  {
    var r := FindChar(s, c, from);
    assert r.Some? ==> !(r.value < p) && !(p < r.value);
  }

  /** Searching for a one-character string is searching for the character. */
  lemma {:induction false} FindOneChar(s: string, c: char, from: nat)
    ensures Find(s, [c], from) == FindChar(s, c, from)
  {
    forall j: nat | j < |s| ensures OccursAt(s, [c], j) <==> s[j] == c {
      assert s[j..j + 1] == [s[j]];
    }
    var r := FindChar(s, c, from);
    if r.Some? {
      FindIs(s, [c], from, r.value);
    }
  }

  /** operator< on strings. */
  predicate Less(a: string, b: string) {
    b != "" && (a == "" || a[0] < b[0] || (a[0] == b[0] && Less(a[1..], b[1..])))
  }

  /** Exactly one of a < b, a == b and b < a holds. */
  lemma {:induction false} LessTrichotomy(a: string, b: string)
    ensures Less(a, b) ==> a != b && !Less(b, a)
    ensures a == b || Less(a, b) || Less(b, a)
  {
    if a != "" && b != "" && a[0] == b[0] {
      LessTrichotomy(a[1..], b[1..]);
      assert a == [a[0]] + a[1..] && b == [b[0]] + b[1..];
    }
  }

  lemma {:induction false} LessTransitive(a: string, b: string, c: string)
    requires Less(a, b) && Less(b, c)
    ensures Less(a, c)
  {
    if a != "" && a[0] == b[0] == c[0] {
      LessTransitive(a[1..], b[1..], c[1..]);
    }
  }
}
