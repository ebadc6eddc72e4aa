/** delimited_substrings and delimit: scanning a text for what lies between delimiters. */
module Delimited {
  import opened Text
  import opened Splitting

  /** A text taken apart as filler, opening delimiter, piece, closing delimiter, ..., tail. */
  datatype Scan = Scan(fillers: seq<string>, pieces: seq<string>, tail: string)

  /** What the scanner sees from position start on. */
  function ScanFrom(s: string, d1: string, d2: string, start: nat): (sc: Scan)
    requires start <= |s| && |d1| + |d2| > 0
    ensures |sc.fillers| == |sc.pieces|
    decreases |s| - start
  {
    match Find(s, d1, start)
    case None => Scan([], [], s[start..])
    case Some(p1) =>
      match Find(s, d2, p1 + |d1|)
      case None => Scan([], [], s[start..])
      case Some(p2) =>
        var rest := ScanFrom(s, d1, d2, p2 + |d2|);
        Scan([s[start..p1]] + rest.fillers, [s[p1 + |d1|..p2]] + rest.pieces, rest.tail)
  }

  ghost function Reassemble(sc: Scan, d1: string, d2: string): string
    requires |sc.fillers| == |sc.pieces|
    decreases |sc.pieces|
  {
    if sc.pieces == [] then sc.tail
    else sc.fillers[0] + d1 + (sc.pieces[0] + d2 + Reassemble(Rest(sc), d1, d2))
  }

  ghost function Rest(sc: Scan): Scan
    requires |sc.fillers| == |sc.pieces| > 0
  {
    Scan(sc.fillers[1..], sc.pieces[1..], sc.tail)
  }

  /** Followed by d, x shows d for the first time at its own end. */
  ghost predicate Closes(x: string, d: string) {
    forall j :: 0 <= j < |x| ==> !OccursAt(x + d, d, j)
  }

  /** Each delimiter is the first one after what precedes it, and the tail holds no
      opening delimiter that is closed later. */
  ghost predicate Decomposition(sc: Scan, d1: string, d2: string) {
    && |sc.fillers| == |sc.pieces|
    && (forall k :: 0 <= k < |sc.fillers| ==> Closes(sc.fillers[k], d1))
    && (forall k :: 0 <= k < |sc.pieces| ==> Closes(sc.pieces[k], d2))
    && NoPair(sc.tail, d1, d2)
  }

  ghost predicate NoPair(s: string, d1: string, d2: string) {
    forall i, j :: OccursAt(s, d1, i) && OccursAt(s, d2, j) ==> j < i + |d1|
  }

  // ----- the loops

  /** Positions found in a suffix are positions in the text, less where the suffix starts. */
  lemma {:induction false} FindInSuffix(s: string, t: string, start: nat, from: nat)
    requires start <= |s|
    ensures match Find(s[start..], t, from)
            case None => Find(s, t, start + from) == None
            case Some(p) => Find(s, t, start + from) == Some(start + p)
  {
    var suffix := s[start..];
    forall i: nat ensures OccursAt(suffix, t, i) <==> OccursAt(s, t, start + i) {
      if i + |t| <= |suffix| {
        assert suffix[i..i + |t|] == s[start + i..start + i + |t|];
      }
    }
    var r := Find(suffix, t, from);
    if r.Some? {
      forall j | start + from <= j < start + r.value ensures !OccursAt(s, t, j) {
        assert !OccursAt(suffix, t, j - start);
      }
      FindIs(s, t, start + from, start + r.value);
    } else {
      forall j | start + from <= j ensures !OccursAt(s, t, j) {
        assert !OccursAt(suffix, t, j - start);
      }
    }
  }

  lemma {:induction false} ScanStep(s: string, d1: string, d2: string, start: nat, p1: nat, p2: nat,
                                    done: seq<string>, all: seq<string>)
    requires start <= |s| && |d1| + |d2| > 0
    requires Find(s, d1, start) == Some(p1) && Find(s, d2, p1 + |d1|) == Some(p2)
    requires Parts(all, done, ScanFrom(s, d1, d2, start).pieces)
    ensures Parts(all, done + [s[p1 + |d1|..p2]], ScanFrom(s, d1, d2, p2 + |d2|).pieces)
  {
    hide Find, OccursAt;
  }

  /** Both scanners: what they return, given the pieces. */
  ghost function Wrapped(pieces: seq<string>, before: string, after: string): seq<string> {
    seq(|pieces|, i requires 0 <= i < |pieces| => before + pieces[i] + after)
  }

  lemma WrappedSnoc(v: seq<string>, x: string, before: string, after: string)
    ensures Wrapped(v + [x], before, after) == Wrapped(v, before, after) + [before + x + after]
  {
  }

  lemma {:induction false} WrappedInNothing(v: seq<string>)
    ensures Wrapped(v, "", "") == v
  {
    assert forall i :: 0 <= i < |v| ==> "" + v[i] + "" == v[i];
  }

  /** delimited_substrings with string delimiters. */
  method DelimitedSubstrings(cs: string, delim1: string, delim2: string, rule: Delimiters) returns (rv: seq<string>)
    requires |delim1| + |delim2| > 0
    ensures var pieces := ScanFrom(cs, delim1, delim2, 0).pieces;
            rv == if rule.Drop? then pieces else Wrapped(pieces, delim1, delim2)
  {
    hide Find, OccursAt, ScanFrom, Wrapped, NothingFrom, Parts;
    var before, after := if rule.Keep? then delim1 else "", if rule.Keep? then delim2 else "";
    ghost var all := ScanFrom(cs, delim1, delim2, 0).pieces;
    ghost var done: seq<string> := [];
    rv := [];
    var csStartPosn := 0;
    WrappedInNothing(all);
    PartsEnds(all);
    assert rv == Wrapped(done, before, after) by { WrappedEmpty(before, after); }
    while Substring(cs, csStartPosn, |cs|) != ""
      invariant csStartPosn <= |cs|
      invariant Parts(all, done, ScanFrom(cs, delim1, delim2, csStartPosn).pieces)
      invariant rv == Wrapped(done, before, after)
      decreases |cs| - csStartPosn
    {
      var sstring := Substring(cs, csStartPosn, |cs|);
      assert sstring == cs[csStartPosn..];
      FindInSuffix(cs, delim1, csStartPosn, 0);
      var delim1Posn := Find(sstring, delim1, 0);
      if delim1Posn.None? {
        NothingMeans(cs, delim1, delim2, csStartPosn);
        ScanEnds(cs, delim1, delim2, csStartPosn);
        PartsWhole(all, done);
        return;
      }
      FindInSuffix(cs, delim2, csStartPosn, delim1Posn.value + |delim1|);
      var delim2Posn := Find(sstring, delim2, delim1Posn.value + |delim1|);
      if delim2Posn.None? {
        NothingMeans(cs, delim1, delim2, csStartPosn);
        ScanEnds(cs, delim1, delim2, csStartPosn);
        PartsWhole(all, done);
        return;
      }
      var p1, p2 := delim1Posn.value, delim2Posn.value;
      ScanStep(cs, delim1, delim2, csStartPosn, csStartPosn + p1, csStartPosn + p2, done, all);
      ghost var piece := cs[csStartPosn + p1 + |delim1|..csStartPosn + p2];
      WrappedSnoc(done, piece, before, after);
      FoundIsWrapped(cs, csStartPosn, delim1, delim2, p1, p2);
      if rule.Drop? {
        rv := rv + [sstring[p1 + |delim1|..p2]];
      } else {
        rv := rv + [sstring[p1..p2 + |delim2|]];
      }
      done := done + [piece];
      csStartPosn := csStartPosn + p2 + |delim2|;
    }
    NothingAtEnd(cs, delim1, delim2);
    ScanEnds(cs, delim1, delim2, |cs|);
    PartsWhole(all, done);
  }

  lemma WrappedEmpty(before: string, after: string)
    ensures Wrapped([], before, after) == []
  {
  }

  lemma {:induction false} FoundIsWrapped(cs: string, start: nat, d1: string, d2: string, p1: nat, p2: nat)
    requires start <= |cs| && p1 + |d1| <= p2
    requires OccursAt(cs[start..], d1, p1) && OccursAt(cs[start..], d2, p2)
    ensures start + p2 + |d2| <= |cs|
    ensures var s, piece := cs[start..], cs[start + p1 + |d1|..start + p2];
            && s[p1 + |d1|..p2] == "" + piece + ""
            && s[p1..p2 + |d2|] == d1 + piece + d2
  {
    var s := cs[start..];
    assert s[p1..p2 + |d2|] == s[p1..p1 + |d1|] + s[p1 + |d1|..p2] + s[p2..p2 + |d2|];
  }

  lemma FoundIsWrappedChar(cs: string, start: nat, d1: char, p1: nat, p2: nat)
    requires start <= |cs| && p1 < p2 < |cs| - start
    requires cs[start..][p1] == d1
    ensures var s, piece := cs[start..], cs[start + p1 + 1..start + p2];
            && s[p1 + 1..p2] == "" + piece + ""
            && s[p1..p2] == [d1] + piece + ""
  {
  }

  ghost predicate NothingFrom(s: string, d1: string, d2: string, start: nat) {
    var r1 := Find(s, d1, start);
    r1.None? || Find(s, d2, r1.value + |d1|).None?
  }

  lemma {:induction false} ScanEnds(s: string, d1: string, d2: string, start: nat)
    requires start <= |s| && |d1| + |d2| > 0
    requires NothingFrom(s, d1, d2, start)
    ensures ScanFrom(s, d1, d2, start) == Scan([], [], s[start..])
  {
    hide Find, OccursAt;
  }

  lemma {:induction false} NothingMeans(s: string, d1: string, d2: string, start: nat)
    ensures NothingFrom(s, d1, d2, start) <==>
            match Find(s, d1, start) case None => true case Some(p1) => Find(s, d2, p1 + |d1|).None?
  {
    hide Find, OccursAt;
  }

  lemma NothingAtEnd(s: string, d1: string, d2: string)
    requires |d1| + |d2| > 0
    ensures NothingFrom(s, d1, d2, |s|)
  {
  }

  /** delimited_substrings with character delimiters. In KEEP mode the code leaves the
      closing delimiter out. */
  method DelimitedSubstringsChar(cs: string, delim1: char, delim2: char, rule: Delimiters) returns (rv: seq<string>)
    ensures var pieces := ScanFrom(cs, [delim1], [delim2], 0).pieces;
            rv == if rule.Drop? then pieces else Wrapped(pieces, [delim1], "")
  {
    hide Find, FindChar, OccursAt, ScanFrom, Wrapped, NothingFrom, Parts;
    var before := if rule.Keep? then [delim1] else "";
    ghost var all := ScanFrom(cs, [delim1], [delim2], 0).pieces;
    ghost var done: seq<string> := [];
    rv := [];
    var startPosn := 0;
    WrappedInNothing(all);
    PartsEnds(all);
    WrappedEmpty(before, "");
    while startPosn < |cs| && Substring(cs, startPosn, |cs|) != ""
      invariant startPosn <= |cs|
      invariant Parts(all, done, ScanFrom(cs, [delim1], [delim2], startPosn).pieces)
      invariant rv == Wrapped(done, before, "")
      decreases |cs| - startPosn
    {
      var sstring := Substring(cs, startPosn, |cs|);
      assert sstring == cs[startPosn..];
      FindOneChar(sstring, delim1, 0);
      FindInSuffix(cs, [delim1], startPosn, 0);
      var delim1Posn := FindChar(sstring, delim1, 0);
      if delim1Posn.None? {
        NothingMeans(cs, [delim1], [delim2], startPosn);
        ScanEnds(cs, [delim1], [delim2], startPosn);
        PartsWhole(all, done);
        return;
      }
      FindOneChar(sstring, delim2, delim1Posn.value + 1);
      FindInSuffix(cs, [delim2], startPosn, delim1Posn.value + 1);
      var delim2Posn := FindChar(sstring, delim2, delim1Posn.value + 1);
      if delim2Posn.None? {
        NothingMeans(cs, [delim1], [delim2], startPosn);
        ScanEnds(cs, [delim1], [delim2], startPosn);
        PartsWhole(all, done);
        return;
      }
      var p1, p2 := delim1Posn.value, delim2Posn.value;
      ScanStep(cs, [delim1], [delim2], startPosn, startPosn + p1, startPosn + p2, done, all);
      ghost var piece := cs[startPosn + p1 + 1..startPosn + p2];
      WrappedSnoc(done, piece, before, "");
      FoundIsWrappedChar(cs, startPosn, delim1, p1, p2);
      if rule.Keep? {
        rv := rv + [sstring[p1..p2]];
      } else {
        rv := rv + [sstring[p1 + 1..p2]];
      }
      done := done + [piece];
      startPosn := startPosn + p2 + 1;
    }
    NothingAtEnd(cs, [delim1], [delim2]);
    ScanEnds(cs, [delim1], [delim2], |cs|);
    PartsWhole(all, done);
  }

  // ----- the scanner finds the one and only decomposition

  lemma {:induction false} BeforeFirstCloses(s: string, d: string, start: nat, p: nat)
    requires Find(s, d, start) == Some(p)
    ensures Closes(s[start..p], d)
  {
    hide Find;
    var x := s[start..p];
    assert s[p..p + |d|] == d;
    assert x + d == s[start..p + |d|];
    forall j | 0 <= j < |x| ensures !OccursAt(x + d, d, j) {
      var i := start + j;
      assert !OccursAt(s, d, i);
      if j + |d| <= |x + d| {
        SliceOfSlice(s, start, p + |d|, j, j + |d|);
      }
    }
  }

  lemma {:induction false} ScanUnfolds(s: string, d1: string, d2: string, start: nat, p1: nat, p2: nat)
    requires start <= |s| && |d1| + |d2| > 0
    requires Find(s, d1, start) == Some(p1) && Find(s, d2, p1 + |d1|) == Some(p2)
    ensures ScanFrom(s, d1, d2, start) == ScanCons(s[start..p1], s[p1 + |d1|..p2], ScanFrom(s, d1, d2, p2 + |d2|))
  {
    hide Find;
  }

  lemma {:induction false} ScanDecomposesFrom(s: string, d1: string, d2: string, start: nat)
    requires start <= |s| && |d1| + |d2| > 0
    ensures Decomposition(ScanFrom(s, d1, d2, start), d1, d2)
    ensures Reassemble(ScanFrom(s, d1, d2, start), d1, d2) == s[start..]
    decreases |s| - start
  {
    hide Find, OccursAt, Closes, NoPair, ScanFrom;
    var r1 := Find(s, d1, start);
    var r2 := if r1.Some? then Find(s, d2, r1.value + |d1|) else None;
    if r2.Some? {
      var p1, p2 := r1.value, r2.value;
      hide Decomposition, Reassemble;
      ScanDecomposesFrom(s, d1, d2, p2 + |d2|);
      BeforeFirstCloses(s, d1, start, p1);
      BeforeFirstCloses(s, d2, p1 + |d1|, p2);
      ScanUnfolds(s, d1, d2, start, p1, p2);
      ScanConsDecomposition(s[start..p1], s[p1 + |d1|..p2], ScanFrom(s, d1, d2, p2 + |d2|), d1, d2);
      SuffixPieces(s, d1, d2, start, p1, p2);
    } else {
      ScanEnds(s, d1, d2, start);
      NoPairFound(s, d1, d2, start);
    }
  }

  ghost function ScanCons(f: string, p: string, sc: Scan): Scan {
    Scan([f] + sc.fillers, [p] + sc.pieces, sc.tail)
  }

  lemma ScanConsDecomposition(f: string, p: string, sc: Scan, d1: string, d2: string)
    requires Decomposition(sc, d1, d2) && Closes(f, d1) && Closes(p, d2)
    ensures Decomposition(ScanCons(f, p, sc), d1, d2)
    ensures Reassemble(ScanCons(f, p, sc), d1, d2) == f + d1 + (p + d2 + Reassemble(sc, d1, d2))
  {
  }

  lemma {:induction false} SuffixPieces(s: string, d1: string, d2: string, start: nat, p1: nat, p2: nat)
    requires start <= p1 && p1 + |d1| <= p2 && OccursAt(s, d1, p1) && OccursAt(s, d2, p2)
    ensures p2 + |d2| <= |s|
    ensures s[start..] == s[start..p1] + d1 + (s[p1 + |d1|..p2] + d2 + s[p2 + |d2|..])
  {
    assert s[start..] == s[start..p1] + s[p1..p1 + |d1|] + (s[p1 + |d1|..p2] + s[p2..p2 + |d2|] + s[p2 + |d2|..]);
  }

  lemma {:induction false} NoPairFound(s: string, d1: string, d2: string, start: nat)
    requires start <= |s|
    requires NothingFrom(s, d1, d2, start)
    ensures NoPair(s[start..], d1, d2)
  {
    hide Find;
    var t := s[start..];
    forall i, j | OccursAt(t, d1, i) && OccursAt(t, d2, j) ensures j < i + |d1| {
      assert t[i..i + |d1|] == s[start + i..start + i + |d1|];
      assert t[j..j + |d2|] == s[start + j..start + j + |d2|];
      assert OccursAt(s, d1, start + i) && OccursAt(s, d2, start + j);
    }
  }

  /** An occurrence that closes x is the first one in any text that begins with x + d. */
  lemma {:induction false} ClosesIsFirst(s: string, start: nat, x: string, d: string, rest: string)
    requires start <= |s| && s[start..] == x + d + rest && Closes(x, d)
    ensures Find(s, d, start) == Some(start + |x|)
    ensures s[start..start + |x|] == x
    ensures start + |x| + |d| <= |s| && s[start + |x| + |d|..] == rest
  {
    var p := start + |x|;
    assert |s| - start == |x| + |d| + |rest|;
    SliceOfTail(s, start, 0, |x|);
    SliceOfTail(s, start, |x|, |x| + |d|);
    TailOfTail(s, start, |x| + |d|);
    assert (x + d + rest)[0..|x|] == x && (x + d + rest)[|x|..|x| + |d|] == d && (x + d + rest)[|x| + |d|..] == rest;
    forall j | start <= j < p ensures !OccursAt(s, d, j) {
      assert !OccursAt(x + d, d, j - start);
      SliceOfTail(s, start, j - start, j - start + |d|);
      assert s[start..][..|x + d|] == x + d;
      SliceOfSlice(s[start..], 0, |x + d|, j - start, j - start + |d|);
    }
    FindIs(s, d, start, p);
  }

  lemma {:induction false} ScanUnique(s: string, d1: string, d2: string, start: nat, sc: Scan)
    requires start <= |s| && |d1| + |d2| > 0
    requires Decomposition(sc, d1, d2) && Reassemble(sc, d1, d2) == s[start..]
    ensures ScanFrom(s, d1, d2, start) == sc
    decreases |sc.pieces|
  {
    hide Find, OccursAt, Closes, NoPair, ScanFrom;
    if sc.pieces == [] {
      NoPairNotFound(s, d1, d2, start);
      ScanEnds(s, d1, d2, start);
    } else {
      var f, p, rest := sc.fillers[0], sc.pieces[0], Reassemble(Rest(sc), d1, d2);
      ClosesIsFirst(s, start, f, d1, p + d2 + rest);
      ClosesIsFirst(s, start + |f| + |d1|, p, d2, rest);
      ScanUnique(s, d1, d2, start + |f| + |d1| + |p| + |d2|, Rest(sc));
      ScanFirst(s, d1, d2, start, start + |f|, start + |f| + |d1| + |p|);
    }
  }

  lemma {:induction false} ScanFirst(s: string, d1: string, d2: string, start: nat, p1: nat, p2: nat)
    requires start <= |s| && |d1| + |d2| > 0
    requires Find(s, d1, start) == Some(p1) && Find(s, d2, p1 + |d1|) == Some(p2)
    ensures p2 + |d2| <= |s|
    ensures ScanFrom(s, d1, d2, start) ==
            ScanCons(s[start..p1], s[p1 + |d1|..p2], ScanFrom(s, d1, d2, p2 + |d2|))
  {
    hide Find, OccursAt;
  }

  lemma {:induction false} NoPairNotFound(s: string, d1: string, d2: string, start: nat)
    requires start <= |s| && NoPair(s[start..], d1, d2)
    ensures NothingFrom(s, d1, d2, start)
  {
    hide Find, OccursAt;
    var r1 := Find(s, d1, start);
    if r1.Some? {
      var r2 := Find(s, d2, r1.value + |d1|);
      if r2.Some? {
        OccursInSuffix(s, d1, start, r1.value);
        OccursInSuffix(s, d2, start, r2.value);
      }
    }
  }

  lemma {:induction false} OccursInSuffix(s: string, t: string, start: nat, p: nat)
    requires start <= p && OccursAt(s, t, p)
    ensures OccursAt(s[start..], t, p - start)
  {
    assert s[start..][p - start..p - start + |t|] == s[p..p + |t|];
  }

  /** A way of taking a text apart is the scanner's exactly when it puts the text back
      together and every delimiter in it is the first possible one. */
  lemma {:induction false} ScanIsTheDecomposition(s: string, d1: string, d2: string, sc: Scan)
    requires |d1| + |d2| > 0
    ensures sc == ScanFrom(s, d1, d2, 0) <==> Decomposition(sc, d1, d2) && Reassemble(sc, d1, d2) == s
  {
    assert s[0..] == s;
    ScanDecomposesFrom(s, d1, d2, 0);
    if Decomposition(sc, d1, d2) && Reassemble(sc, d1, d2) == s {
      ScanUnique(s, d1, d2, 0, sc);
    }
  }

  lemma {:induction false} ClosesOneChar(x: string, c: char)
    ensures Closes(x, [c]) <==> c !in x
  {
    forall j | 0 <= j < |x| ensures OccursAt(x + [c], [c], j) <==> x[j] == c {
      assert (x + [c])[j..j + 1] == [x[j]];
    }
  }

  /** For characters: no filler holds the opening one, no piece the closing one, and the
      tail has no opening one with a closing one later. */
  lemma {:induction false} CharScan(s: string, c1: char, c2: char)
    ensures var sc := ScanFrom(s, [c1], [c2], 0);
            && Reassemble(sc, [c1], [c2]) == s
            && Free(sc.fillers, c1) && Free(sc.pieces, c2)
            && forall i, j :: 0 <= i < j < |sc.tail| ==> !(sc.tail[i] == c1 && sc.tail[j] == c2)
  {
    hide Find, ScanFrom, Closes, OccursAt;
    var sc := ScanFrom(s, [c1], [c2], 0);
    ScanIsTheDecomposition(s, [c1], [c2], sc);
    forall k | 0 <= k < |sc.fillers| ensures c1 !in sc.fillers[k] { ClosesOneChar(sc.fillers[k], c1); }
    forall k | 0 <= k < |sc.pieces| ensures c2 !in sc.pieces[k] { ClosesOneChar(sc.pieces[k], c2); }
    forall i, j | 0 <= i < j < |sc.tail| ensures !(sc.tail[i] == c1 && sc.tail[j] == c2) {
      OccursOneChar(sc.tail, c1, i);
      OccursOneChar(sc.tail, c2, j);
    }
  }

  lemma {:induction false} OccursOneChar(s: string, c: char, i: nat)
    requires i < |s|
    ensures OccursAt(s, [c], i) <==> s[i] == c
  {
    assert s[i..i + 1] == [s[i]];
  }

  // ----- delimiting and scanning

  function Delimit(str: string, d1: string, d2: string): string {
    d1 + str + d2
  }

  ghost function DelimitAll(v: seq<string>, d1: string, d2: string): string {
    if v == [] then "" else Delimit(v[0], d1, d2) + DelimitAll(v[1..], d1, d2)
  }

  lemma {:induction false} DelimitAllIsReassembled(v: seq<string>, d1: string, d2: string)
    ensures DelimitAll(v, d1, d2) == Reassemble(Scan(seq(|v|, _ => ""), v, ""), d1, d2)
  {
    if v != [] {
      DelimitAllIsReassembled(v[1..], d1, d2);
      var sc := Scan(seq(|v|, _ => ""), v, "");
      assert Rest(sc) == Scan(seq(|v| - 1, _ => ""), v[1..], "");
    }
  }

  /** Scanning a run of delimited strings gives the strings back exactly when each of them
      shows the closing delimiter first where it was put. */
  lemma {:induction false} ScanOfDelimited(v: seq<string>, d1: string, d2: string)
    requires |d1| + |d2| > 0
    ensures ScanFrom(DelimitAll(v, d1, d2), d1, d2, 0).pieces == v <==>
            forall k :: 0 <= k < |v| ==> Closes(v[k], d2)
  {
    hide Closes, ScanFrom, DelimitAll;
    var text := DelimitAll(v, d1, d2);
    DelimitAllIsReassembled(v, d1, d2);
    NothingClosed(d1, d2);
    ScanIsTheDecomposition(text, d1, d2, ScanFrom(text, d1, d2, 0));
    ScanIsTheDecomposition(text, d1, d2, Scan(seq(|v|, _ => ""), v, ""));
  }

  lemma NothingClosed(d1: string, d2: string)
    requires |d1| + |d2| > 0
    ensures Closes("", d1) && NoPair("", d1, d2)
  {
  }

  /** With characters: exactly when none of the strings holds the closing one. */
  lemma {:induction false} ScanOfDelimitedChar(v: seq<string>, c1: char, c2: char)
    ensures ScanFrom(DelimitAll(v, [c1], [c2]), [c1], [c2], 0).pieces == v <==> Free(v, c2)
  {
    hide Closes, ScanFrom, DelimitAll;
    forall k | 0 <= k < |v| ensures Closes(v[k], [c2]) <==> c2 !in v[k] { ClosesOneChar(v[k], c2); }
    ScanOfDelimited(v, [c1], [c2]);
  }
}
