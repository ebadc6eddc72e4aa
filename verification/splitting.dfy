/** split_string (both forms), split_string_into_records and join. */
module Splitting {
  import opened Text

  // ----- specifications: every function looks at the text from position start on

  /** The pieces between the occurrences of c; there is always a last piece. */
  function SplitFrom(s: string, c: char, start: nat): (v: seq<string>)
    requires start <= |s|
    ensures |v| >= 1
    decreases |s| - start
  {
    match FindChar(s, c, start)
    case None => [s[start..]]
    case Some(p) => [s[start..p]] + SplitFrom(s, c, p + 1)
  }

  function Split(s: string, c: char): seq<string> {
    if s == "" then [] else SplitFrom(s, c, 0)
  }

  /** The pieces between leftmost, non-overlapping occurrences of sep; nothing when start is the end. */
  function SplitOnFrom(s: string, sep: string, start: nat): seq<string>
    requires start <= |s| && sep != ""
    decreases |s| - start
  {
    if start == |s| then [] else
    match Find(s, sep, start)
    case None => [s[start..]]
    case Some(p) => [s[start..p]] + SplitOnFrom(s, sep, p + |sep|)
  }

  function SplitOn(s: string, sep: string): seq<string>
    requires sep != ""
  {
    SplitOnFrom(s, sep, 0)
  }

  function JoinSpec(v: seq<string>, sep: string): string {
    if v == [] then "" else if |v| == 1 then v[0] else v[0] + sep + JoinSpec(v[1..], sep)
  }

  ghost predicate Free(v: seq<string>, c: char) {
    forall k :: 0 <= k < |v| ==> c !in v[k]
  }

  // ----- the loops

  /** posns lists, in order, every position of c in s. */
  ghost predicate AllPositions(s: string, c: char, posns: seq<nat>) {
    && (forall k :: 0 <= k < |posns| ==> posns[k] < |s| && s[posns[k]] == c)
    && (forall k, l :: 0 <= k < l < |posns| ==> posns[k] < posns[l])
    && (forall i :: 0 <= i < |s| && s[i] == c ==> i in posns)
  }

  method FindPositions(cs: string, c: char) returns (posns: seq<nat>)
    ensures AllPositions(cs, c, posns)
  {
    posns := [];
    for n := 0 to |cs|
      invariant forall k :: 0 <= k < |posns| ==> posns[k] < n && cs[posns[k]] == c
      invariant forall k, l :: 0 <= k < l < |posns| ==> posns[k] < posns[l]
      invariant forall i :: 0 <= i < n && cs[i] == c ==> i in posns
    {
      if cs[n] == c {
        posns := posns + [n];
      }
    }
  }

  /** Position number k is the first one at or after the end of its predecessor. */
  lemma NextPosition(s: string, c: char, posns: seq<nat>, k: nat, start: nat)
    requires AllPositions(s, c, posns) && k <= |posns|
    requires start == if k == 0 then 0 else posns[k - 1] + 1
    ensures start <= |s|
    ensures FindChar(s, c, start) == if k < |posns| then Some(posns[k]) else None
  {
  }

  lemma {:induction false} SplitStep(s: string, c: char, start: nat, p: nat, done: seq<string>, all: seq<string>)
    requires start <= |s| && FindChar(s, c, start) == Some(p)
    requires all == done + SplitFrom(s, c, start)
    ensures all == done + [s[start..p]] + SplitFrom(s, c, p + 1)
  {
    hide FindChar;
  }

  lemma {:induction false} SplitLast(s: string, c: char, start: nat)
    requires start <= |s| && FindChar(s, c, start).None?
    ensures SplitFrom(s, c, start) == [s[start..]]
  {
    hide FindChar;
  }

  method SplitString(cs: string, separator: char) returns (rv: seq<string>)
    ensures rv == Split(cs, separator)
  {
    hide FindChar, SplitFrom;
    rv := [];
    if cs == "" {
      return;
    }
    var posns := FindPositions(cs, separator);
    if posns == [] {
      NextPosition(cs, separator, posns, 0, 0);
      SplitLast(cs, separator, 0);
      assert cs[0..] == cs;
      return [cs];
    }
    var startPosn := 0;
    ghost var pieces := SplitFrom(cs, separator, 0);
    for posnNr := 0 to |posns|
      invariant startPosn == if posnNr == 0 then 0 else posns[posnNr - 1] + 1
      invariant startPosn <= |cs|
      invariant pieces == rv + SplitFrom(cs, separator, startPosn)
    {
      NextPosition(cs, separator, posns, posnNr, startPosn);
      SplitStep(cs, separator, startPosn, posns[posnNr], rv, pieces);
      rv := rv + [Substring(cs, startPosn, posns[posnNr] - startPosn)];
      startPosn := posns[posnNr] + 1;
    }
    NextPosition(cs, separator, posns, |posns|, startPosn);
    SplitLast(cs, separator, startPosn);
    assert Substring(cs, startPosn, |cs|) == cs[startPosn..];
    rv := rv + [Substring(cs, posns[|posns| - 1] + 1, |cs|)];
  }

  /** The pieces found so far, and those still to come. */
  ghost predicate Parts(all: seq<string>, done: seq<string>, rest: seq<string>) {
    all == done + rest
  }

  lemma PartsEnds(all: seq<string>)
    ensures Parts(all, [], all)
  {
  }

  lemma PartsWhole(all: seq<string>, done: seq<string>)
    requires Parts(all, done, [])
    ensures all == done
  {
  }

  lemma {:induction false} SplitOnStep(s: string, sep: string, start: nat, p: nat, done: seq<string>, all: seq<string>)
    requires start < |s| && sep != "" && Find(s, sep, start) == Some(p)
    requires Parts(all, done, SplitOnFrom(s, sep, start))
    ensures Parts(all, done + [s[start..p]], SplitOnFrom(s, sep, p + |sep|))
  {
    hide Find, OccursAt;
  }

  lemma {:induction false} SplitOnLast(s: string, sep: string, start: nat, done: seq<string>, all: seq<string>)
    requires start < |s| && sep != "" && Find(s, sep, start) == None
    requires Parts(all, done, SplitOnFrom(s, sep, start))
    ensures Parts(all, done + [s[start..]], SplitOnFrom(s, sep, |s|))
  {
    hide Find, OccursAt;
  }

  lemma {:induction false} SplitOnEnds(s: string, sep: string, all: seq<string>)
    requires sep != ""
    ensures Parts(SplitOn(s, sep), [], SplitOnFrom(s, sep, 0))
    ensures Parts(SplitOn(s, sep), all, SplitOnFrom(s, sep, |s|)) ==> all == SplitOn(s, sep)
  {
    hide Find, OccursAt;
  }

  method SplitStringOn(cs: string, separator: string) returns (rv: seq<string>)
    requires separator != ""
    ensures rv == SplitOn(cs, separator)
  {
    hide Find, OccursAt, SplitOnFrom, SplitOn, Parts;
    var startPosn := 0;
    rv := [];
    ghost var pieces := SplitOn(cs, separator);
    SplitOnEnds(cs, separator, rv);
    while startPosn < |cs|
      invariant startPosn <= |cs|
      invariant Parts(pieces, rv, SplitOnFrom(cs, separator, startPosn))
      decreases |cs| - startPosn
    {
      var posn := Find(cs, separator, startPosn);
      if posn.None? {
        SplitOnLast(cs, separator, startPosn, rv, pieces);
        rv := rv + [cs[startPosn..]];
        startPosn := |cs|;
      } else {
        SplitOnStep(cs, separator, startPosn, posn.value, rv, pieces);
        rv := rv + [cs[startPosn..posn.value]];
        startPosn := posn.value + |separator|;
      }
    }
    SplitOnEnds(cs, separator, rv);
  }

  method Join(ct: seq<string>, sep: string) returns (rv: string)
    ensures rv == JoinSpec(ct, sep)
  {
    rv := "";
    for n := 0 to |ct|
      invariant rv == JoinSpec(ct[..n], sep)
    {
      JoinSnoc(ct[..n], ct[n], sep);
      assert ct[..n + 1] == ct[..n] + [ct[n]];
      if n != 0 {
        rv := rv + sep;
      }
      rv := rv + ct[n];
    }
    assert ct[..|ct|] == ct;
  }

  lemma {:induction false} JoinSnoc(v: seq<string>, x: string, sep: string)
    ensures JoinSpec(v + [x], sep) == if v == [] then x else JoinSpec(v, sep) + sep + x
  {
    if |v| > 1 {
      assert (v + [x])[1..] == v[1..] + [x];
      JoinSnoc(v[1..], x, sep);
    } else if |v| == 1 {
      assert (v + [x])[1..] == [x];
    }
  }

  // ----- splitting and joining are inverse

  lemma {:induction false} JoinSplitFrom(s: string, c: char, start: nat)
    requires start <= |s|
    ensures JoinSpec(SplitFrom(s, c, start), [c]) == s[start..]
    ensures Free(SplitFrom(s, c, start), c)
    decreases |s| - start
  {
    var r := FindChar(s, c, start);
    if r.Some? {
      JoinSplitFrom(s, c, r.value + 1);
      assert c !in s[start..r.value];
      var x, rest := s[start..r.value], SplitFrom(s, c, r.value + 1);
      assert SplitFrom(s, c, start) == [x] + rest;
      hide FindChar, SplitFrom, JoinSpec;
      JoinCons(x, rest, [c]);
      FreeCons(x, rest, c);
      assert s[start..] == x + [c] + s[r.value + 1..];
    } else {
      assert c !in s[start..];
    }
  }

  lemma {:induction false} FreeCons(x: string, v: seq<string>, c: char)
    requires c !in x && Free(v, c)
    ensures Free([x] + v, c)
  {
    assert forall k :: 0 < k < |[x] + v| ==> ([x] + v)[k] == v[k - 1];
  }

  /** Splitting is the only way to cut a text into pieces free of the separator. */
  lemma {:induction false} SplitUnique(s: string, c: char, start: nat, v: seq<string>)
    requires start <= |s| && v != [] && Free(v, c)
    requires JoinSpec(v, [c]) == s[start..]
    ensures SplitFrom(s, c, start) == v
    decreases |v|
  {
    if |v| == 1 {
      assert forall i :: start <= i < |s| ==> s[start..][i - start] == s[i];
      hide SplitFrom;
      SplitLast(s, c, start);
    } else {
      var p := start + |v[0]|;
      CutFirst(s, c, start, v);
      hide JoinSpec, FindChar, SplitFrom;
      SplitUnique(s, c, p + 1, v[1..]);
      SplitCons(s, c, start, p);
      assert v == [v[0]] + v[1..];
    }
  }

  lemma {:induction false} SplitCons(s: string, c: char, start: nat, p: nat)
    requires start <= |s| && FindChar(s, c, start) == Some(p)
    ensures SplitFrom(s, c, start) == [s[start..p]] + SplitFrom(s, c, p + 1)
  {
    hide FindChar;
  }

  lemma {:induction false} CutFirst(s: string, c: char, start: nat, v: seq<string>)
    requires start <= |s| && |v| > 1 && c !in v[0]
    requires JoinSpec(v, [c]) == s[start..]
    ensures var p := start + |v[0]|;
            p < |s| && FindChar(s, c, start) == Some(p) && s[start..p] == v[0] && s[p + 1..] == JoinSpec(v[1..], [c])
  {
    var p, rest := start + |v[0]|, JoinSpec(v[1..], [c]);
    assert s[start..] == v[0] + [c] + rest;
    hide JoinSpec, FindChar;
    assert s[p] == s[start..][|v[0]|] == c;
    SliceOfTail(s, start, 0, |v[0]|);
    TailOfTail(s, start, |v[0]| + 1);
    FindCharIs(s, c, start, p);
  }

  /** join(split_string(s, c), c) == s. */
  lemma {:induction false} JoinOfSplit(s: string, c: char)
    ensures JoinSpec(Split(s, c), [c]) == s
    ensures Free(Split(s, c), c)
  {
    if s != "" { JoinSplitFrom(s, c, 0); }
  }

  /** split_string(join(v, c), c) == v for separator-free v, with the one exception [""]. */
  lemma {:induction false} SplitOfJoin(v: seq<string>, c: char)
    requires Free(v, c)
    ensures Split(JoinSpec(v, [c]), c) == v <==> v != [""]
  {
    var s := JoinSpec(v, [c]);
    if v == [] || v == [""] {
    } else {
      assert s != "" by {
        if |v| > 1 { assert s[|v[0]|] == c; }
      }
      SplitUnique(s, c, 0, v);
    }
  }

  // ----- the string separator

  ghost predicate SepFree(v: seq<string>, sep: string) {
    forall k :: 0 <= k < |v| ==> !Contains(v[k], sep)
  }

  /** The pieces with the last one kept even when it is empty. */
  ghost function SplitOnAll(s: string, sep: string, start: nat): (v: seq<string>)
    requires start <= |s| && sep != ""
    ensures |v| >= 1
    decreases |s| - start
  {
    match Find(s, sep, start)
    case None => [s[start..]]
    case Some(p) => [s[start..p]] + SplitOnAll(s, sep, p + |sep|)
  }

  function DropEmptyLast(v: seq<string>): seq<string>
    requires v != []
  {
    if v[|v| - 1] == "" then v[..|v| - 1] else v
  }

  /** What lies before the first occurrence at or after start holds no occurrence. */
  lemma {:induction false} BeforeFirst(s: string, sep: string, start: nat, end: nat)
    requires start <= end <= |s| && |sep| > 0
    requires forall j :: start <= j < end ==> !OccursAt(s, sep, j)
    ensures !Contains(s[start..end], sep)
  {
    var piece := s[start..end];
    forall i ensures !OccursAt(piece, sep, i) {
      if 0 <= i && i + |sep| <= |piece| {
        var j := start + i;
        assert start <= j < end;
        assert !OccursAt(s, sep, j);
        SliceOfSlice(s, start, end, i, i + |sep|);
      }
    }
  }

  lemma {:induction false} PiecesAreSepFree(s: string, sep: string, start: nat)
    requires start <= |s| && sep != ""
    ensures SepFree(SplitOnAll(s, sep, start), sep)
    decreases |s| - start
  {
    hide Find, OccursAt, Contains;
    var r := Find(s, sep, start);
    BeforeFirst(s, sep, start, if r.Some? then r.value else |s|);
    if r.Some? {
      PiecesAreSepFree(s, sep, r.value + |sep|);
      var x, rest := s[start..r.value], SplitOnAll(s, sep, r.value + |sep|);
      assert SplitOnAll(s, sep, start) == [x] + rest;
      forall k | 0 <= k < |rest| + 1 ensures !Contains(([x] + rest)[k], sep) {
        if k > 0 { assert ([x] + rest)[k] == rest[k - 1]; }
      }
    } else {
      assert s[start..|s|] == s[start..];
    }
  }

  lemma {:induction false} JoinSplitOnAll(s: string, sep: string, start: nat)
    requires start <= |s| && sep != ""
    ensures JoinSpec(SplitOnAll(s, sep, start), sep) == s[start..]
    decreases |s| - start
  {
    hide Find, JoinSpec;
    var r := Find(s, sep, start);
    if r.None? {
      JoinOne(s[start..], sep);
    } else {
      JoinSplitOnAll(s, sep, r.value + |sep|);
      JoinCons(s[start..r.value], SplitOnAll(s, sep, r.value + |sep|), sep);
      assert s[r.value..r.value + |sep|] == sep;
      assert s[start..] == s[start..r.value] + s[r.value..r.value + |sep|] + s[r.value + |sep|..];
    }
  }

  lemma JoinOne(x: string, sep: string)
    ensures JoinSpec([x], sep) == x
  {
  }

  lemma {:induction false} JoinCons(x: string, v: seq<string>, sep: string)
    requires v != []
    ensures JoinSpec([x] + v, sep) == x + sep + JoinSpec(v, sep)
  {
    assert ([x] + v)[1..] == v;
  }

  lemma ConsLast(x: string, v: seq<string>)
    requires v != []
    ensures ([x] + v)[|v|] == v[|v| - 1]
    ensures ([x] + v)[..|v|] == [x] + v[..|v| - 1]
  {
  }

  /** The code keeps every piece but an empty last one. */
  lemma {:induction false} SplitOnDropsEmptyLast(s: string, sep: string, start: nat)
    requires start <= |s| && sep != ""
    ensures SplitOnFrom(s, sep, start) == DropEmptyLast(SplitOnAll(s, sep, start))
    decreases |s| - start
  {
    hide OccursAt, Find;
    var r := Find(s, sep, start);
    if r.Some? {
      var x, all := s[start..r.value], SplitOnAll(s, sep, r.value + |sep|);
      SplitOnDropsEmptyLast(s, sep, r.value + |sep|);
      ConsLast(x, all);
      assert SplitOnAll(s, sep, start) == [x] + all;
      assert start < |s| ==> SplitOnFrom(s, sep, start) == [x] + SplitOnFrom(s, sep, r.value + |sep|);
      hide SplitOnAll, SplitOnFrom;
    } else {
      assert SplitOnAll(s, sep, start) == [s[start..]];
    }
  }

  /** Joining the pieces gives the text back, less one final separator when the last cut
      is at the very end of the text. */
  lemma {:induction false} JoinOfSplitOn(s: string, sep: string)
    requires sep != ""
    ensures SepFree(SplitOn(s, sep), sep)
    ensures var all := SplitOnAll(s, sep, 0);
            s == if |all| > 1 && all[|all| - 1] == "" then JoinSpec(SplitOn(s, sep), sep) + sep
                 else JoinSpec(SplitOn(s, sep), sep)
  {
    hide Find, OccursAt, Contains, SplitOnAll;
    PiecesAreSepFree(s, sep, 0);
    JoinSplitOnAll(s, sep, 0);
    SplitOnDropsEmptyLast(s, sep, 0);
    var all := SplitOnAll(s, sep, 0);
    assert s[0..] == s;
    if all[|all| - 1] == "" && |all| > 1 {
      JoinSnoc(all[..|all| - 1], "", sep);
      assert all == all[..|all| - 1] + [""];
    }
  }

  lemma {:induction false} SplitOnCharFrom(s: string, c: char, start: nat)
    requires start <= |s|
    ensures SplitOnAll(s, [c], start) == SplitFrom(s, c, start)
    ensures var v := SplitFrom(s, c, start); v[|v| - 1] == "" <==> start == |s| || s[|s| - 1] == c
    decreases |s| - start
  {
    hide FindChar, Find, OccursAt;
    FindOneChar(s, c, start);
    var r := FindChar(s, c, start);
    if r.Some? {
      SplitOnCharFrom(s, c, r.value + 1);
      ConsLast(s[start..r.value], SplitFrom(s, c, r.value + 1));
    } else if start < |s| {
      assert s[start..][|s| - 1 - start] == s[|s| - 1];
    }
  }

  /** With a one-character separator the two forms differ in one empty last piece, and
      only when the text ends in the separator. */
  lemma {:induction false} SplitOnAgreesWithSplit(s: string, c: char)
    ensures SplitOn(s, [c]) ==
            if s != "" && s[|s| - 1] == c then Split(s, c)[..|Split(s, c)| - 1] else Split(s, c)
    ensures s != "" && s[|s| - 1] == c ==> Split(s, c)[|Split(s, c)| - 1] == ""
  {
    SplitOnDropsEmptyLast(s, [c], 0);
    SplitOnCharFrom(s, c, 0);
  }

  // ----- records

  datatype Delimiters = Keep | Drop

  function RecordsFrom(s: string, marker: char, rule: Delimiters, start: nat): seq<string>
    requires start <= |s|
    decreases |s| - start
  {
    match FindChar(s, marker, start)
    case None => []
    case Some(p) => [if rule.Keep? then s[start..p + 1] else s[start..p]] + RecordsFrom(s, marker, rule, p + 1)
  }

  function Records(s: string, marker: char, rule: Delimiters): seq<string> {
    RecordsFrom(s, marker, rule, 0)
  }

  lemma RecordsStep(s: string, m: char, rule: Delimiters, start: nat, p: nat, done: seq<string>, all: seq<string>)
    requires start <= |s| && FindChar(s, m, start) == Some(p)
    requires all == done + RecordsFrom(s, m, rule, start)
    ensures all == done + [s[start..p + if rule.Keep? then 1 else 0]] + RecordsFrom(s, m, rule, p + 1)
  {
  }

  lemma {:induction false} RecordsEnd(s: string, m: char, rule: Delimiters, start: nat)
    requires start <= |s| && FindChar(s, m, start) == None
    ensures RecordsFrom(s, m, rule, start) == []
  {
    hide FindChar;
  }

  method SplitStringIntoRecords(cs: string, eorMarker: char, delimRule: Delimiters) returns (rv: seq<string>)
    ensures rv == Records(cs, eorMarker, delimRule)
  {
    hide FindChar, RecordsFrom;
    rv := [];
    if cs == "" {
      RecordsEnd(cs, eorMarker, delimRule, 0);
      return;
    }
    var posns := FindPositions(cs, eorMarker);
    if posns == [] {
      NextPosition(cs, eorMarker, posns, 0, 0);
      RecordsEnd(cs, eorMarker, delimRule, 0);
      return;
    }
    var startPosn := 0;
    ghost var records := Records(cs, eorMarker, delimRule);
    for posnNr := 0 to |posns|
      invariant startPosn == if posnNr == 0 then 0 else posns[posnNr - 1] + 1
      invariant startPosn <= |cs|
      invariant records == rv + RecordsFrom(cs, eorMarker, delimRule, startPosn)
    {
      NextPosition(cs, eorMarker, posns, posnNr, startPosn);
      RecordsStep(cs, eorMarker, delimRule, startPosn, posns[posnNr], rv, records);
      var length := posns[posnNr] - startPosn + if delimRule.Keep? then 1 else 0;
      assert Substring(cs, startPosn, length) == cs[startPosn..startPosn + length];
      rv := rv + [Substring(cs, startPosn, length)];
      startPosn := posns[posnNr] + 1;
    }
    NextPosition(cs, eorMarker, posns, |posns|, startPosn);
    RecordsEnd(cs, eorMarker, delimRule, startPosn);
  }

  ghost function WithMarker(v: seq<string>, marker: char): seq<string> {
    seq(|v|, i requires 0 <= i < |v| => v[i] + [marker])
  }

  lemma {:induction false} RecordsRefineSplitFrom(s: string, m: char, start: nat)
    requires start <= |s|
    ensures var v := SplitFrom(s, m, start);
            && RecordsFrom(s, m, Drop, start) == v[..|v| - 1]
            && RecordsFrom(s, m, Keep, start) == WithMarker(v[..|v| - 1], m)
    decreases |s| - start
  {
    hide FindChar;
    var r := FindChar(s, m, start);
    if r.Some? {
      RecordsRefineSplitFrom(s, m, r.value + 1);
      var x, rest := s[start..r.value], SplitFrom(s, m, r.value + 1);
      ConsLast(x, rest);
      assert x + [m] == s[start..r.value + 1];
      assert WithMarker([x] + rest[..|rest| - 1], m) == [x + [m]] + WithMarker(rest[..|rest| - 1], m);
    }
  }

  lemma {:induction false} KeptRecordsRebuild(s: string, m: char, start: nat)
    requires start <= |s|
    ensures var v := SplitFrom(s, m, start); Concat(RecordsFrom(s, m, Keep, start)) + v[|v| - 1] == s[start..]
    decreases |s| - start
  {
    hide FindChar, SplitFrom, RecordsFrom, Concat;
    var r := FindChar(s, m, start);
    KeptStep(s, m, start);
    if r.Some? {
      var q := r.value + 1;
      KeptRecordsRebuild(s, m, q);
      var tail := SplitFrom(s, m, q);
      Regroup(s[start..q], Concat(RecordsFrom(s, m, Keep, q)), tail[|tail| - 1]);
      assert s[start..q] + s[q..] == s[start..];
    }
  }

  lemma {:induction false} KeptStep(s: string, m: char, start: nat)
    requires start <= |s|
    ensures var v := SplitFrom(s, m, start); var kept := Concat(RecordsFrom(s, m, Keep, start));
            match FindChar(s, m, start)
            case None => kept + v[|v| - 1] == s[start..]
            case Some(p) =>
              var tail := SplitFrom(s, m, p + 1);
              kept == s[start..p + 1] + Concat(RecordsFrom(s, m, Keep, p + 1)) && v[|v| - 1] == tail[|tail| - 1]
  {
    hide FindChar, Concat;
    var r := FindChar(s, m, start);
    if r.Some? {
      ConcatCons(s[start..r.value + 1], RecordsFrom(s, m, Keep, r.value + 1));
    } else {
      ConcatNone();
    }
  }

  lemma Regroup(a: string, b: string, c: string)
    ensures a + (b + c) == (a + b) + c
  {
  }

  lemma ConcatNone()
    ensures Concat([]) == ""
  {
  }

  lemma {:induction false} ConcatCons(x: string, v: seq<string>)
    ensures Concat([x] + v) == x + Concat(v)
  {
    assert ([x] + v)[1..] == v;
  }

  /** Dropped-marker records are the pieces of split_string but the last; kept-marker
      records followed by that last, marker-free, piece give the whole text back. */
  lemma {:induction false} RecordsRefineSplit(s: string, m: char)
    requires s != ""
    ensures var v := Split(s, m);
            && v != []
            && Records(s, m, Drop) == v[..|v| - 1]
            && Records(s, m, Keep) == WithMarker(v[..|v| - 1], m)
            && Concat(Records(s, m, Keep)) + v[|v| - 1] == s
            && m !in v[|v| - 1]
  {
    RecordsRefineSplitFrom(s, m, 0);
    KeptRecordsRebuild(s, m, 0);
    JoinSplitFrom(s, m, 0);
    assert s[0..] == s;
  }
}
