/** fuzzy_database: calls in buckets by length, and the calls one character away from a key. */
module Fuzzy {
  import opened Text
  import opened Busts

  const MIN_FUZZY_SIZE := 3
  const MAX_FUZZY_SIZE := 8
  const CALLSIGN_CHARS := "0123456789ABCDEFGHIJKLMNOPQRSTUVWXYZ/"

  function ToValidSize(sz: nat): (r: nat)
    ensures MIN_FUZZY_SIZE <= r <= MAX_FUZZY_SIZE
  {
    if sz < MIN_FUZZY_SIZE then MIN_FUZZY_SIZE else if sz > MAX_FUZZY_SIZE then MAX_FUZZY_SIZE else sz
  }

  /** In a regular expression '.' stands for any character but these. */
  predicate LineEnd(c: char) { c == '\n' || c == '\r' }

  /** Whether call matches the pattern made of key with '.' at posn; the other characters
      of a legal key stand for themselves. */
  predicate MatchesPattern(call: string, key: string, posn: nat)
    requires posn < |key|
  {
    && |call| == |key|
    && !LineEnd(call[posn])
    && call[..posn] == key[..posn] && call[posn + 1..] == key[posn + 1..]
  }

  /** A digit, a capital letter or a stroke. */
  predicate CallChar(c: char) {
    '0' <= c <= '9' || 'A' <= c <= 'Z' || c == '/'
  }

  /** At least three characters, and none but those of calls. */
  predicate LegalKey(key: string) {
    |key| >= 3 && forall i :: 0 <= i < |key| ==> CallChar(key[i])
  }

  lemma CallsignCharAt(i: nat)
    requires i < |CALLSIGN_CHARS|
    ensures CALLSIGN_CHARS[i] as int == if i < 10 then '0' as int + i else if i < 36 then 'A' as int + i - 10 else 47
  {
  }

  /** CALLSIGN_CHARS lists the characters of calls, and no others. */
  lemma {:induction false} CallsignChars(c: char)
    ensures c in CALLSIGN_CHARS <==> CallChar(c)
  {
    hide CALLSIGN_CHARS;
    CallsignLength();
    forall i: nat | i < |CALLSIGN_CHARS| ensures CallChar(CALLSIGN_CHARS[i]) {
      CallsignCharAt(i);
    }
    if CallChar(c) {
      var i := if c == '/' then 36 else if c <= '9' then c as int - '0' as int else c as int - 'A' as int + 10;
      CallsignCharAt(i);
      assert CALLSIGN_CHARS[i] == c;
    }
  }

  lemma CallsignLength()
    ensures |CALLSIGN_CHARS| == 37
  {
  }

  lemma PatternIsSubstitution(call: string, key: string, posn: nat)
    requires posn < |key|
    ensures MatchesPattern(call, key, posn) && call != key <==>
            |call| == |key| && DifferOnlyAt(key, call, posn) && !LineEnd(call[posn])
  {
  }

  /** c differs from key in exactly one character, and '.' stands for the one it has. */
  ghost predicate OneAway(key: string, c: string) {
    |c| == |key| && exists i: nat :: DifferOnlyAt(key, c, i) && !LineEnd(c[i])
  }

  /** One of the first n patterns made from key matches. */
  ghost predicate MatchesBefore(c: string, key: string, n: nat)
    requires n <= |key|
  {
    exists i :: 0 <= i < n && MatchesPattern(c, key, i)
  }

  lemma NothingMatched(key: string)
    ensures forall c :: !MatchesBefore(c, key, 0)
  {
  }

  lemma {:induction false} MatchesNext(c: string, key: string, n: nat)
    requires n < |key|
    ensures MatchesBefore(c, key, n + 1) <==> MatchesBefore(c, key, n) || MatchesPattern(c, key, n)
  {
    hide MatchesPattern;
  }

  lemma {:induction false} OneAwayMatches(key: string, c: string)
    ensures MatchesBefore(c, key, |key|) && c != key <==> OneAway(key, c)
    ensures OneAway(key, c) ==> ToValidSize(|c|) == ToValidSize(|key|)
  {
    if MatchesBefore(c, key, |key|) && c != key {
      var i :| 0 <= i < |key| && MatchesPattern(c, key, i);
      PatternIsSubstitution(c, key, i);
    }
    if OneAway(key, c) {
      var i: nat :| DifferOnlyAt(key, c, i) && !LineEnd(c[i]);
      PatternIsSubstitution(c, key, i);
    }
  }

  class FuzzyDatabase {
    const db: array<set<string>>

    ghost predicate Valid()
      reads db
    {
      && db.Length == MAX_FUZZY_SIZE + 1
      && forall i, c :: 0 <= i < db.Length && c in db[i] ==> ToValidSize(|c|) == i
    }

    /** The plain set of calls. */
    ghost function Calls(): (s: set<string>)
      requires Valid()
      reads db
      ensures forall c :: c in s <==> c in db[ToValidSize(|c|)]
    {
      set i, c | 0 <= i < db.Length && c in db[i] :: c
    }

    constructor ()
      ensures Valid() && fresh(db) && Calls() == {}
    {
      var buckets := new set<string>[MAX_FUZZY_SIZE + 1](i => {});
      db := buckets;
    }

    method Add(call: string)
      requires Valid()
      modifies db
      ensures Valid() && Calls() == old(Calls()) + {call}
    {
      var n := ToValidSize(|call|);
      db[n] := db[n] + {call};
    }

    method InitFromCalls(calls: seq<string>)
      requires Valid()
      modifies db
      ensures Valid() && Calls() == old(Calls()) + (set c | c in calls)
    {
      for i := 0 to |calls|
        invariant Valid() && Calls() == old(Calls()) + (set c | c in calls[..i])
      {
        Add(calls[i]);
        assert calls[..i + 1] == calls[..i] + [calls[i]];
      }
      assert calls[..|calls|] == calls;
    }

    method RemoveCall(call: string) returns (removed: bool)
      requires Valid()
      modifies db
      ensures Valid() && Calls() == old(Calls()) - {call}
      ensures removed <==> call in old(Calls())
    {
      var n := ToValidSize(|call|);
      removed := call in db[n];
      db[n] := db[n] - {call};
    }

    method Contains(call: string) returns (present: bool)
      requires Valid()
      ensures present <==> call in Calls()
    {
      present := call in db[ToValidSize(|call|)];
    }

    method Clear()
      requires Valid()
      modifies db
      ensures Valid() && Calls() == {}
    {
      forall i | 0 <= i < db.Length {
        db[i] := {};
      }
    }

    /** operator[]: the stored calls that differ from a legal key in exactly one character. */
    method Matches(key: string) returns (rv: set<string>)
      requires Valid()
      ensures |key| >= 3 && (forall i :: 0 <= i < |key| ==> CallChar(key[i])) ==>
                forall c :: c in rv <==> c in Calls() && OneAway(key, c)
      ensures !(|key| >= 3 && (forall i :: 0 <= i < |key| ==> CallChar(key[i]))) ==> rv == {}
    {
      forall c ensures c in CALLSIGN_CHARS <==> CallChar(c) { CallsignChars(c); }
      rv := {};
      if |key| < 3 {
        return;
      }
      if exists i :: 0 <= i < |key| && key[i] !in CALLSIGN_CHARS {
        return;
      }
      hide OneAway, MatchesPattern, DifferOnlyAt, MatchesBefore, LegalKey, Calls;
      NothingMatched(key);
      var ss := db[ToValidSize(|key|)];
      for posn := 0 to |key|
        invariant forall c :: c in rv <==> c in ss && MatchesBefore(c, key, posn)
      {
        forall c { MatchesNext(c, key, posn); }
        rv := rv + set c | c in ss && MatchesPattern(c, key, posn);
      }
      rv := rv - {key};
      forall c { OneAwayMatches(key, c); }
    }
  }

  /** Being one away is being of the same length and different in just one place, where the
      call has no line end. */
  lemma {:induction false} OneAwayMeans(key: string, c: string)
    ensures OneAway(key, c) <==>
            |c| == |key| && exists i: nat :: DiffersAt(key, c, i) && c[i] != '\n' && c[i] != '\r'
  {
    hide LineEnd;
    forall ch: char ensures LineEnd(ch) <==> ch == '\n' || ch == '\r' { LineEndIs(ch); }
    if |c| == |key| {
      forall i: nat ensures DiffersAt(key, c, i) <==> DifferOnlyAt(key, c, i) { SameButOne(key, c, i); }
    }
  }

  ghost predicate DiffersAt(key: string, c: string, i: nat) {
    i < |key| == |c| && key[i] != c[i] && key[..i] == c[..i] && key[i + 1..] == c[i + 1..]
  }

  lemma LineEndIs(c: char)
    ensures LineEnd(c) <==> c == '\n' || c == '\r'
  {
  }

  lemma {:induction false} SameButOne(key: string, c: string, i: nat)
    requires |key| == |c|
    ensures DiffersAt(key, c, i) <==> DifferOnlyAt(key, c, i)
  {
    if DiffersAt(key, c, i) {
      forall j | 0 <= j < |key| && j != i ensures key[j] == c[j] {
        if j < i { assert key[..i][j] == c[..i][j]; }
        if j > i { assert key[i + 1..][j - i - 1] == c[i + 1..][j - i - 1]; }
      }
    }
  }

  /** Every fuzzy match is a possible bust of the key. */
  lemma {:induction false} MatchIsBust(key: string, c: string)
    requires OneAway(key, c)
    ensures OneEdit(key, c) && OneEdit(c, key)
  {
    OneEditSymmetric(key, c);
  }

  class FuzzyDatabases {
    var vec: seq<FuzzyDatabase>

    ghost predicate Valid()
      reads this, vec, set i | 0 <= i < |vec| :: vec[i].db
    {
      && (forall i :: 0 <= i < |vec| ==> vec[i].Valid())
      && (forall i, j :: 0 <= i < j < |vec| ==> vec[i].db != vec[j].db)
    }

    constructor ()
      ensures vec == [] && Valid()
    {
      vec := [];
    }

    method Add(db: FuzzyDatabase)
      requires Valid() && db.Valid() && forall i :: 0 <= i < |vec| ==> vec[i].db != db.db
      modifies this
      ensures Valid() && vec == old(vec) + [db]
    {
      vec := vec + [db];
    }

    /** Removes the call from the last database, in order of priority, that holds it, and
        from no other. */
    method RemoveCall(call: string)
      requires Valid()
      modifies set i | 0 <= i < |vec| :: vec[i].db
      ensures Valid() && vec == old(vec)
      ensures forall i :: 0 <= i < |vec| ==>
                vec[i].Calls() == if forall j :: i < j < |vec| ==> call !in old(vec[j].Calls())
                                  then old(vec[i].Calls()) - {call} else old(vec[i].Calls())
    {
      hide FuzzyDatabase.Calls, FuzzyDatabase.Valid, ToValidSize, OneAway, CallChar, LegalKey;
      var removed := false;
      var n := 0;
      while !removed && n < |vec|
        invariant n <= |vec| && (forall i :: 0 <= i < |vec| ==> vec[i].Valid())
        invariant forall i :: 0 <= i < |vec| - n ==> vec[i].Calls() == old(vec[i].Calls())
        invariant forall i :: |vec| - n <= i < |vec| && !(removed && i == |vec| - n) ==>
                    vec[i].Calls() == old(vec[i].Calls()) && call !in old(vec[i].Calls())
        invariant removed ==>
                    && n > 0 && call in old(vec[|vec| - n].Calls())
                    && vec[|vec| - n].Calls() == old(vec[|vec| - n].Calls()) - {call}
      {
        var db := vec[|vec| - 1 - n];
        assert forall i :: 0 <= i < |vec| && i != |vec| - 1 - n ==> vec[i].db != db.db;
        removed := db.RemoveCall(call);
        n := n + 1;
      }
    }

    /** The matches of all the databases. */
    method Matches(key: string) returns (rv: set<string>)
      requires Valid()
      ensures forall c :: c in rv <==>
                LegalKey(key) && OneAway(key, c) && exists k :: 0 <= k < |vec| && c in vec[k].Calls()
    {
      hide OneAway, FuzzyDatabase.Calls, CallChar;
      rv := {};
      if |key| < 3 {
        return;
      }
      for n := 0 to |vec|
        invariant forall c :: c in rv <==>
                    LegalKey(key) && OneAway(key, c) && exists k :: 0 <= k < n && c in vec[k].Calls()
      {
        var found := vec[n].Matches(key);
        rv := rv + found;
      }
    }
  }
}
