/** procfs::_statvec: a file read at most once per interval. */
module Procfs {
  import opened Text
  import opened Splitting

  datatype Cache = Cache(lastUpdate: int, lastStatVec: seq<string>)

  function Updated(c: Cache, interval: int, now: int, stat: string): Cache {
    if now - c.lastUpdate > interval then Cache(now, Split(stat, ' ')) else c
  }

  class ProcStat {
    var lastUpdateTime: int
    var lastStatVec: seq<string>
    const minimumInterval: int

    constructor (interval: int)
      ensures minimumInterval == interval && lastUpdateTime == 0 && lastStatVec == []
    {
      minimumInterval := interval;
      lastUpdateTime := 0;
      lastStatVec := [];
    }

    /** now is the clock and stat what reading the file would give. */
    method StatVec(now: int, stat: string) returns (rv: seq<string>)
      modifies this
      ensures Cache(lastUpdateTime, lastStatVec) ==
              Updated(Cache(old(lastUpdateTime), old(lastStatVec)), minimumInterval, now, stat)
      ensures rv == lastStatVec
    {
      if now - lastUpdateTime > minimumInterval {
        lastStatVec := SplitString(stat, ' ');
        lastUpdateTime := now;
      }
      return lastStatVec;
    }
  }

  /** One call: the clock, and what the file holds then. */
  datatype Call = Call(now: int, stat: string)

  /** The state after the first n calls. */
  ghost function After(calls: seq<Call>, interval: int, n: nat): Cache
    requires n <= |calls|
  {
    if n == 0 then Cache(0, [])
    else Updated(After(calls, interval, n - 1), interval, calls[n - 1].now, calls[n - 1].stat)
  }

  /** Which of the first n calls read the file. */
  ghost function Reads(calls: seq<Call>, interval: int, n: nat): seq<nat>
    requires n <= |calls|
  {
    if n == 0 then []
    else Reads(calls, interval, n - 1) +
         if calls[n - 1].now - After(calls, interval, n - 1).lastUpdate > interval then [n - 1] else []
  }

  ghost predicate Monotone(calls: seq<Call>) {
    forall i, j :: 0 <= i <= j < |calls| ==> calls[i].now <= calls[j].now
  }

  /** r lists calls among the first n, more than the interval apart. */
  ghost predicate Spaced(calls: seq<Call>, interval: int, n: nat, r: seq<nat>) {
    && n <= |calls|
    && (forall k :: 0 <= k < |r| ==> r[k] < n)
    && (forall k, l :: 0 <= k < |r| && l == k + 1 && l < |r| ==>
          r[k] < r[l] && calls[r[l]].now - calls[r[k]].now > interval)
  }

  /** What the cache holds when call number i was the last to read. */
  ghost function ReadAt(calls: seq<Call>, r: seq<nat>): Cache
    requires forall k :: 0 <= k < |r| ==> r[k] < |calls|
  {
    if r == [] then Cache(0, []) else var c := calls[r[|r| - 1]]; Cache(c.now, Split(c.stat, ' '))
  }

  lemma {:induction false} SpacedSnoc(calls: seq<Call>, interval: int, n: nat, r: seq<nat>)
    requires n < |calls| && Spaced(calls, interval, n, r)
    requires calls[n].now - ReadAt(calls, r).lastUpdate > interval
    ensures Spaced(calls, interval, n + 1, r + [n])
    ensures ReadAt(calls, r + [n]) == Cache(calls[n].now, Split(calls[n].stat, ' '))
  {
    hide Split;
  }

  /** What call number n does to the cache and to the list of readings. */
  lemma {:induction false} OneMore(calls: seq<Call>, interval: int, n: nat)
    requires n < |calls|
    ensures var c, r, call := After(calls, interval, n), Reads(calls, interval, n), calls[n];
            if call.now - c.lastUpdate > interval
            then Reads(calls, interval, n + 1) == r + [n] &&
                 After(calls, interval, n + 1) == Cache(call.now, Split(call.stat, ' '))
            else Reads(calls, interval, n + 1) == r && After(calls, interval, n + 1) == c
  {
    hide Split;
  }

  lemma NoReadsYet(calls: seq<Call>, interval: int)
    ensures Spaced(calls, interval, 0, Reads(calls, interval, 0))
    ensures After(calls, interval, 0) == ReadAt(calls, Reads(calls, interval, 0))
  {
  }

  /** The cache holds what the last reading call saw, and readings are more than the
      interval apart. */
  lemma {:induction false} ReadsAreApart(calls: seq<Call>, interval: int, n: nat)
    requires n <= |calls|
    ensures Spaced(calls, interval, n, Reads(calls, interval, n))
    ensures (forall k :: 0 <= k < |Reads(calls, interval, n)| ==> Reads(calls, interval, n)[k] < |calls|) &&
            After(calls, interval, n) == ReadAt(calls, Reads(calls, interval, n))
  {
    hide Split, Spaced, Reads, After, ReadAt;
    if n == 0 {
      NoReadsYet(calls, interval);
    } else {
      ReadsAreApart(calls, interval, n - 1);
      OneMore(calls, interval, n - 1);
      var r := Reads(calls, interval, n - 1);
      SpacedMore(calls, interval, n - 1, r);
      if calls[n - 1].now - After(calls, interval, n - 1).lastUpdate > interval {
        SpacedSnoc(calls, interval, n - 1, r);
      }
    }
  }

  lemma SpacedMore(calls: seq<Call>, interval: int, n: nat, r: seq<nat>)
    requires n < |calls| && Spaced(calls, interval, n, r)
    ensures Spaced(calls, interval, n + 1, r)
    ensures forall k :: 0 <= k < |r| ==> r[k] < |calls|
  {
  }

  lemma {:induction false} ReadsTakeTime(calls: seq<Call>, interval: int, n: nat, k: nat)
    requires n <= |calls| && interval >= 0 && k < |Reads(calls, interval, n)|
    ensures var r := Reads(calls, interval, n);
            r[0] < n && r[k] < n && calls[r[k]].now - calls[r[0]].now >= k * (interval + 1)
  {
    hide After, Split, Reads;
    ReadsAreApart(calls, interval, n);
    if k > 0 {
      ReadsTakeTime(calls, interval, n, k - 1);
    }
  }

  /** With a clock that does not run back, a first call later than the interval and an
      interval that is not negative: every answer is what the file held at a call at most
      the interval ago. */
  lemma {:induction false} AnswersAreFresh(calls: seq<Call>, interval: int, n: nat)
    requires n < |calls| && interval >= 0 && Monotone(calls) && calls[0].now > interval
    ensures exists i :: 0 <= i <= n && 0 <= calls[n].now - calls[i].now <= interval &&
                        After(calls, interval, n + 1).lastStatVec == Split(calls[i].stat, ' ')
  {
    hide Split;
    ReadsAreApart(calls, interval, n + 1);
    FirstCallReads(calls, interval, n + 1);
    var r := Reads(calls, interval, n + 1);
    var i := r[|r| - 1];
    assert 0 <= i <= n;
  }

  lemma {:induction false} FirstCallReads(calls: seq<Call>, interval: int, n: nat)
    requires 0 < n <= |calls| && calls[0].now > interval
    ensures Reads(calls, interval, n) != [] && Reads(calls, interval, n)[0] == 0
  {
    if n > 1 {
      FirstCallReads(calls, interval, n - 1);
    } else {
      assert After(calls, interval, 0) == Cache(0, []);
      assert Reads(calls, interval, 0) == [];
    }
  }

  /** A run that spans a time D reads the file at most D / (interval + 1) + 1 times. */
  lemma {:induction false} ReadsAreFew(calls: seq<Call>, interval: int)
    requires calls != [] && interval >= 0 && Monotone(calls)
    ensures (|Reads(calls, interval, |calls|)| - 1) * (interval + 1) <= calls[|calls| - 1].now - calls[0].now
  {
    hide After, Split, Reads;
    var r := Reads(calls, interval, |calls|);
    if r == [] {
      assert calls[0].now <= calls[|calls| - 1].now;
    } else {
      ReadsTakeTime(calls, interval, |calls|, |r| - 1);
      ReadsAreApart(calls, interval, |calls|);
      assert calls[0].now <= calls[r[0]].now && calls[r[|r| - 1]].now <= calls[|calls| - 1].now;
    }
  }
}
