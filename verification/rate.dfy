/** rate_meter: numbers of QSOs and points by epoch, and the rate over a window. */
module Rate {
  import opened Text
  import opened Arithmetic
  import opened Extrema

  /** The map kept by the meter: epoch to (number of QSOs, points). */
  type Data = map<int, (nat, nat)>

  const U32 := 0x1_0000_0000

  // ----- std::map look-ups

  function UpTo(data: Data, t: int): set<int> {
    set u | u in data && u <= t
  }

  function From(data: Data, t: int): set<int> {
    set u | u in data && t <= u
  }

  function Min(x: int, y: int): int { if x < y then x else y }

  // ----- what the meter answers, given its map and the clock

  /** The entry that precedes end(). */
  function Current(data: Data): (nat, nat) {
    match Greatest(data.Keys)
    case None => (0, 0)
    case Some(t) => data[t]
  }

  /** qsos_and_score: the entry before the upper bound of t. */
  function QsosAndScore(data: Data, t: int, now: int): (nat, nat) {
    if Min(now, t) == now then Current(data)
    else match Greatest(UpTo(data, Min(now, t)))
         case None => (0, 0)
         case Some(u) => data[u]
  }

  /** qsos: reads the lower bound of t; None where that is end() and the source reads past the map. */
  function Qsos(data: Data, t: int, now: int): Option<nat> {
    if Min(now, t) == now then Some(Current(data).0)
    else if |data| == 0 then Some(0)
    else match Least(From(data, Min(now, t)))
         case None => None
         case Some(u) => Some(data[u].0)
  }

  /** Differences and products are of 32-bit unsigned integers. */
  function Scaled(difference: int, period: nat, seconds: int): nat
    requires 0 < seconds < U32
  {
    (difference % U32) * period % U32 / seconds
  }

  function CalculateRate(data: Data, now: int, secondsInPast: int, period: nat): (nat, nat)
    requires secondsInPast < U32
  {
    var current := QsosAndScore(data, now, now);
    if secondsInPast <= 0 then current
    else
      var past := QsosAndScore(data, now - secondsInPast, now);
      if period == 0 then ((current.0 - past.0) % U32, (current.1 - past.1) % U32)
      else (Scaled(current.0 - past.0, period, secondsInPast), Scaled(current.1 - past.1, period, secondsInPast))
  }

  // ----- insertion

  /** insert(t, np): map::insert never replaces an entry. */
  function Inserted(data: Data, t: int, np: nat): Data {
    if t in data then data else data[t := (|data| + 1, np)]
  }

  class RateMeter {
    var data: Data

    constructor ()
      ensures data == map[]
    {
      data := map[];
    }

    method Insert(t: int, np: nat) returns (inserted: bool)
      modifies this
      ensures data == Inserted(old(data), t, np)
      ensures inserted <==> t !in old(data)
    {
      inserted := t !in data;
      if inserted {
        data := data[t := (|data| + 1, np)];
      }
    }

    /** operator+= with an epoch and points. */
    method Add(tNp: (int, nat))
      modifies this
      ensures data == Inserted(old(data), tNp.0, tNp.1)
    {
      if tNp.0 !in data {
        data := data[tNp.0 := (|data| + 1, tNp.1)];
      }
    }

    method Clear()
      modifies this
      ensures data == map[]
    {
      data := map[];
    }

    function Size(): nat
      reads this
    {
      |data|
    }

    /** The number of QSOs of the last epoch. */
    function CurrentQsos(): (n: nat)
      reads this
      ensures data == map[] ==> n == 0
      ensures forall t :: t in data && (forall u :: u in data ==> u <= t) ==> n == data[t].0
    {
      Current(data).0
    }

    /** The points of the last epoch. */
    function CurrentScore(): (n: nat)
      reads this
      ensures data == map[] ==> n == 0
      ensures forall t :: t in data && (forall u :: u in data ==> u <= t) ==> n == data[t].1
    {
      Current(data).1
    }
  }

  // ----- whole runs

  ghost function AfterInserts(run: seq<(int, nat)>): Data {
    if run == [] then map[]
    else Inserted(AfterInserts(run[..|run| - 1]), run[|run| - 1].0, run[|run| - 1].1)
  }

  /** Every number from 1 to the size is the count of exactly one epoch. */
  ghost predicate CountsNumberEntries(data: Data) {
    && (forall t :: t in data ==> 1 <= data[t].0 <= |data|)
    && (forall t, u :: t in data && u in data && data[t].0 == data[u].0 ==> t == u)
    && (forall c: nat :: 1 <= c <= |data| ==> HasCount(data, c))
  }

  ghost predicate HasCount(data: Data, c: nat) {
    exists t :: t in data && data[t].0 == c
  }

  lemma {:induction false} InsertNumbers(data: Data, t: int, np: nat)
    requires CountsNumberEntries(data) && t !in data
    ensures CountsNumberEntries(Inserted(data, t, np))
  {
    var data' := Inserted(data, t, np);
    assert data'.Keys == data.Keys + {t};
    assert |data'| == |data| + 1;
    forall c: nat | 1 <= c <= |data'| ensures HasCount(data', c) {
      if c <= |data| {
        assert HasCount(data, c);
        var u :| u in data && data[u].0 == c;
        assert u in data' && data'[u].0 == c;
      } else {
        assert data'[t].0 == c;
      }
    }
  }

  ghost predicate Logged(run: seq<(int, nat)>, t: int) {
    exists i :: 0 <= i < |run| && run[i].0 == t
  }

  lemma {:induction false} LoggedSnoc(run: seq<(int, nat)>, x: (int, nat), t: int)
    ensures Logged(run + [x], t) <==> Logged(run, t) || x.0 == t
  {
    if i :| 0 <= i < |run| && run[i].0 == t {
      assert (run + [x])[i].0 == t;
    }
    assert (run + [x])[|run|] == x;
    if i :| 0 <= i < |run| + 1 && (run + [x])[i].0 == t && i < |run| {
      assert run[i].0 == t;
    }
  }

  lemma {:induction false} KeysOverRuns(run: seq<(int, nat)>, t: int)
    ensures t in AfterInserts(run) <==> Logged(run, t)
  {
    if run != [] {
      var last := |run| - 1;
      KeysOverRuns(run[..last], t);
      LoggedSnoc(run[..last], run[last], t);
      assert run == run[..last] + [run[last]];
    }
  }

  /** Whatever the order of the epochs, the counts stay a numbering of the entries, and a
      repeated epoch changes nothing. */
  lemma {:induction false} CountsOverRuns(run: seq<(int, nat)>, t: int, np: nat)
    ensures CountsNumberEntries(AfterInserts(run))
    ensures Logged(run, t) ==> AfterInserts(run + [(t, np)]) == AfterInserts(run)
    ensures !Logged(run, t) ==> AfterInserts(run + [(t, np)]) == AfterInserts(run)[t := (|AfterInserts(run)| + 1, np)]
  {
    hide CountsNumberEntries;
    KeysOverRuns(run, t);
    assert (run + [(t, np)])[..|run|] == run;
    if run == [] {
      NothingNumbered();
    } else {
      var last := |run| - 1;
      CountsOverRuns(run[..last], t, np);
      if run[last].0 !in AfterInserts(run[..last]) {
        InsertNumbers(AfterInserts(run[..last]), run[last].0, run[last].1);
      }
    }
  }

  lemma NothingNumbered()
    ensures CountsNumberEntries(map[])
  {
  }

  // ----- what is answered after whole runs

  /** The insertion that made the entry of epoch t. */
  ghost predicate FirstAt(run: seq<(int, nat)>, t: int, i: nat) {
    i < |run| && run[i].0 == t && forall j :: 0 <= j < i ==> run[j].0 != t
  }

  ghost function Epochs(run: seq<(int, nat)>, n: nat): set<int>
    requires n <= |run|
  {
    set j | 0 <= j < n :: run[j].0
  }

  lemma {:induction false} KeysAreEpochs(run: seq<(int, nat)>)
    ensures AfterInserts(run).Keys == Epochs(run, |run|)
  {
    forall t ensures t in AfterInserts(run) <==> t in Epochs(run, |run|) {
      KeysOverRuns(run, t);
    }
  }

  /** An entry keeps the points first inserted with its epoch, and as its count the number of
      different epochs that there were by then. */
  lemma {:induction false} EntryOverRuns(run: seq<(int, nat)>, t: int, i: nat)
    requires FirstAt(run, t, i)
    ensures t in AfterInserts(run) && AfterInserts(run)[t] == (|Epochs(run, i + 1)|, run[i].1)
  {
    var n := |run| - 1;
    var prefix := run[..n];
    if i == n {
      KeysAreEpochs(prefix);
      assert Epochs(prefix, n) == Epochs(run, n);
      assert Epochs(run, n + 1) == Epochs(run, n) + {t};
      assert t !in Epochs(run, n);
      SizeOfKeys(AfterInserts(prefix));
    } else {
      EntryOverRuns(prefix, t, i);
      assert Epochs(prefix, i + 1) == Epochs(run, i + 1);
    }
  }

  lemma SizeOfKeys(data: Data)
    ensures |data| == |data.Keys|
  {
  }

  /** Insertion i made the entry of the last epoch up to t. */
  ghost predicate LastUpTo(run: seq<(int, nat)>, t: int, i: nat) {
    i < |run| && run[i].0 <= t && FirstAt(run, run[i].0, i) &&
    forall j :: 0 <= j < |run| && run[j].0 <= t ==> run[j].0 <= run[i].0
  }

  /** qsos_and_score for a time in the past answers with the points first inserted with the
      last epoch up to that time, and the number of different epochs inserted by then. */
  lemma {:induction false} AnswersOverRuns(run: seq<(int, nat)>, t: int, now: int)
    requires t < now
    ensures (forall j :: 0 <= j < |run| ==> t < run[j].0) ==> QsosAndScore(AfterInserts(run), t, now) == (0, 0)
    ensures forall i: nat :: LastUpTo(run, t, i) ==>
                               QsosAndScore(AfterInserts(run), t, now) == (|Epochs(run, i + 1)|, run[i].1)
  {
    var data := AfterInserts(run);
    KeysAreEpochs(run);
    forall i: nat | LastUpTo(run, t, i)
      ensures QsosAndScore(data, t, now) == (|Epochs(run, i + 1)|, run[i].1)
    {
      EntryOverRuns(run, run[i].0, i);
      assert run[i].0 in UpTo(data, t);
    }
  }

  /** And for now or later with those of the last epoch of all. */
  lemma {:induction false} CurrentOverRuns(run: seq<(int, nat)>, t: int, now: int, i: nat)
    requires now <= t
    ensures run == [] ==> QsosAndScore(AfterInserts(run), t, now) == (0, 0)
    ensures FirstAt(run, if i < |run| then run[i].0 else 0, i) &&
            (forall j :: 0 <= j < |run| ==> run[j].0 <= run[i].0) ==>
              QsosAndScore(AfterInserts(run), t, now) == (|Epochs(run, i + 1)|, run[i].1)
  {
    var data := AfterInserts(run);
    KeysAreEpochs(run);
    if i < |run| && FirstAt(run, run[i].0, i) && forall j :: 0 <= j < |run| ==> run[j].0 <= run[i].0 {
      EntryOverRuns(run, run[i].0, i);
      assert run[i].0 in data.Keys;
    }
  }

  /** The count of an epoch is the number of entries up to it. */
  ghost predicate Ranked(data: Data) {
    forall t :: t in data ==> data[t].0 == |UpTo(data, t)|
  }

  lemma {:induction false} RankedOverRuns(run: seq<(int, nat)>)
    requires forall i, j :: 0 <= i < j < |run| ==> run[i].0 <= run[j].0
    ensures Ranked(AfterInserts(run))
    ensures forall t :: t in AfterInserts(run) ==> run != [] && t <= run[|run| - 1].0
  {
    if run != [] {
      var last := |run| - 1;
      RankedOverRuns(run[..last]);
      RankedInsert(AfterInserts(run[..last]), run[last].0, run[last].1);
    }
  }

  lemma {:induction false} RankedInsert(data: Data, t: int, np: nat)
    requires Ranked(data) && forall u :: u in data ==> u <= t
    ensures Ranked(Inserted(data, t, np))
  {
    if t !in data {
      var data' := Inserted(data, t, np);
      forall u | u in data' ensures data'[u].0 == |UpTo(data', u)| {
        UpToInserted(data, t, np, u);
      }
    }
  }

  lemma {:induction false} UpToInserted(data: Data, t: int, np: nat, u: int)
    requires t !in data && (forall v :: v in data ==> v <= t) && (u in data || u == t)
    ensures |UpTo(Inserted(data, t, np), u)| == if u == t then |data| + 1 else |UpTo(data, u)|
  {
    var data' := Inserted(data, t, np);
    if u == t {
      assert UpTo(data', t) == data.Keys + {t};
    } else {
      assert UpTo(data', u) == UpTo(data, u);
    }
  }

  lemma {:induction false} MoreUpTo(data: Data, t: int, u: int)
    requires t < u
    ensures UpTo(data, t) <= UpTo(data, u)
    ensures u in data ==> |UpTo(data, t)| < |UpTo(data, u)|
    ensures |UpTo(data, u)| == |UpTo(data, t)| + |UpTo(data, u) - UpTo(data, t)|
  {
    assert UpTo(data, u) == UpTo(data, t) + (UpTo(data, u) - UpTo(data, t));
    if u in data {
      assert u in UpTo(data, u) - UpTo(data, t);
    }
  }

  /** Epochs logged in order: counts rise with time, and the last one is the size. */
  lemma {:induction false} CountsRise(run: seq<(int, nat)>)
    requires forall i, j :: 0 <= i < j < |run| ==> run[i].0 <= run[j].0
    ensures var data := AfterInserts(run);
            && (forall t, u :: t in data && u in data && t < u ==> data[t].0 < data[u].0)
            && Current(data).0 == |data|
  {
    RankedOverRuns(run);
    var data := AfterInserts(run);
    forall t, u | t in data && u in data && t < u ensures data[t].0 < data[u].0 {
      MoreUpTo(data, t, u);
    }
    CurrentCountsAll(data);
  }

  lemma {:induction false} CurrentCountsAll(data: Data)
    requires Ranked(data)
    ensures Current(data).0 == |data|
  {
    var g := Greatest(data.Keys);
    if g.Some? {
      assert UpTo(data, g.value) == data.Keys;
    }
  }

  /** qsos_and_score counts the entries up to the time asked about. */
  lemma {:induction false} ScoreCounts(data: Data, t: int, now: int)
    requires Ranked(data) && t < now
    ensures QsosAndScore(data, t, now).0 == |UpTo(data, t)|
  {
    var g := Greatest(UpTo(data, t));
    if g.Some? {
      assert UpTo(data, g.value) == UpTo(data, t);
    }
  }

  /** qsos, which reads the lower bound, agrees with qsos_and_score exactly at logged epochs. */
  lemma {:induction false} QsosAgrees(data: Data, t: int, now: int)
    requires Ranked(data) && data != map[] && t < now
    ensures Qsos(data, t, now) == Some(QsosAndScore(data, t, now).0) <==> t in data
  {
    ScoreCounts(data, t, now);
    var l := Least(From(data, t));
    if t in data {
      assert t in From(data, t);
    } else if l.Some? {
      MoreUpTo(data, t, l.value);
    }
  }

  /** qsos answers with the count of the first epoch that is not before t, and reads past the
      map exactly when there is none; without epochs it is zero, and for now or later it is
      the number of QSOs that qsos_and_score gives. */
  lemma {:induction false} QsosIsNext(data: Data, t: int, now: int)
    ensures now <= t ==> Qsos(data, t, now) == Some(QsosAndScore(data, t, now).0)
    ensures t < now && data == map[] ==> Qsos(data, t, now) == Some(0)
    ensures t < now && data != map[] ==> (Qsos(data, t, now) == None <==> forall u :: u in data ==> u < t)
    ensures t < now ==> forall u :: u in data && t <= u && (forall w :: w in data && t <= w ==> u <= w) ==>
                                      Qsos(data, t, now) == Some(data[u].0)
  {
    if t < now && data != map[] {
      NotEmptySize(data);
      var least := Least(From(data, t));
      forall u | u in data && t <= u && forall w :: w in data && t <= w ==> u <= w
        ensures Qsos(data, t, now) == Some(data[u].0)
      {
        assert u in From(data, t);
      }
      if least.None? {
        assert forall u :: u in data && t <= u ==> u in From(data, t);
      } else {
        assert least.value in From(data, t);
      }
    }
  }

  lemma NotEmptySize(data: Data)
    ensures data != map[] <==> |data| > 0
  {
  }

  // ----- rates

  function Difference(x: int, y: int): int { x - y }

  lemma {:induction false} ScaledIs(difference: int, period: nat, seconds: int)
    requires 0 < seconds < U32
    ensures Scaled(difference, period, seconds) == difference * period % U32 / seconds
  {
    var q, m := difference / U32, difference % U32;
    var k, r := m * period / U32, m * period % U32;
    Distribute(period, U32 * q, m);
    Reassociate(U32, q, period);
    Distribute(U32, q * period, k);
    DivIs(difference * period, U32, q * period + k, r);
  }

  /** One figure of a rate is a difference per period, rounded down, exactly when the product
      is not negative and fits in 32 bits. */
  lemma {:induction false} ScaledRight(difference: int, period: nat, seconds: int)
    requires 0 < seconds < U32
    ensures Scaled(difference, period, seconds) == difference * period / seconds <==>
            0 <= difference * period < U32
  {
    ScaledIs(difference, period, seconds);
    var x := difference * period;
    if x < 0 {
      assert x / seconds < 0;
    } else {
      Truncation(x, seconds);
    }
  }

  /** The figures of a rate, QSOs and points alike: the present ones for a time not in the past;
      else their differences from the past ones, in 32-bit unsigned arithmetic, which are right
      exactly when they are not negative and fit. */
  lemma {:induction false} RateIsDifference(data: Data, now: int, seconds: int, period: nat)
    requires seconds < U32
    ensures var rate := CalculateRate(data, now, seconds, period);
            var present, past := QsosAndScore(data, now, now), QsosAndScore(data, now - seconds, now);
            var qsos, points := Difference(present.0, past.0), Difference(present.1, past.1);
            && (seconds <= 0 ==> rate == present)
            && (seconds > 0 && period == 0 ==>
                && rate.0 == qsos % 0x1_0000_0000 && (rate.0 == qsos <==> 0 <= qsos < 0x1_0000_0000)
                && rate.1 == points % 0x1_0000_0000 && (rate.1 == points <==> 0 <= points < 0x1_0000_0000))
            && (seconds > 0 && period > 0 ==>
                && rate.0 == qsos * period % 0x1_0000_0000 / seconds
                && (rate.0 == qsos * period / seconds <==> 0 <= qsos * period < 0x1_0000_0000)
                && rate.1 == points * period % 0x1_0000_0000 / seconds
                && (rate.1 == points * period / seconds <==> 0 <= points * period < 0x1_0000_0000))
  {
    hide QsosAndScore, Scaled;
    var present, past := QsosAndScore(data, now, now), QsosAndScore(data, now - seconds, now);
    var qsos, points := Difference(present.0, past.0), Difference(present.1, past.1);
    if seconds > 0 {
      ScaledIs(qsos, period, seconds);
      ScaledRight(qsos, period, seconds);
      ScaledIs(points, period, seconds);
      ScaledRight(points, period, seconds);
      Modulus(qsos);
      Modulus(points);
    }
  }

  lemma Modulus(x: int)
    ensures 0 <= x % U32 < U32
    ensures x % U32 == x <==> 0 <= x < U32
  {
  }

  /** The points that a run had by time t: those first inserted with the last epoch up to it. */
  ghost predicate PointsBy(run: seq<(int, nat)>, t: int, points: nat) {
    (exists k: nat :: LastUpTo(run, t, k) && points == run[k].1) ||
    (points == 0 && forall j :: 0 <= j < |run| ==> t < run[j].0)
  }

  lemma {:induction false} PointsByAnswered(run: seq<(int, nat)>, t: int, now: int, points: nat)
    requires PointsBy(run, t, points) && t < now
    ensures QsosAndScore(AfterInserts(run), t, now).1 == points
  {
    AnswersOverRuns(run, t, now);
  }

  /** Over a run the points in a rate are those by the last epoch of all less those by the
      start of the window. */
  lemma {:induction false} PointsOverRuns(run: seq<(int, nat)>, now: int, seconds: int, period: nat, i: nat, past: nat)
    requires 0 < seconds < U32 && i < |run|
    requires FirstAt(run, run[i].0, i) && forall j :: 0 <= j < |run| ==> run[j].0 <= run[i].0
    requires PointsBy(run, now - seconds, past)
    ensures var difference := Difference(run[i].1, past);
            CalculateRate(AfterInserts(run), now, seconds, period).1 ==
            if period == 0 then difference % U32 else difference * period % U32 / seconds
  {
    hide QsosAndScore, CalculateRate, PointsBy, AfterInserts;
    CurrentOverRuns(run, now, now, i);
    PointsByAnswered(run, now - seconds, now, past);
    RateIsDifference(AfterInserts(run), now, seconds, period);
  }

  /** Entries in the window that ends now. */
  ghost function Window(data: Data, now: int, seconds: int): set<int> {
    set u | u in data && now - seconds < u
  }

  lemma {:induction false} WindowDifference(data: Data, now: int, seconds: int)
    requires Ranked(data) && seconds > 0 && forall t :: t in data ==> t <= now
    ensures QsosAndScore(data, now, now).0 - QsosAndScore(data, now - seconds, now).0 == |Window(data, now, seconds)|
    ensures |Window(data, now, seconds)| <= |data|
  {
    hide Ranked;
    CurrentCountsAll(data);
    ScoreCounts(data, now - seconds, now);
    WindowAndPast(data, now, seconds);
  }

  lemma {:induction false} WindowAndPast(data: Data, now: int, seconds: int)
    ensures |data| == |Window(data, now, seconds)| + |UpTo(data, now - seconds)|
  {
    var w, past := Window(data, now, seconds), UpTo(data, now - seconds);
    assert data.Keys == w + past && w !! past;
  }

  /** Without normalisation the rate is the number of QSOs in the window; with it, it is that
      number per period, rounded down, exactly when the product fits in 32 bits. */
  lemma {:induction false} RateCountsWindow(data: Data, now: int, seconds: int, period: nat)
    requires Ranked(data) && 0 < seconds < U32 && |data| < U32 && forall t :: t in data ==> t <= now
    ensures var w := |Window(data, now, seconds)|;
            && (period == 0 ==> CalculateRate(data, now, seconds, period).0 == w)
            && (period > 0 ==>
                (CalculateRate(data, now, seconds, period).0 == w * period / seconds <==> w * period < U32))
  {
    WindowDifference(data, now, seconds);
    var w: nat := |Window(data, now, seconds)|;
    DivIs(w, U32, 0, w);
    MulLe(w, 0, period);
    Truncation(w * period, seconds);
  }

  lemma Truncation(x: nat, s: int)
    requires 0 < s < U32
    ensures x % U32 / s == x / s <==> x < U32
  {
  }
}
