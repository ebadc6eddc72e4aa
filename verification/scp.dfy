/** scp_database: calls indexed by their pairs of characters, with a cache of the last lookup;
    and scp_databases, which consults several of them. */
module Scp {
  import opened Text

  const SCP_KEY_SIZE := 2

  /** The calls that contain key. */
  ghost function Matches(calls: set<string>, key: string): set<string> {
    set c | c in calls && Contains(c, key)
  }

  lemma {:induction false} ContainsTransitive(s: string, t: string, u: string)
    requires Contains(s, t) && Contains(t, u)
    ensures Contains(s, u)
  {
    var i :| OccursAt(s, t, i);
    var j :| OccursAt(t, u, j);
    forall k | 0 <= k < |u| ensures s[i + j + k] == u[k] {
      assert u[k] == t[j..j + |u|][k] == t[j + k] == s[i..i + |t|][j + k];
    }
    assert OccursAt(s, u, i + j);
  }

  lemma {:induction false} ContainsItsStart(key: string)
    requires |key| >= SCP_KEY_SIZE
    ensures Contains(key, key[..SCP_KEY_SIZE])
  {
    assert OccursAt(key, key[..SCP_KEY_SIZE], 0);
  }

  /** Filtering the matches of a shorter key gives the matches of the longer one. */
  lemma {:induction false} NarrowMatches(calls: set<string>, shorter: string, key: string)
    requires Contains(key, shorter)
    ensures Matches(Matches(calls, shorter), key) == Matches(calls, key)
  {
    hide Contains;
    forall c | Contains(c, key) ensures Contains(c, shorter) {
      ContainsTransitive(c, key, shorter);
    }
  }

  // ----- the cache, over a plain set of calls

  datatype Cache = Cache(key: string, result: set<string>)

  const EMPTY_CACHE := Cache("", {})

  ghost predicate Hit(cache: Cache, key: string) {
    |key| > SCP_KEY_SIZE && cache.key != "" && Contains(key, cache.key)
  }

  /** What a lookup answers. */
  ghost function Answer(cache: Cache, calls: set<string>, key: string): set<string> {
    if |key| < SCP_KEY_SIZE then {}
    else if Hit(cache, key) then Matches(cache.result, key)
    else Matches(calls, key)
  }

  /** The cache it leaves behind. */
  ghost function Remember(cache: Cache, calls: set<string>, key: string): Cache {
    if |key| < SCP_KEY_SIZE then cache else Cache(key, Answer(cache, calls, key))
  }

  /** Become is any change of the calls that leaves the cache alone. */
  datatype Op =
    | Add(call: string)
    | Remove(call: string)
    | Become(calls: set<string>)
    | Look(key: string)
    | ClearCache
    | Clear

  datatype State = State(calls: set<string>, cache: Cache)

  ghost function Step(s: State, op: Op): State {
    match op
    case Add(call) => if |call| >= SCP_KEY_SIZE then State(s.calls + {call}, s.cache) else s
    case Remove(call) => State(s.calls - {call}, s.cache)
    case Become(calls) => State(calls, s.cache)
    case Look(key) => State(s.calls, Remember(s.cache, s.calls, key))
    case ClearCache => State(s.calls, EMPTY_CACHE)
    case Clear => State({}, EMPTY_CACHE)
  }

  ghost function Run(ops: seq<Op>): State {
    if ops == [] then State({}, EMPTY_CACHE) else Step(Run(ops[..|ops| - 1]), ops[|ops| - 1])
  }

  ghost predicate Fills(s: State, op: Op) {
    op.Look? && |op.key| >= SCP_KEY_SIZE && !Hit(s.cache, op.key)
  }

  /** The calls as they were when a lookup last went to the database. */
  ghost function Snapshot(ops: seq<Op>): set<string> {
    if ops == [] then {}
    else
      var before := ops[..|ops| - 1];
      if Fills(Run(before), ops[|ops| - 1]) then Run(before).calls else Snapshot(before)
  }

  /** Since then, a call that contains key has been added or removed. */
  ghost predicate Disturbed(ops: seq<Op>, key: string) {
    ops != [] &&
    var before := ops[..|ops| - 1];
    match ops[|ops| - 1]
    case Add(call) => Contains(call, key) || Disturbed(before, key)
    case Remove(call) => Contains(call, key) || Disturbed(before, key)
    case Become(calls) =>
      (exists c :: Contains(c, key) && c in calls + Run(before).calls && c !in calls * Run(before).calls) ||
      Disturbed(before, key)
    case Look(k) => !Fills(Run(before), Look(k)) && Disturbed(before, key)
    case _ => Disturbed(before, key)
  }

  /** Over every run the cache holds the matches, in the snapshot, of its key. */
  lemma {:induction false} CacheOverRuns(ops: seq<Op>)
    ensures var cache := Run(ops).cache;
            cache.key != "" ==> cache.result == Matches(Snapshot(ops), cache.key)
  {
    hide Matches, Contains;
    if ops != [] {
      var before := ops[..|ops| - 1];
      CacheOverRuns(before);
      var op := ops[|ops| - 1];
      if op.Look? && Hit(Run(before).cache, op.key) {
        NarrowMatches(Snapshot(before), Run(before).cache.key, op.key);
      }
    }
  }

  /** A hit answers for the snapshot, anything else for the present calls. */
  lemma {:induction false} AnswerOverRuns(ops: seq<Op>, key: string)
    requires |key| >= SCP_KEY_SIZE
    ensures var s := Run(ops);
            Answer(s.cache, s.calls, key) == Matches(if Hit(s.cache, key) then Snapshot(ops) else s.calls, key)
  {
    hide Matches, Contains, Run, Snapshot;
    CacheOverRuns(ops);
    if Hit(Run(ops).cache, key) {
      NarrowMatches(Snapshot(ops), Run(ops).cache.key, key);
    }
  }

  /** So the answer is right exactly when it is no hit or no call containing the key is in
      one of the two sets only. */
  lemma {:induction false} AnswerRight(ops: seq<Op>, key: string)
    requires |key| >= SCP_KEY_SIZE
    ensures var s := Run(ops);
            Answer(s.cache, s.calls, key) == Matches(s.calls, key) <==>
            (Hit(s.cache, key) ==> forall c :: Contains(c, key) ==> (c in Snapshot(ops) <==> c in s.calls))
  {
    hide Contains, Run, Snapshot, Answer, Hit;
    AnswerOverRuns(ops, key);
    var s := Run(ops);
    forall c | Contains(c, key)
      ensures c in Snapshot(ops) <==> c in Matches(Snapshot(ops), key)
      ensures c in s.calls <==> c in Matches(s.calls, key)
    {
    }
  }

  /** While a run stays undisturbed for a key, snapshot and calls agree on what contains it. */
  lemma {:induction false} UndisturbedAgrees(ops: seq<Op>, key: string)
    requires !Disturbed(ops, key)
    ensures Run(ops).cache.key != "" ==> forall c :: Contains(c, key) ==> (c in Snapshot(ops) <==> c in Run(ops).calls)
  {
    hide Contains, Answer, Hit;
    if ops != [] {
      if !Fills(Run(ops[..|ops| - 1]), ops[|ops| - 1]) {
        UndisturbedAgrees(ops[..|ops| - 1], key);
        EmptyCacheMisses(Run(ops[..|ops| - 1]).cache, ops[|ops| - 1]);
      }
    }
  }

  lemma EmptyCacheMisses(cache: Cache, op: Op)
    ensures op.Look? && cache.key == "" ==> !Hit(cache, op.key)
  {
  }

  /** What the cache promises: lookups of ever longer keys answer as the database would, as
      long as no call that contains the key comes or goes in between. */
  lemma {:induction false} UndisturbedAnswerRight(ops: seq<Op>, key: string)
    requires |key| >= SCP_KEY_SIZE && !Disturbed(ops, key)
    ensures Answer(Run(ops).cache, Run(ops).calls, key) == Matches(Run(ops).calls, key)
  {
    hide Contains, Answer, Run, Snapshot, Disturbed;
    UndisturbedAgrees(ops, key);
    AnswerRight(ops, key);
  }

  /** Adding a call does not clear the cache: K1ABC is added after K1 was looked up, and
      looking up K1A does not find it. */
  lemma {:induction false} AddedCallMissed()
    ensures var s := Run([Add("K1AB"), Look("K1"), Add("K1ABC")]);
            Answer(s.cache, s.calls, "K1A") == {"K1AB"} && "K1ABC" in Matches(s.calls, "K1A")
  {
    var s1 := Step(Run([]), Add("K1AB"));
    assert Run([Add("K1AB")]) == s1 by { assert [Add("K1AB")][..0] == []; }
    var s2 := Step(s1, Look("K1"));
    assert Run([Add("K1AB"), Look("K1")]) == s2 by { assert [Add("K1AB"), Look("K1")][..1] == [Add("K1AB")]; }
    var ops := [Add("K1AB"), Look("K1"), Add("K1ABC")];
    assert Run(ops) == Step(s2, Add("K1ABC")) by { assert ops[..2] == [Add("K1AB"), Look("K1")]; }
    assert OccursAt("K1AB", "K1", 0) && OccursAt("K1AB", "K1A", 0) && OccursAt("K1ABC", "K1A", 0);
    assert OccursAt("K1A", "K1", 0);
  }

  // ----- the cache of several databases

  ghost function Union(dbs: seq<set<string>>): set<string> {
    set i, c | 0 <= i < |dbs| && c in dbs[i] :: c
  }

  /** Change: calls come to or go from one of the databases. Forget: the cache is cleared, or
      that of one of the databases, which clears its parents' as well. */
  datatype DbOp = Change(k: nat, calls: set<string>) | Consult(calls: set<string>) | Seek(key: string) | Forget

  datatype Dbs = Dbs(dbs: seq<set<string>>, cache: Cache)

  ghost function StepDbs(s: Dbs, op: DbOp): Dbs {
    match op
    case Change(k, calls) => if k < |s.dbs| then Dbs(s.dbs[k := calls], s.cache) else s
    case Consult(calls) => Dbs(s.dbs + [calls], s.cache)
    case Seek(key) => Dbs(s.dbs, Remember(s.cache, Union(s.dbs), key))
    case Forget => Dbs(s.dbs, EMPTY_CACHE)
  }

  ghost function RunDbs(ops: seq<DbOp>): Dbs {
    if ops == [] then Dbs([], EMPTY_CACHE) else StepDbs(RunDbs(ops[..|ops| - 1]), ops[|ops| - 1])
  }

  /** The same run, of one database that holds the calls of all of them. */
  ghost function AsOne(ops: seq<DbOp>): seq<Op> {
    if ops == [] then []
    else
      var last := ops[|ops| - 1];
      AsOne(ops[..|ops| - 1]) +
      [match last
       case Seek(key) => Look(key)
       case Forget => ClearCache
       case _ => Become(Union(RunDbs(ops).dbs))]
  }

  lemma {:induction false} UnionOverRuns(ops: seq<DbOp>)
    ensures Run(AsOne(ops)) == State(Union(RunDbs(ops).dbs), RunDbs(ops).cache)
  {
    hide Union, Answer, Hit, Remember;
    if ops == [] {
      UnionOfNone();
    } else {
      var before := AsOne(ops[..|ops| - 1]);
      UnionOverRuns(ops[..|ops| - 1]);
      var all := AsOne(ops);
      assert all[..|all| - 1] == before;
    }
  }

  lemma UnionOfNone()
    ensures Union([]) == {}
  {
  }

  /** Over every run of several databases, a lookup answers for the union of their calls
      exactly when it is no hit or no call containing the key has come or gone, on balance and
      in all of them together, since the cache was filled. */
  lemma {:induction false} UnionAnswerRight(ops: seq<DbOp>, key: string)
    requires |key| >= SCP_KEY_SIZE
    ensures var s := RunDbs(ops); var calls := Union(s.dbs);
            Answer(s.cache, calls, key) == Matches(calls, key) <==>
            (Hit(s.cache, key) ==> forall c :: Contains(c, key) ==> (c in Snapshot(AsOne(ops)) <==> c in calls))
  {
    hide *;
    UnionOverRuns(ops);
    AnswerRight(AsOne(ops), key);
  }

  // ----- the index

  function At(db: map<string, set<string>>, key: string): set<string> {
    if key in db then db[key] else {}
  }

  /** key is one of the first n pairs of characters of the call. */
  ghost predicate PairBefore(call: string, key: string, n: int) {
    |key| == SCP_KEY_SIZE && exists j :: 0 <= j < n && OccursAt(call, key, j)
  }

  lemma NoPairYet(call: string)
    ensures forall key :: !PairBefore(call, key, 0)
  {
  }

  lemma {:induction false} NextPair(call: string, n: nat, key: string)
    requires n + 2 <= |call|
    ensures PairBefore(call, key, n + 1) <==> PairBefore(call, key, n) || key == call[n..n + 2]
  {
    if PairBefore(call, key, n) {
      var j :| 0 <= j < n && OccursAt(call, key, j);
      assert 0 <= j < n + 1;
    }
    if key == call[n..n + 2] {
      assert OccursAt(call, key, n);
    }
  }

  /** Whether the last pair of characters of the call occurs nowhere before its end. */
  ghost predicate LastPairIsNew(call: string) {
    |call| >= SCP_KEY_SIZE && !PairBefore(call, call[|call| - 2..], |call| - 2)
  }

  /** Each pair of characters leads to the calls that contain it; shorter calls are not kept. */
  ghost predicate Indexes(db: map<string, set<string>>, calls: set<string>) {
    && (forall c :: c in calls ==> |c| >= SCP_KEY_SIZE)
    && forall k :: At(db, k) == if |k| == SCP_KEY_SIZE then Matches(calls, k) else {}
  }

  /** db' is db with the call added under its first n pairs. */
  ghost predicate AddedPairs(db: map<string, set<string>>, db': map<string, set<string>>, call: string, n: int) {
    forall k :: At(db', k) == At(db, k) + if PairBefore(call, k, n) then {call} else {}
  }

  ghost predicate RemovedPairs(db: map<string, set<string>>, db': map<string, set<string>>, call: string, n: int) {
    forall k :: At(db', k) == At(db, k) - if PairBefore(call, k, n) then {call} else {}
  }

  lemma {:induction false} PairsStart(db: map<string, set<string>>, call: string)
    ensures AddedPairs(db, db, call, 0) && RemovedPairs(db, db, call, 0)
  {
    NoPairYet(call);
    hide PairBefore;
  }

  lemma {:induction false} PairsNext(db: map<string, set<string>>, db': map<string, set<string>>, call: string, n: nat)
    requires n + 2 <= |call|
    ensures var key := call[n..n + 2];
            && (AddedPairs(db, db', call, n) ==>
                AddedPairs(db, db'[key := At(db', key) + {call}], call, n + 1))
            && (RemovedPairs(db, db', call, n) ==>
                && RemovedPairs(db, db'[key := At(db', key) - {call}], call, n + 1)
                && (call in At(db', key) <==> call in At(db, key) && !PairBefore(call, key, n)))
  {
    var key := call[n..n + 2];
    hide PairBefore;
    forall k ensures PairBefore(call, k, n + 1) <==> PairBefore(call, k, n) || k == key {
      NextPair(call, n, k);
    }
  }

  lemma AddedIsIndexed(db: map<string, set<string>>, db': map<string, set<string>>, calls: set<string>, call: string)
    requires Indexes(db, calls) && |call| >= SCP_KEY_SIZE && AddedPairs(db, db', call, |call| - 1)
    ensures Indexes(db', calls + {call})
  {
  }

  lemma RemovedIsIndexed(db: map<string, set<string>>, db': map<string, set<string>>, calls: set<string>, call: string)
    requires Indexes(db, calls) && |call| >= SCP_KEY_SIZE && RemovedPairs(db, db', call, |call| - 1)
    ensures Indexes(db', calls - {call})
  {
  }

  lemma {:induction false} ShortNotHeld(db: map<string, set<string>>, calls: set<string>, call: string)
    requires Indexes(db, calls)
    ensures |call| < SCP_KEY_SIZE ==> calls - {call} == calls && call !in calls
  {
    hide Matches;
  }

  /** A call is held exactly when its last pair of characters leads to it. */
  lemma {:induction false} HeldUnderLastPair(db: map<string, set<string>>, calls: set<string>, call: string)
    requires Indexes(db, calls) && |call| >= SCP_KEY_SIZE
    ensures call in calls <==> call in At(db, call[|call| - 2..])
  {
    assert OccursAt(call, call[|call| - 2..], |call| - 2);
  }

  class ScpDatabase {
    var db: map<string, set<string>>
    var lastKey: string
    var lastResult: set<string>
    var parents: seq<ScpDatabases>
    ghost var calls: set<string>

    ghost predicate Valid()
      reads this
    {
      Indexes(db, calls)
    }

    ghost function Kept(): Cache
      reads this
    {
      Cache(lastKey, lastResult)
    }

    /** The state that the runs above speak of. */
    ghost function Now(): State
      reads this
    {
      State(calls, Kept())
    }

    constructor ()
      ensures Valid() && calls == {} && Kept() == EMPTY_CACHE && parents == []
      ensures Now() == Run([])
    {
      db, lastKey, lastResult, calls, parents := map[], "", {}, {}, [];
    }

    method Add(call: string)
      requires Valid()
      modifies this`db, this`calls
      ensures Valid()
      ensures calls == if |call| >= SCP_KEY_SIZE then old(calls) + {call} else old(calls)
      ensures Now() == Step(old(Now()), Op.Add(call))
    {
      hide Contains, PairBefore, AddedPairs, Indexes;
      if |call| >= SCP_KEY_SIZE {
        PairsStart(db, call);
        for start := 0 to |call| - 1
          invariant calls == old(calls)
          invariant AddedPairs(old(db), db, call, start)
        {
          var key := Substring(call, start, SCP_KEY_SIZE);
          assert key == call[start..start + 2];
          PairsNext(old(db), db, call, start);
          db := db[key := At(db, key) + {call}];
        }
        AddedIsIndexed(old(db), db, calls, call);
        calls := calls + {call};
      }
    }

    /** The answer is that of the last erasure alone. */
    method RemoveCall(call: string) returns (removed: bool)
      requires Valid()
      modifies this`db, this`calls
      ensures Valid() && calls == old(calls) - {call}
      ensures Now() == Step(old(Now()), Remove(call))
      ensures removed <==> call in old(calls) && LastPairIsNew(call)
    {
      hide Contains, PairBefore, RemovedPairs, Indexes;
      removed := false;
      ShortNotHeld(db, calls, call);
      if |call| >= SCP_KEY_SIZE {
        PairsStart(db, call);
        HeldUnderLastPair(db, calls, call);
        for start := 0 to |call| - 1
          invariant calls == old(calls)
          invariant RemovedPairs(old(db), db, call, start)
          invariant start == |call| - 1 ==> (removed <==> call in old(calls) && LastPairIsNew(call))
        {
          var key := Substring(call, start, SCP_KEY_SIZE);
          assert key == call[start..start + 2];
          PairsNext(old(db), db, call, start);
          assert start == |call| - 2 ==> key == call[|call| - 2..];
          removed := call in At(db, key);
          db := db[key := At(db, key) - {call}];
        }
        RemovedIsIndexed(old(db), db, calls, call);
        calls := calls - {call};
      }
    }

    method IsIn(call: string) returns (r: bool)
      requires Valid()
      modifies this`db
      ensures Valid()
      ensures r <==> call in calls
    {
      if call == "" {
        return false;
      }
      var key := Substring(call, 0, SCP_KEY_SIZE);
      Touch(key);
      if |call| >= SCP_KEY_SIZE {
        assert key == call[..SCP_KEY_SIZE];
        ContainsItsStart(call);
      }
      r := call in db[key];
    }

    /** map::operator[] makes an empty entry for a key it does not know. */
    method Touch(key: string)
      requires Valid()
      modifies this`db
      ensures Valid() && key in db && db[key] == At(old(db), key)
    {
      db := db[key := At(db, key)];
    }

    method Lookup(key: string) returns (rv: set<string>)
      requires Valid()
      modifies this`db, this`lastKey, this`lastResult
      ensures Valid()
      ensures rv == Answer(old(Kept()), calls, key)
      ensures Kept() == Remember(old(Kept()), calls, key)
      ensures Now() == Step(old(Now()), Look(key))
    {
      hide Contains;
      if |key| < SCP_KEY_SIZE {
        return {};
      }
      if |key| == SCP_KEY_SIZE {
        lastKey := key;
        Touch(key);
        lastResult := db[key];
        return lastResult;
      }
      FindContains(key, lastKey);
      if lastKey != "" && Find(key, lastKey, 0).Some? {
        rv := Filter(lastResult, key);
      } else {
        var pair := Substring(key, 0, SCP_KEY_SIZE);
        assert pair == key[..SCP_KEY_SIZE];
        Touch(pair);
        rv := Filter(db[pair], key);
        ContainsItsStart(key);
        NarrowMatches(calls, pair, key);
      }
      lastKey, lastResult := key, rv;
    }

    method AddParent(p: ScpDatabases)
      modifies this`parents
      ensures parents == old(parents) + [p]
    {
      parents := parents + [p];
    }

    /** Clears the caches of the parents too. */
    method ClearCache()
      modifies this`lastKey, this`lastResult, parents`lastKey, parents`lastResult
      ensures Kept() == EMPTY_CACHE && forall p :: p in parents ==> p.Kept() == EMPTY_CACHE
      ensures Now() == Step(old(Now()), Op.ClearCache)
    {
      lastKey, lastResult := "", {};
      for i := 0 to |parents|
        invariant forall p :: p in parents[..i] ==> p.Kept() == EMPTY_CACHE
        invariant Kept() == EMPTY_CACHE
      {
        parents[i].ClearCacheNoChildren();
        assert parents[..i + 1] == parents[..i] + [parents[i]];
      }
      assert parents[..|parents|] == parents;
    }

    method Clear()
      modifies this`db, this`calls, this`lastKey, this`lastResult, parents`lastKey, parents`lastResult
      ensures Valid() && calls == {} && Kept() == EMPTY_CACHE
      ensures Now() == Step(old(Now()), Op.Clear)
      ensures forall p :: p in parents ==> p.Kept() == EMPTY_CACHE
    {
      db, calls := map[], {};
      ClearCache();
    }
  }

  method Filter(from: set<string>, key: string) returns (rv: set<string>)
    ensures rv == Matches(from, key)
  {
    hide Contains;
    rv := {};
    var left := from;
    while left != {}
      invariant left <= from && rv == Matches(from - left, key)
      decreases |left|
    {
      var c :| c in left;
      FindContains(c, key);
      assert from - (left - {c}) == (from - left) + {c};
      if Find(c, key, 0).Some? {
        rv := rv + {c};
      }
      left := left - {c};
    }
    assert from - left == from;
  }

  lemma NothingMatches(key: string)
    ensures Matches({}, key) == {}
  {
  }

  lemma MatchesOfUnion(x: set<string>, y: set<string>, key: string)
    ensures Matches(x + y, key) == Matches(x, key) + Matches(y, key)
  {
  }

  // ----- several databases

  class ScpDatabases {
    var vec: seq<ScpDatabase>
    var lastKey: string
    var lastResult: set<string>

    ghost predicate Valid()
      reads this, vec
    {
      forall d :: d in vec ==> d.Valid()
    }

    ghost function Calls(n: nat): set<string>
      requires n <= |vec|
      reads this, vec
    {
      set i, c | 0 <= i < n && c in vec[i].calls :: c
    }

    ghost function Kept(): Cache
      reads this
    {
      Cache(lastKey, lastResult)
    }

    /** The calls of each of the databases, and the cache. */
    ghost function Now(): Dbs
      reads this, vec
    {
      Dbs(seq(|vec|, i requires 0 <= i < |vec| reads this, vec => vec[i].calls), Kept())
    }

    lemma {:induction false} CallsAreUnion()
      ensures Calls(|vec|) == Union(Now().dbs)
    {
      forall c ensures c in Calls(|vec|) <==> c in Union(Now().dbs) {
        if i :| 0 <= i < |vec| && c in vec[i].calls { assert c in Now().dbs[i]; }
      }
    }

    constructor ()
      ensures Valid() && vec == [] && Kept() == EMPTY_CACHE
      ensures Now() == RunDbs([])
    {
      vec, lastKey, lastResult := [], "", {};
    }

    method AddDb(d: ScpDatabase)
      requires Valid() && d.Valid()
      modifies this`vec, d`parents
      ensures Valid() && vec == old(vec) + [d] && d.parents == old(d.parents) + [this]
      ensures Now() == StepDbs(old(Now()), Consult(d.calls))
    {
      vec := vec + [d];
      d.AddParent(this);
    }

    method ClearCacheNoChildren()
      modifies this`lastKey, this`lastResult
      ensures Kept() == EMPTY_CACHE
      ensures Now() == StepDbs(old(Now()), Forget)
    {
      lastKey, lastResult := "", {};
    }

    ghost function Parents(): set<ScpDatabases>
      reads this, vec
    {
      set d, p | d in vec && p in d.parents :: p
    }

    /** Clears the caches of the databases too, and so of all their parents. */
    method ClearCache()
      modifies this`lastKey, this`lastResult, vec`lastKey, vec`lastResult, Parents()`lastKey, Parents()`lastResult
      ensures Kept() == EMPTY_CACHE
      ensures forall d :: d in vec ==> d.Kept() == EMPTY_CACHE
      ensures forall p :: p in Parents() ==> p.Kept() == EMPTY_CACHE
      ensures Now() == StepDbs(old(Now()), Forget)
    {
      ClearCacheNoChildren();
      for i := 0 to |vec|
        invariant Kept() == EMPTY_CACHE
        invariant forall d :: d in vec[..i] ==>
                    d.Kept() == EMPTY_CACHE && forall p :: p in d.parents ==> p.Kept() == EMPTY_CACHE
      {
        assert forall p :: p in vec[i].parents ==> p in old(Parents());
        vec[i].ClearCache();
        assert vec[..i + 1] == vec[..i] + [vec[i]];
      }
      assert vec[..|vec|] == vec;
    }

    /** Answers as one database holding the calls of all of them would. */
    method Lookup(key: string) returns (rv: set<string>)
      requires Valid()
      modifies this`lastKey, this`lastResult, vec
      ensures Valid() && forall d :: d in vec ==> d.calls == old(d.calls)
      ensures rv == Answer(old(Kept()), Calls(|vec|), key)
      ensures Kept() == Remember(old(Kept()), Calls(|vec|), key)
      ensures Now() == StepDbs(old(Now()), Seek(key))
    {
      hide Contains;
      CallsAreUnion();
      if |key| < SCP_KEY_SIZE {
        return {};
      }
      if |key| == SCP_KEY_SIZE {
        rv := Gather(key, key);
        lastKey, lastResult := key, rv;
        return;
      }
      FindContains(key, lastKey);
      if lastKey != "" && Find(key, lastKey, 0).Some? {
        rv := Filter(lastResult, key);
      } else {
        rv := Gather(Substring(key, 0, SCP_KEY_SIZE), key);
      }
      lastKey, lastResult := key, rv;
    }

    /** The matches of key among what each database answers for its first two characters. */
    method Gather(pair: string, key: string) returns (rv: set<string>)
      requires Valid() && |key| >= SCP_KEY_SIZE && pair == key[..SCP_KEY_SIZE]
      modifies vec
      ensures Valid() && forall d :: d in vec ==> d.calls == old(d.calls)
      ensures rv == Matches(Calls(|vec|), key)
    {
      hide Contains, Indexes, Matches;
      ContainsItsStart(key);
      rv := {};
      NothingMatches(key);
      assert Calls(0) == {};
      for i := 0 to |vec|
        invariant Valid() && forall d :: d in vec ==> d.calls == old(d.calls)
        invariant rv == Matches(Calls(i), key)
      {
        ghost var before, here := Calls(i), vec[i].calls;
        var found := vec[i].Lookup(pair);
        NarrowMatches(here, pair, key);
        assert Calls(i + 1) == before + here;
        MatchesOfUnion(before, here, key);
        var more := Filter(found, key);
        rv := rv + more;
      }
    }

    /** Erases the call from one database after another until one of them says that it
        removed it. */
    method RemoveCall(call: string)
      requires Valid()
      modifies vec
      ensures Valid()
      ensures forall d :: d in vec ==>
                d.calls == if (exists i :: (0 <= i < |vec| && vec[i] == d &&
                                            (forall j :: 0 <= j < i ==>
                                              !(LastPairIsNew(call) && call in old(vec[j].calls)))))
                           then old(d.calls) - {call} else old(d.calls)
    {
      hide Contains, LastPairIsNew, Indexes;
      var removed, i := false, 0;
      while !removed && i < |vec|
        invariant i <= |vec| && Valid()
        invariant forall d :: d in vec ==> d.calls == if d in vec[..i] then old(d.calls) - {call} else old(d.calls)
        invariant forall j :: 0 <= j < i - 1 ==> !(LastPairIsNew(call) && call in old(vec[j].calls))
        invariant i > 0 ==> (removed <==> LastPairIsNew(call) && call in old(vec[i - 1].calls))
        invariant removed ==> i > 0
      {
        assert forall d :: d in vec[..i + 1] <==> d in vec[..i] || d == vec[i];
        removed := vec[i].RemoveCall(call);
        i := i + 1;
      }
    }
  }
}
