/** n_posters_database: which calls have been posted often enough lately. */
module Posters {
  import opened Text
  import opened Arithmetic
  import opened Extrema

  /** Minute, call, posters. */
  type Data = map<int, map<string, set<string>>>

  /** The posts that a database holds: minute, call, poster. */
  ghost predicate Posted(data: Data, t: int, call: string, poster: string) {
    t in data && call in data[t] && poster in data[t][call]
  }

  ghost function PostersAt(data: Data, t: int, call: string): set<string> {
    if t in data && call in data[t] then data[t][call] else {}
  }

  /** The different pairs of minute and poster under which a call was posted. */
  ghost function Sightings(data: Data, times: set<int>, call: string): set<(int, string)> {
    set t, p | t in times && p in PostersAt(data, t, call) :: (t, p)
  }

  ghost function NSightings(data: Data, call: string): nat {
    |Sightings(data, data.Keys, call)|
  }

  lemma {:induction false} AtOneTime(data: Data, t: int, call: string, ps: set<string>)
    requires ps <= PostersAt(data, t, call)
    ensures |set p | p in ps :: (t, p)| == |ps|
  {
    var pairs := set p | p in ps :: (t, p);
    if ps == {} {
      assert pairs == {};
    } else {
      var p := AnElement(ps);
      AtOneTime(data, t, call, ps - {p});
      assert pairs == (set q | q in ps - {p} :: (t, q)) + {(t, p)};
    }
  }

  lemma {:induction false} OneMoreTime(data: Data, times: set<int>, t: int, call: string)
    requires t !in times
    ensures |Sightings(data, times + {t}, call)| == |Sightings(data, times, call)| + |PostersAt(data, t, call)|
  {
    var now := set p | p in PostersAt(data, t, call) :: (t, p);
    AtOneTime(data, t, call, PostersAt(data, t, call));
    assert Sightings(data, times + {t}, call) == Sightings(data, times, call) + now;
    assert Sightings(data, times, call) !! now;
  }

  ghost function Projected(s: set<(int, string)>): set<string> {
    set x | x in s :: x.1
  }

  ghost predicate Injective(s: set<(int, string)>) {
    forall x, y :: x in s && y in s && x.1 == y.1 ==> x == y
  }

  lemma {:induction false} ProjectionSize(s: set<(int, string)>)
    ensures |Projected(s)| <= |s|
    ensures |Projected(s)| == |s| <==> Injective(s)
  {
    if s == {} {
      assert Projected(s) == {};
    } else {
      var x := AnElement(s);
      var rest := s - {x};
      ProjectionSize(rest);
      assert Projected(s) == Projected(rest) + {x.1};
      if x.1 in Projected(rest) {
        var y :| y in rest && y.1 == x.1;
        assert Projected(s) == Projected(rest) && !Injective(s);
      } else {
        assert forall y :: y in rest ==> y.1 in Projected(rest);
        assert Injective(s) <==> Injective(rest);
      }
    }
  }

  /** A poster is counted once for every minute: the count is that of the different posters
      exactly when none of them posted the call in two minutes. */
  lemma {:induction false} CountsPostersOncePerMinute(data: Data, call: string)
    ensures var posters := set t, p | t in data && p in PostersAt(data, t, call) :: p;
            && |posters| <= NSightings(data, call)
            && (|posters| == NSightings(data, call) <==>
                forall t, u, p :: Posted(data, t, call, p) && Posted(data, u, call, p) ==> t == u)
  {
    var s := Sightings(data, data.Keys, call);
    ProjectionSize(s);
    assert Projected(s) == set t, p | t in data && p in PostersAt(data, t, call) :: p by {
      forall t, p | t in data && p in PostersAt(data, t, call) ensures p in Projected(s) {
        assert (t, p) in s && (t, p).1 == p;
      }
    }
    assert forall t, p :: Posted(data, t, call, p) <==> (t, p) in s;
    forall x | x in s ensures Posted(data, x.0, call, x.1) {
      assert x == (x.0, x.1);
    }
  }

  lemma {:induction false} FewerTimes(data: Data, times: set<int>, call: string)
    requires times <= data.Keys
    ensures |Sightings(data, times, call)| <= NSightings(data, call)
  {
    SubsetSize(Sightings(data, times, call), Sightings(data, data.Keys, call));
  }

  lemma {:induction false} SubsetSize<T>(a: set<T>, b: set<T>)
    requires a <= b
    ensures |a| <= |b|
  {
    assert b == a + (b - a);
  }

  function WithPost(data: Data, t: int, call: string, poster: string): Data {
    var minute := if t in data then data[t] else map[];
    var posters := if call in minute then minute[call] else {};
    data[t := minute[call := posters + {poster}]]
  }

  lemma PostersAfter(data: Data, t: int, call: string, poster: string, u: int, c: string)
    ensures PostersAt(WithPost(data, t, call, poster), u, c) ==
            PostersAt(data, u, c) + if u == t && c == call then {poster} else {}
  {
  }

  lemma {:induction false} PostAdds(data: Data, t: int, call: string, poster: string, c: string)
    ensures var data' := WithPost(data, t, call, poster);
            && (c != call ==> NSightings(data', c) == NSightings(data, c))
            && NSightings(data, c) <= NSightings(data', c)
  {
    hide PostersAt;
    var data' := WithPost(data, t, call, poster);
    var s, s' := Sightings(data, data.Keys, c), Sightings(data', data'.Keys, c);
    forall u, p ensures (u, p) in s' <==> (u, p) in s || (u == t && c == call && p == poster) {
      PostersAfter(data, t, call, poster, u, c);
      if u !in data { NoneAt(data, u, c); }
    }
    assert c != call ==> s' == s;
    SubsetSize(s, s');
  }

  lemma NoneAt(data: Data, t: int, c: string)
    requires t !in data
    ensures PostersAt(data, t, c) == {}
  {
  }

  class NPostersDatabase {
    var data: Data
    var knownGoodCalls: set<string>
    const minPosters: int
    const width: int

    /** Every call known to be good has been seen often enough. */
    ghost predicate Sound()
      reads this
    {
      && (minPosters > 1 ==> forall c :: c in knownGoodCalls ==> NSightings(data, c) >= minPosters)
    }

    /** The calls known to be good are exactly those seen often enough. */
    ghost predicate Valid()
      reads this
    {
      && minPosters >= 1
      && (minPosters > 1 ==> forall c :: c in knownGoodCalls <==> NSightings(data, c) >= minPosters)
    }

    constructor (min: int, w: int)
      requires min >= 1
      ensures Valid() && data == map[] && minPosters == min && width == w
    {
      data, knownGoodCalls := map[], {};
      minPosters, width := min, w;
      new;
      forall c ensures NSightings(data, c) == 0 {
        assert Sightings(data, data.Keys, c) == {};
      }
    }

    /** Adds call to the good ones if it has been seen often enough. */
    method TestCall(call: string) returns (good: bool)
      requires minPosters >= 1 && Sound()
      modifies this`knownGoodCalls
      ensures good <==> minPosters == 1 || NSightings(data, call) >= minPosters
      ensures knownGoodCalls == old(knownGoodCalls) + if minPosters > 1 && good then {call} else {}
    {
      if minPosters == 1 || call in knownGoodCalls {
        return true;
      }
      var todo := data.Keys;
      var countNPosters := 0;
      while todo != {}
        invariant todo <= data.Keys && knownGoodCalls == old(knownGoodCalls)
        invariant countNPosters == |Sightings(data, data.Keys - todo, call)| < minPosters
        decreases |todo|
      {
        var t := Least(todo).value;
        ghost var seen := data.Keys - todo;
        OneMoreTime(data, seen, t, call);
        FewerTimes(data, seen + {t}, call);
        assert data.Keys - (todo - {t}) == seen + {t};
        if call in data[t] {
          countNPosters := countNPosters + |data[t][call]|;
          if countNPosters >= minPosters {
            knownGoodCalls := knownGoodCalls + {call};
            return true;
          }
        }
        todo := todo - {t};
      }
      assert data.Keys - todo == data.Keys;
      return false;
    }

    /** operator+=: a call posted at minute now. */
    method Add(call: string, poster: string, now: int)
      requires Valid()
      modifies this
      ensures Valid()
      ensures data == if minPosters > 1 then WithPost(old(data), now, call, poster) else old(data)
    {
      if minPosters > 1 {
        forall c {
          PostAdds(data, now, call, poster, c);
        }
        var minute := if now in data then data[now] else map[];
        var posters := if call in minute then minute[call] else {};
        data := data[now := minute[call := posters + {poster}]];
        var _ := TestCall(call);
      }
    }

    /** Forgets the minutes before now - width. */
    method Prune(now: int)
      requires Valid()
      modifies this
      ensures Valid()
      ensures minPosters == 1 ==> data == old(data)
      ensures minPosters > 1 ==>
                forall t, c, p :: Posted(data, t, c, p) <==> Posted(old(data), t, c, p) && t >= now - width
    {
      if minPosters == 1 {
        return;
      }
      var targetTime := now - width;
      var todo := data.Keys;
      var rebuild := false;
      while todo != {}
        invariant todo <= old(data).Keys && knownGoodCalls == old(knownGoodCalls)
        invariant forall t :: t in data <==> t in old(data) && (t in todo || t >= targetTime)
        invariant forall t :: t in data ==> data[t] == old(data)[t]
        invariant !rebuild ==> data == old(data)
        decreases |todo|
      {
        var t := Least(todo).value;
        if t < targetTime {
          data := data - {t};
          rebuild := true;
        }
        todo := todo - {t};
      }
      if rebuild {
        knownGoodCalls := {};
        RebuildKnownGoodCalls();
      }
    }

    /** The last part of prune: test every call that still appears. */
    method RebuildKnownGoodCalls()
      requires minPosters > 1 && knownGoodCalls == {}
      modifies this`knownGoodCalls
      ensures Valid()
    {
      var allCalls := set t, c | t in data && c in data[t] :: c;
      var todo := allCalls;
      while todo != {}
        invariant todo <= allCalls
        invariant forall c :: c in knownGoodCalls <==> c in allCalls - todo && NSightings(data, c) >= minPosters
        decreases |todo|
      {
        var call :| call in todo;
        var _ := TestCall(call);
        todo := todo - {call};
      }
      forall c | c !in allCalls ensures NSightings(data, c) == 0 {
        assert Sightings(data, data.Keys, c) == {};
      }
    }
  }
}
