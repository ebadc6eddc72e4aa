/** needed_mult_details, the multiplier part of bandmap_entry, and the age of replaced entries. */
module Bandmap {
  // ----- needed_mult_details

  class NeededMultDetails<T(==)> {
    var isNeeded: bool
    var isStatusKnown: bool
    var values: set<T>

    ghost predicate Valid()
      reads this
    {
      isNeeded <==> values != {}
    }

    constructor ()
      ensures Valid() && values == {} && isStatusKnown
    {
      isNeeded, isStatusKnown, values := false, true, {};
    }

    constructor FromValue(v: T)
      ensures Valid() && values == {v} && isStatusKnown
    {
      isNeeded, isStatusKnown, values := true, true, {v};
    }

    method Add(v: T) returns (inserted: bool)
      requires Valid()
      modifies this
      ensures Valid() && values == old(values) + {v} && isStatusKnown == old(isStatusKnown)
      ensures inserted <==> v !in old(values)
    {
      isNeeded := true;
      inserted := v !in values;
      values := values + {v};
    }

    /** Despite its name, the source tests that v is not among the needed values. */
    method IsValueNeeded(v: T) returns (r: bool)
      requires Valid()
      ensures r <==> values != {} && v !in values
    {
      r := if isNeeded then v !in values else false;
    }

    method Remove(v: T) returns (removed: bool)
      requires Valid()
      modifies this
      ensures Valid() && values == old(values) - {v} && isStatusKnown == old(isStatusKnown)
      ensures removed <==> v in old(values)
    {
      if !isNeeded || v !in values {
        return false;
      }
      values := values - {v};
      if values == {} {
        isNeeded := false;
      }
      return true;
    }

    method Clear()
      modifies this
      ensures Valid() && values == {} && !isStatusKnown
    {
      isStatusKnown := false;
      isNeeded := false;
      values := {};
    }
  }

  datatype MultOp<T> = AddValue(v: T) | RemoveValue(v: T) | ClearValues

  datatype MultState<T> = MultState(isNeeded: bool, values: set<T>)

  /** One operation as the class carries it out, flag and set separately. */
  function Applied<T>(s: MultState<T>, op: MultOp<T>): MultState<T> {
    match op
    case AddValue(v) => MultState(true, s.values + {v})
    case RemoveValue(v) =>
      if !s.isNeeded || v !in s.values then s
      else MultState(s.values - {v} != {}, s.values - {v})
    case ClearValues => MultState(false, {})
  }

  ghost function AfterOps<T>(ops: seq<MultOp<T>>): MultState<T> {
    if ops == [] then MultState(false, {}) else Applied(AfterOps(ops[..|ops| - 1]), ops[|ops| - 1])
  }

  /** Operation i adds v, and none after it removes v or clears. */
  ghost predicate StandingSince<T>(ops: seq<MultOp<T>>, v: T, i: nat) {
    && i < |ops| && ops[i] == AddValue(v)
    && forall j :: i < j < |ops| ==> ops[j] != RemoveValue(v) && ops[j] != ClearValues
  }

  /** Over every run the flag says whether the set is non-empty, and the set is the net
      additions. */
  lemma {:induction false} NeededOverRuns<T>(ops: seq<MultOp<T>>, v: T)
    ensures AfterOps(ops).isNeeded <==> AfterOps(ops).values != {}
    ensures v in AfterOps(ops).values <==> exists i: nat :: StandingSince(ops, v, i)
  {
    if ops != [] {
      var last := |ops| - 1;
      var before := ops[..last];
      NeededOverRuns(before, v);
      assert forall j :: 0 <= j < last ==> before[j] == ops[j];
      if i: nat :| StandingSince(ops, v, i) && i < last {
        assert StandingSince(before, v, i);
      }
      if i: nat :| StandingSince(before, v, i) && ops[last] != RemoveValue(v) && ops[last] != ClearValues {
        assert StandingSince(ops, v, i);
      }
      if ops[last] == AddValue(v) {
        assert StandingSince(ops, v, last);
      }
    }
  }

  // ----- bandmap_entry

  class BandmapEntry {
    const callsignMult: NeededMultDetails<(string, string)>
    const countryMult: NeededMultDetails<string>
    const exchangeMult: NeededMultDetails<(string, string)>
    var time: int
    var timeOfEarlier: int

    ghost predicate Valid()
      reads this, callsignMult, countryMult, exchangeMult
    {
      && callsignMult != exchangeMult
      && callsignMult.Valid() && countryMult.Valid() && exchangeMult.Valid()
    }

    constructor (now: int)
      ensures Valid() && fresh(callsignMult) && fresh(countryMult) && fresh(exchangeMult)
      ensures callsignMult.values == {} && countryMult.values == {} && exchangeMult.values == {}
      ensures time == now && timeOfEarlier == 0
    {
      callsignMult := new NeededMultDetails();
      countryMult := new NeededMultDetails();
      exchangeMult := new NeededMultDetails();
      time, timeOfEarlier := now, 0;
    }

    method AddCallsignMult(name: string, value: string)
      requires Valid()
      modifies callsignMult
      ensures Valid() && callsignMult.values == old(callsignMult.values) + {(name, value)}
    {
      var _ := callsignMult.Add((name, value));
    }

    method AddCountryMult(value: string)
      requires Valid()
      modifies countryMult
      ensures Valid() && countryMult.values == old(countryMult.values) + {value}
    {
      var _ := countryMult.Add(value);
    }

    method AddExchangeMult(name: string, value: string) returns (added: bool)
      requires Valid()
      modifies exchangeMult
      ensures Valid() && exchangeMult.values == old(exchangeMult.values) + {(name, value)}
      ensures added <==> (name, value) !in old(exchangeMult.values)
    {
      added := exchangeMult.Add((name, value));
    }

    method RemoveCallsignMult(name: string, value: string) returns (removed: bool)
      requires Valid()
      modifies callsignMult
      ensures Valid() && callsignMult.values == old(callsignMult.values) - {(name, value)}
      ensures removed <==> (name, value) in old(callsignMult.values)
    {
      removed := callsignMult.Remove((name, value));
    }

    method RemoveCountryMult(value: string) returns (removed: bool)
      requires Valid()
      modifies countryMult
      ensures Valid() && countryMult.values == old(countryMult.values) - {value}
      ensures removed <==> value in old(countryMult.values)
    {
      removed := countryMult.Remove(value);
    }

    method RemoveExchangeMult(name: string, value: string) returns (removed: bool)
      requires Valid()
      modifies exchangeMult
      ensures Valid() && exchangeMult.values == old(exchangeMult.values) - {(name, value)}
      ensures removed <==> (name, value) in old(exchangeMult.values)
    {
      removed := exchangeMult.Remove((name, value));
    }

    method IsNeededMult() returns (needed: bool)
      requires Valid()
      ensures needed <==> callsignMult.values != {} || countryMult.values != {} || exchangeMult.values != {}
    {
      needed := callsignMult.isNeeded || countryMult.isNeeded || exchangeMult.isNeeded;
    }

    /** This entry replaces oldBe. */
    method TimeOfEarlierBandmapEntry(oldBe: BandmapEntry)
      modifies this`timeOfEarlier
      ensures Times(time, timeOfEarlier) == Replacing(Times(old(oldBe.time), old(oldBe.timeOfEarlier)), time)
    {
      timeOfEarlier := if oldBe.timeOfEarlier != 0 then oldBe.timeOfEarlier else oldBe.time;
    }

    method TimeSinceThisOrEarlierInserted(now: int) returns (age: int)
      ensures age == now - Origin(Times(time, timeOfEarlier))
    {
      age := now - if timeOfEarlier != 0 then timeOfEarlier else time;
    }
  }

  // ----- chains of replacements

  /** The two times of an entry; an earlier time of zero means that it replaced nothing. */
  datatype Times = Times(time: int, earlier: int)

  /** The time from which the age of an entry is measured. */
  function Origin(e: Times): int {
    if e.earlier != 0 then e.earlier else e.time
  }

  function Replacing(past: Times, time: int): Times {
    Times(time, Origin(past))
  }

  /** The times set when each entry of the chain was made, and changed afterwards. */
  ghost predicate Chain(es: seq<Times>) {
    && es != [] && es[0].earlier == 0
    && forall k :: 0 < k < |es| ==> es[k].earlier == Origin(es[k - 1])
  }

  /** Every entry's age is measured from the first entry of the chain, up to it, whose time
      is not zero, whatever the times of the entries in between. */
  lemma {:induction false} ChainAge(es: seq<Times>, j: nat, k: nat)
    requires Chain(es) && j <= k < |es|
    requires es[j].time != 0 && forall i :: 0 <= i < j ==> es[i].time == 0
    ensures Origin(es[k]) == es[j].time
  {
    if k > j {
      ChainAge(es, j, k - 1);
    } else {
      NothingBefore(es, j);
    }
  }

  lemma {:induction false} NothingBefore(es: seq<Times>, j: nat)
    requires Chain(es) && j < |es| && forall i :: 0 <= i < j ==> es[i].time == 0
    ensures es[j].earlier == 0
  {
    if j > 0 {
      NothingBefore(es, j - 1);
    }
  }
}
