/** Dates and times of ADIF records: compared as text, they are compared as numbers. */
module AdifOrder {
  import opened Text
  import opened Arithmetic
  import opened Numbers
  import opened AdifField
  import opened AdifValues

  /** adif3_record::_fast_string_to_int, meant for digits only. */
  method FastStringToInt(str: string) returns (rv: int)
    ensures AllDigits(str) ==> rv == Value(str)
  {
    rv := 0;
    for n := 0 to |str|
      invariant AllDigits(str) ==> AllDigits(str[..n]) && rv == Value(str[..n])
    {
      assert str[..n + 1][..n] == str[..n];
      rv := rv * 10 + (str[n] as int - '0' as int);
    }
    assert str[..|str|] == str;
  }

  /** A stored date is a date of the calendar, and a stored time a time of day with its seconds. */
  lemma {:induction false} StoredDateAndTime(d: Dictionary, f: Field)
    requires Legal(d, f)
    ensures f.kind == DATE ==> DateText(f.value)
    ensures f.kind == TIME ==> exists h: nat, m: nat, s: nat :: ClockTime(h, m, s) && f.value == TimeDigits(h, m, s)
  {
    hide Legal, DateText;
    LegalMeans(d, f);
    if f.kind == TIME {
      var h: nat, m: nat, s: nat :|
        ClockTime(h, m, s) && (f.value == TimeDigits(h, m, s) || (s == 0 && f.value == TimeDigits(h, m, s)[..4]));
      assert f.value == TimeDigits(h, m, s);
    }
  }

  // ----- compare_adif3_records

  /** The date and time of a record, empty when it has none. */
  datatype When = When(date: string, time: string)

  predicate Earlier(a: When, b: When) {
    if Less(a.date, b.date) then true
    else if Less(b.date, a.date) then false
    else Less(a.time, b.time)
  }

  /** Of two different dates and times exactly one is earlier, and the order is transitive. */
  lemma {:induction false} EarlierIsAnOrder(a: When, b: When, c: When)
    ensures Earlier(a, b) ==> a != b && !Earlier(b, a)
    ensures a == b || Earlier(a, b) || Earlier(b, a)
    ensures Earlier(a, b) && Earlier(b, c) ==> Earlier(a, c)
  {
    hide Less;
    LessTrichotomy(a.date, b.date);
    LessTrichotomy(a.time, b.time);
    LessTrichotomy(b.date, c.date);
    LessTrichotomy(a.date, c.date);
    if Less(a.date, b.date) && Less(b.date, c.date) { LessTransitive(a.date, b.date, c.date); }
    if Less(a.time, b.time) && Less(b.time, c.time) { LessTransitive(a.time, b.time, c.time); }
  }

  predicate LegalWhen(w: When) {
    && (w.date == "" || (|w.date| == 8 && AllDigits(w.date) && Value(w.date) > 0))
    && (w.time == "" || (|w.time| == 6 && AllDigits(w.time)))
  }

  function DateRank(date: string): int
    requires AllDigits(date)
  {
    Value(date)
  }

  /** A record without a time comes before one at midnight. */
  function TimeRank(time: string): int
    requires AllDigits(time)
  {
    if time == "" then -1 else Value(time)
  }

  /** On stored dates and times the comparison of texts is that of the numbers. */
  lemma {:induction false} EarlierIsChronological(a: When, b: When)
    requires LegalWhen(a) && LegalWhen(b)
    ensures Earlier(a, b) <==>
            DateRank(a.date) < DateRank(b.date) ||
            (DateRank(a.date) == DateRank(b.date) && TimeRank(a.time) < TimeRank(b.time))
  {
    if a.date != "" && b.date != "" { LessIsNumeric(a.date, b.date); LessIsNumeric(b.date, a.date); }
    if a.time != "" && b.time != "" { LessIsNumeric(a.time, b.time); }
  }

  lemma {:induction false} ValueOfPairs(a: string, b: string, c: string)
    requires AllDigits(a) && AllDigits(b) && AllDigits(c) && |b| == |c| == 2
    ensures AllDigits(a + b + c) && Value(a + b + c) == 10000 * Value(a) + 100 * Value(b) + Value(c)
  {
    hide Value, Power;
    SmallPowers();
    ValueOfConcat(a, b);
    ValueOfConcat(a + b, c);
  }

  lemma {:induction false} ValueOfDateAndTime(y: nat, m: nat, d: nat, h: nat, mi: nat, s: nat)
    requires CalendarDate(y, m, d) && ClockTime(h, mi, s)
    ensures Value(DateDigits(y, m, d)) == 10000 * y + 100 * m + d
    ensures Value(TimeDigits(h, mi, s)) == 10000 * h + 100 * mi + s
  {
    hide Value, Power, Padded;
    SmallPowers();
    ValueOfPadded(y, 4);
    ValueOfPadded(m, 2);
    ValueOfPadded(d, 2);
    ValueOfPadded(h, 2);
    ValueOfPadded(mi, 2);
    ValueOfPadded(s, 2);
    ValueOfPairs(Padded(y, 4), Padded(m, 2), Padded(d, 2));
    ValueOfPairs(Padded(h, 2), Padded(mi, 2), Padded(s, 2));
  }

  /** A moment from year to second, most significant first. */
  datatype Moment = Moment(y: nat, m: nat, d: nat, h: nat, mi: nat, s: nat)

  predicate IsMoment(a: Moment) {
    CalendarDate(a.y, a.m, a.d) && ClockTime(a.h, a.mi, a.s)
  }

  predicate Before(a: Moment, b: Moment) {
    if a.y != b.y then a.y < b.y
    else if a.m != b.m then a.m < b.m
    else if a.d != b.d then a.d < b.d
    else if a.h != b.h then a.h < b.h
    else if a.mi != b.mi then a.mi < b.mi
    else a.s < b.s
  }

  function WhenOf(a: Moment): When {
    When(DateDigits(a.y, a.m, a.d), TimeDigits(a.h, a.mi, a.s))
  }

  /** So of two records with a stored date and time, the one of the earlier moment is earlier. */
  lemma {:induction false} EarlierIsBefore(a: Moment, b: Moment)
    requires IsMoment(a) && IsMoment(b)
    ensures Earlier(WhenOf(a), WhenOf(b)) <==> Before(a, b)
  {
    hide Value, Less, DateDigits, TimeDigits, Earlier;
    ValueOfDateAndTime(a.y, a.m, a.d, a.h, a.mi, a.s);
    ValueOfDateAndTime(b.y, b.m, b.d, b.h, b.mi, b.s);
    EarlierIsChronological(WhenOf(a), WhenOf(b));
  }
}
