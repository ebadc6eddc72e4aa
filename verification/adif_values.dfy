/** Which values the fields of an ADIF record take, and in what form they are stored, said of
    the characters of the values. */
module AdifValues {
  import opened Text
  import opened Arithmetic
  import opened Numbers
  import opened AdifField

  // ----- letters

  const CAPITALS := "ABCDEFGHIJKLMNOPQRSTUVWXYZ"
  const SMALL_LETTERS := "abcdefghijklmnopqrstuvwxyz"

  /** Changing case changes the 26 letters, each to its other form, and no other character. */
  lemma CaseByAlphabet(c: char)
    ensures |CAPITALS| == |SMALL_LETTERS| == 26
    ensures forall i :: 0 <= i < 26 ==>
                          UpperChar(SMALL_LETTERS[i]) == CAPITALS[i] && LowerChar(CAPITALS[i]) == SMALL_LETTERS[i]
    ensures (c !in SMALL_LETTERS ==> UpperChar(c) == c) && (c !in CAPITALS ==> LowerChar(c) == c)
  {
    assert 'a' <= c <= 'z' ==> SMALL_LETTERS[c as int - 'a' as int] == c;
    assert 'A' <= c <= 'Z' ==> CAPITALS[c as int - 'A' as int] == c;
  }

  // ----- numbers in a fixed number of digits

  /** n in k digits, zeros in front. */
  function Padded(n: nat, k: nat): (s: string)
    ensures |s| == k && AllDigits(s)
  {
    if k == 0 then "" else Padded(n / 10, k - 1) + [DIGITS[n % 10]]
  }

  /** Any k digits are their value in k digits. */
  lemma {:induction false} PaddedOfValue(s: string)
    requires AllDigits(s)
    ensures Padded(Value(s), |s|) == s && Value(s) < Power(10, |s|)
  {
    if s != "" {
      var t, c := s[..|s| - 1], s[|s| - 1];
      PaddedOfValue(t);
      LastDigit(Value(t), c);
      assert s == t + [c];
    }
  }

  lemma LastDigit(n: nat, c: char)
    requires IsDigit(c)
    ensures (10 * n + DigitValue(c)) / 10 == n && DIGITS[(10 * n + DigitValue(c)) % 10] == c
  {
  }

  lemma {:induction false} ValueOfPadded(n: nat, k: nat)
    requires n < Power(10, k)
    ensures Value(Padded(n, k)) == n
  {
    if k > 0 {
      ValueOfPadded(n / 10, k - 1);
      assert Padded(n, k)[..k - 1] == Padded(n / 10, k - 1);
    }
  }

  lemma {:induction false} SmallPowers()
    ensures Power(10, 2) == 100 && Power(10, 4) == 10000
  {
    assert Power(10, 1) == 10 && Power(10, 2) == 100 && Power(10, 3) == 1000;
  }

  /** Two digits are read as a number below 100, and are that number in two digits. */
  lemma {:induction false} TwoDigits(s: string)
    requires AllDigits(s) && |s| == 2
    ensures 0 <= ToInt(s) < 100 && s == Padded(ToInt(s), 2)
  {
    hide Value, Power, Padded, ToInt;
    PaddedOfValue(s);
    SmallPowers();
    ToIntReads(s, "");
    assert s + "" == s;
  }

  lemma {:induction false} FourDigits(s: string)
    requires AllDigits(s) && |s| == 4
    ensures 0 <= ToInt(s) < 10000 && s == Padded(ToInt(s), 4)
    ensures Less(s, "1930") <==> ToInt(s) < 1930
  {
    hide Value, Power, Padded, ToInt, Less;
    PaddedOfValue(s);
    SmallPowers();
    ToIntReads(s, "");
    assert s + "" == s;
    ValueOf1930();
    LessIsNumeric(s, "1930");
  }

  lemma {:induction false} ValueOf1930()
    ensures AllDigits("1930") && Value("1930") == 1930
  {
    assert "1930"[..3] == "193" && "193"[..2] == "19" && "19"[..1] == "1" && "1"[..0] == "";
    assert Value("1") == 1 && Value("19") == 19 && Value("193") == 193;
  }

  lemma {:induction false} ReadPadded(n: nat, k: nat)
    requires (k == 2 && n < 100) || (k == 4 && n < 10000)
    ensures ToInt(Padded(n, k)) == n
  {
    hide Value, Power, Padded, ToInt;
    SmallPowers();
    ValueOfPadded(n, k);
    ToIntReads(Padded(n, k), "");
    assert Padded(n, k) + "" == Padded(n, k);
  }

  // ----- dates

  const MONTH_LENGTHS := [31, 28, 31, 30, 31, 30, 31, 31, 30, 31, 30, 31]

  /** A day from 1930 on, when every fourth year is a leap year. */
  predicate CalendarDate(y: int, m: int, d: int) {
    && 1930 <= y <= 9999 && 1 <= m <= 12
    && 1 <= d <= MONTH_LENGTHS[m - 1] + if m == 2 && y % 4 == 0 then 1 else 0
  }

  function DateDigits(y: nat, m: nat, d: nat): (s: string)
    ensures |s| == 8 && AllDigits(s)
  {
    Padded(y, 4) + Padded(m, 2) + Padded(d, 2)
  }

  ghost predicate DateText(v: string) {
    exists y: nat, m: nat, d: nat :: CalendarDate(y, m, d) && v == DateDigits(y, m, d)
  }

  /** Exactly the dates of the calendar are legal. */
  lemma {:induction false} DateVerdict(v: string)
    ensures VerifyDate(v) ==
            if DateText(v) then None
            else if !AllDigits(v) then Some(InvalidCharacter)
            else if |v| != 8 then Some(InvalidLength)
            else Some(InvalidValue)
  {
    hide ToInt, Padded, Less, Value;
    if AllDigits(v) && |v| == 8 {
      var y, m, d := ToInt(v[..4]), ToInt(v[4..6]), ToInt(v[6..8]);
      FourDigits(v[..4]);
      TwoDigits(v[4..6]);
      TwoDigits(v[6..8]);
      MonthLengths(y, m);
      assert v == v[..4] + v[4..6] + v[6..8];
      if CalendarDate(y, m, d) {
        assert v == DateDigits(y, m, d);
      }
      if DateText(v) {
        OneDate(v, y, m, d);
      }
    }
  }

  lemma MonthLengths(y: int, m: int)
    ensures 1 <= m <= 12 ==> DaysInMonth(y, m) == MONTH_LENGTHS[m - 1] + if m == 2 && y % 4 == 0 then 1 else 0
  {
  }

  lemma {:induction false} OneDate(v: string, y: nat, m: nat, d: nat)
    requires |v| == 8 && DateText(v) && y == ToInt(v[..4]) && m == ToInt(v[4..6]) && d == ToInt(v[6..8])
    ensures CalendarDate(y, m, d)
  {
    hide ToInt, Padded;
    var a: nat, b: nat, c: nat :| CalendarDate(a, b, c) && v == DateDigits(a, b, c);
    assert v[..4] == Padded(a, 4) && v[4..6] == Padded(b, 2) && v[6..8] == Padded(c, 2);
    ReadPadded(a, 4);
    ReadPadded(b, 2);
    ReadPadded(c, 2);
  }

  // ----- times

  predicate ClockTime(h: int, m: int, s: int) {
    0 <= h < 24 && 0 <= m < 60 && 0 <= s < 60
  }

  function TimeDigits(h: nat, m: nat, s: nat): (t: string)
    ensures |t| == 6 && AllDigits(t)
  {
    Padded(h, 2) + Padded(m, 2) + Padded(s, 2)
  }

  /** A time of day, with or without its seconds. */
  ghost predicate TimeText(v: string) {
    exists h: nat, m: nat, s: nat ::
      ClockTime(h, m, s) && (v == TimeDigits(h, m, s) || (s == 0 && v == TimeDigits(h, m, s)[..4]))
  }

  /** Exactly the times of day are legal, with seconds or without. */
  lemma {:induction false} TimeVerdict(v: string)
    ensures VerifyTime(v) ==
            if TimeText(v) then None
            else if !AllDigits(v) then Some(InvalidCharacter)
            else if |v| != 4 && |v| != 6 then Some(InvalidLength)
            else Some(InvalidValue)
  {
    hide ToInt, Padded, Value;
    if AllDigits(v) && (|v| == 4 || |v| == 6) {
      var h, m, s := ToInt(v[..2]), ToInt(v[2..4]), if |v| == 6 then ToInt(v[4..6]) else 0;
      TwoDigits(v[..2]);
      TwoDigits(v[2..4]);
      if |v| == 6 { TwoDigits(v[4..6]); }
      assert v == v[..2] + v[2..4] + if |v| == 6 then v[4..6] else "";
      if ClockTime(h, m, s) {
        assert v == if |v| == 6 then TimeDigits(h, m, s) else TimeDigits(h, m, 0)[..4];
      }
      if TimeText(v) {
        OneTime(v, h, m, s);
      }
    }
  }

  lemma {:induction false} OneTime(v: string, h: nat, m: nat, s: nat)
    requires |v| == 4 || |v| == 6
    requires TimeText(v) && h == ToInt(v[..2]) && m == ToInt(v[2..4]) && s == if |v| == 6 then ToInt(v[4..6]) else 0
    ensures ClockTime(h, m, s)
  {
    hide ToInt, Padded;
    var a: nat, b: nat, c: nat :|
      ClockTime(a, b, c) && (v == TimeDigits(a, b, c) || (c == 0 && v == TimeDigits(a, b, c)[..4]));
    assert v[..2] == Padded(a, 2) && v[2..4] == Padded(b, 2) && (|v| == 6 ==> v[4..6] == Padded(c, 2));
    ReadPadded(a, 2);
    ReadPadded(b, 2);
    ReadPadded(c, 2);
  }

  // ----- grid squares

  /** The character that may stand at a place of a grid square: letters A to R, digits, letters
      A to X and digits, two of each. */
  predicate GridChar(c: char, place: nat) {
    if place < 2 then 'A' <= c <= 'R' || 'a' <= c <= 'r'
    else if place == 4 || place == 5 then 'A' <= c <= 'X' || 'a' <= c <= 'x'
    else '0' <= c <= '9'
  }

  predicate GridText(v: string) {
    |v| in {2, 4, 6, 8} && forall i :: 0 <= i < |v| ==> GridChar(v[i], i)
  }

  lemma {:induction false} GridVerdict(v: string)
    ensures VerifyGrid(v) ==
            if GridText(v) then None else if |v| !in {2, 4, 6, 8} then Some(InvalidLength) else Some(InvalidValue)
  {
    if |v| in {2, 4, 6, 8} {
      var uc := Upper(v);
      PairInRange(v, 0, 'A', 'R');
      if |v| > 2 { PairInRange(v, 2, '0', '9'); }
      if |v| > 4 { PairInRange(v, 4, 'A', 'X'); }
      if |v| > 6 { PairInRange(v, 6, '0', '9'); }
    }
  }

  lemma PairInRange(v: string, i: nat, low: char, high: char)
    requires i + 2 <= |v| && ((low, high, i) in {('A', 'R', 0), ('0', '9', 2), ('A', 'X', 4), ('0', '9', 6)})
    ensures InRange(Upper(v), i, low, high) <==> GridChar(v[i], i) && GridChar(v[i + 1], i + 1)
  {
  }

  // ----- numbers

  predicate NumberParts(sign: string, whole: string, point: string, fraction: string) {
    sign in {"", "-"} && AllDigits(whole) && point in {"", "."} && AllDigits(fraction)
  }

  /** A number: perhaps a minus sign, then digits with at most one point among them; but not
      nothing at all. */
  ghost predicate NumberText(v: string) {
    v != "" &&
    exists sign, whole, point, fraction ::
      NumberParts(sign, whole, point, fraction) && v == sign + whole + point + fraction
  }

  ghost predicate Twice(v: string, c: char) {
    exists i, j :: 0 <= i < j < |v| && v[i] == v[j] == c
  }

  lemma {:induction false} CountOnce(v: string, c: char)
    ensures multiset(v)[c] == 0 <==> c !in v
    ensures multiset(v)[c] > 1 <==> Twice(v, c)
  {
    if v != "" {
      var w := v[1..];
      CountOnce(w, c);
      assert v == [v[0]] + w;
      assert multiset(v)[c] == (if v[0] == c then 1 else 0) + multiset(w)[c];
      if i, j :| 0 <= i < j < |w| && w[i] == w[j] == c {
        assert v[i + 1] == v[j + 1] == c;
      }
      if v[0] == c && c in w {
        var k :| 0 <= k < |w| && w[k] == c;
        assert v[0] == v[k + 1] == c;
      }
      if i, j :| 0 <= i < j < |v| && v[i] == v[j] == c {
        assert w[j - 1] == c;
        assert i > 0 ==> w[i - 1] == w[j - 1] == c;
      }
    }
  }

  lemma {:induction false} NumberVerdict(v: string)
    ensures VerifyNumber(v) ==
            if NumberText(v) then None
            else if v == "" then Some(EmptyValue)
            else if !IsDigit(v[0]) && v[0] != '-' && v[0] != '.' then Some(InvalidCharacter)
            else if Twice(v, '.') then Some(InvalidValue)
            else Some(InvalidCharacter)
  {
    hide NumberText;
    CountOnce(v, '.');
    if VerifyNumber(v).None? { NumberHasParts(v); }
    if NumberText(v) { PartsMakeNumber(v); }
  }

  lemma {:induction false} NumberHasParts(v: string)
    requires VerifyNumber(v).None?
    ensures NumberText(v)
  {
    hide Twice, NumberText;
    CountOnce(v, '.');
    var sign := if v[0] == '-' then "-" else "";
    OneSplit(v, |sign|);
    var whole, point, fraction :|
      AllDigits(whole) && point in {"", "."} && AllDigits(fraction) && v[|sign|..] == whole + point + fraction;
    NumberIs(v, sign, whole, point, fraction);
  }

  lemma {:induction false} NumberIs(v: string, sign: string, whole: string, point: string, fraction: string)
    requires v != "" && NumberParts(sign, whole, point, fraction)
    requires sign <= v && v[|sign|..] == whole + point + fraction
    ensures NumberText(v)
  {
    hide NumberParts;
    assert v == sign + v[|sign|..] == sign + (whole + point + fraction) == sign + whole + point + fraction;
  }

  lemma {:induction false} OneSplit(v: string, start: nat)
    requires start <= |v| && !Twice(v, '.') && forall i :: start <= i < |v| ==> IsDigit(v[i]) || v[i] == '.'
    ensures exists whole, point, fraction ::
              AllDigits(whole) && point in {"", "."} && AllDigits(fraction) && v[start..] == whole + point + fraction
  {
    hide FindChar;
    match FindChar(v, '.', start) {
      case None =>
        assert AllDigits(v[start..]) && AllDigits("") && v[start..] == v[start..] + "" + "";
      case Some(k) =>
        var whole, fraction := v[start..k], v[k + 1..];
        assert v[start..] == whole + "." + fraction;
        assert AllDigits(whole);
        forall i | 0 <= i < |fraction| ensures IsDigit(fraction[i]) {
          assert v[k] == '.' && fraction[i] == v[k + 1 + i];
        }
    }
  }

  lemma {:induction false} PartsMakeNumber(v: string)
    requires NumberText(v)
    ensures VerifyNumber(v).None?
  {
    hide VerifyNumber, NumberParts;
    var sign, whole, point, fraction :|
      NumberParts(sign, whole, point, fraction) && v == sign + whole + point + fraction;
    PartsAre(sign, whole, point, fraction);
    OnePoint(v, |sign + whole|);
  }

  lemma {:induction false} PartsAre(sign: string, whole: string, point: string, fraction: string)
    requires NumberParts(sign, whole, point, fraction)
    ensures var v := sign + whole + point + fraction;
            forall i :: 0 <= i < |v| ==>
                          IsDigit(v[i]) || (v[i] == '-' && i == 0) || (v[i] == '.' && i == |sign + whole|)
  {
  }

  lemma {:induction false} OnePoint(v: string, at: nat)
    requires v != ""
    requires forall i :: 0 <= i < |v| ==> IsDigit(v[i]) || (v[i] == '-' && i == 0) || (v[i] == '.' && i == at)
    ensures VerifyNumber(v).None?
  {
    CountOnce(v, '.');
  }

  // ----- all kinds

  /** The number that digits are read as from a stream. */
  function Capped(v: string): int
    requires AllDigits(v)
  {
    if Value(v) < 0x8000_0000 then Value(v) else 0x7fff_ffff
  }

  /** The values that a field of a kind can be given. */
  ghost predicate Acceptable(d: Dictionary, name: string, kind: Kind, v: string) {
    match kind
    case DATE => DateText(v)
    case TIME => TimeText(v)
    case GRID_SQUARE => GridText(v)
    case NUMBER => NumberText(v)
    case POSITIVE_INTEGER =>
      AllDigits(v) && (name in d.ranges ==> d.ranges[name].0 <= Capped(v) <= d.ranges[name].1)
    case ENUMERATION_BAND => Lower(v) in d.bands
    case ENUMERATION_MODE => Upper(v) in d.modes
    case ENUMERATION_QSL_RECEIVED => Upper(v) in d.qslReceived
    case ENUMERATION_DXCC_ENTITY_CODE => AllDigits(v) && Capped(v) in d.entities
    case STRING => forall i :: 0 <= i < |v| ==> ' ' <= v[i] <= '~'
    case AWARD_LIST => true
    case UNCHECKED => true
  }

  /** What is wrong with a value that is not acceptable. */
  ghost function Fault(kind: Kind, v: string): Error {
    match kind
    case DATE => if !AllDigits(v) then InvalidCharacter else if |v| != 8 then InvalidLength else InvalidValue
    case TIME => if !AllDigits(v) then InvalidCharacter else if |v| !in {4, 6} then InvalidLength else InvalidValue
    case GRID_SQUARE => if |v| !in {2, 4, 6, 8} then InvalidLength else InvalidValue
    case NUMBER =>
      if v == "" then EmptyValue
      else if Twice(v, '.') && (IsDigit(v[0]) || v[0] == '-' || v[0] == '.') then InvalidValue
      else InvalidCharacter
    case POSITIVE_INTEGER => if !AllDigits(v) then InvalidCharacter else InvalidValue
    case STRING => InvalidCharacter
    case _ => InvalidValue
  }

  lemma {:induction false} VerifyMeans(d: Dictionary, name: string, kind: Kind, v: string)
    ensures Verify(d, name, kind, v) == if Acceptable(d, name, kind, v) then None else Some(Fault(kind, v))
  {
    hide VerifyDate, VerifyTime, VerifyGrid, VerifyNumber, DateText, TimeText, GridText, NumberText, Twice, Value;
    DateVerdict(v);
    TimeVerdict(v);
    GridVerdict(v);
    NumberVerdict(v);
  }

  lemma {:induction false} PointsTwice(v: string)
    requires |v| > 2 && forall i :: 1 <= i < |v| ==> v[i] == '.'
    ensures Twice(v, '.')
  {
    assert v[1] == v[2];
  }

  /** A number is to have digits; these are the only ones accepted without. */
  lemma {:induction false} NumberWithoutDigits(v: string)
    ensures VerifyNumber(v).None? && (forall i :: 0 <= i < |v| ==> !IsDigit(v[i])) <==> v in {"-", ".", "-."}
  {
    hide Twice;
    CountOnce(v, '.');
    if VerifyNumber(v).None? && (forall i :: 0 <= i < |v| ==> !IsDigit(v[i])) {
      if |v| > 2 { PointsTwice(v); }
      assert v == if |v| == 1 then [v[0]] else [v[0], v[1]];
    }
  }

  /** A positive integer is to be greater than zero; zero, and no digits at all, are accepted
      just when no range keeps them out. */
  lemma {:induction false} ZeroAccepted(d: Dictionary, name: string, v: string)
    ensures Verify(d, name, POSITIVE_INTEGER, v).None? && !(v != "" && AllDigits(v) && Value(v) > 0) <==>
            AllDigits(v) && Value(v) == 0 && (name in d.ranges ==> d.ranges[name].0 <= 0 <= d.ranges[name].1)
  {
  }

  /** The form in which an acceptable value is stored: s for v. */
  ghost predicate IsStoredAs(name: string, kind: Kind, v: string, s: string) {
    match kind
    case TIME => s == if |v| == 4 then v + "00" else v
    case GRID_SQUARE =>
      && |s| == |v|
      && forall i :: 0 <= i < |v| ==>
                       s[i] == if i < 2 then UpperChar(v[i]) else if i in {4, 5} then LowerChar(v[i]) else v[i]
    case ENUMERATION_BAND => s == Lower(v)
    case ENUMERATION_QSL_RECEIVED => s == Upper(v)
    case _ => s == if name in {"CALL", "MODE", "STATION_CALLSIGN"} then Upper(v) else v
  }

  /** Constructing a field: it is made exactly when its name in upper case is known and its
      value acceptable, and then holds that name and the value in its stored form; or else
      exactly this error is thrown. */
  lemma {:induction false} MakeMeans(d: Dictionary, fieldName: string, v: string)
    ensures var name := Upper(fieldName);
            match Make(d, fieldName, v)
            case Ok(f) =>
              && name in d.types && Acceptable(d, name, d.types[name], v)
              && f.name == name && f.kind == d.types[name] && IsStoredAs(name, f.kind, v, f.value)
            case Err(e) =>
              if name !in d.types then e == UnknownType
              else !Acceptable(d, name, d.types[name], v) && e == Fault(d.types[name], v)
  {
    hide Verify, Acceptable, Fault, Upper;
    var name := Upper(fieldName);
    if name in d.types {
      VerifyMeans(d, name, d.types[name], v);
      if Acceptable(d, name, d.types[name], v) {
        NormaliseMeans(d, name, d.types[name], v);
      }
    }
  }

  lemma {:induction false} NormaliseMeans(d: Dictionary, name: string, kind: Kind, v: string)
    requires Acceptable(d, name, kind, v)
    ensures (kind == GRID_SQUARE ==> GridText(v)) && IsStoredAs(name, kind, v, Normalise(name, kind, v))
  {
    hide DateText, TimeText, NumberText;
  }

  /** So a field that is already in the form in which it is stored is just such a field. */
  lemma {:induction false} LegalMeans(d: Dictionary, f: Field)
    ensures Legal(d, f) <==>
            && Upper(f.name) == f.name && f.name in d.types && f.kind == d.types[f.name]
            && Acceptable(d, f.name, f.kind, f.value) && IsStoredAs(f.name, f.kind, f.value, f.value)
  {
    hide Acceptable, Upper, Make, IsStoredAs;
    MakeMeans(d, f.name, f.value);
    var r := Make(d, f.name, f.value);
    if r.Ok? && IsStoredAs(f.name, f.kind, f.value, f.value) && r.value.kind == f.kind && Upper(f.name) == f.name {
      OneStoredForm(f.name, f.kind, f.value, f.value, r.value.value);
    }
  }

  lemma OneStoredForm(name: string, kind: Kind, v: string, s: string, t: string)
    requires IsStoredAs(name, kind, v, s) && IsStoredAs(name, kind, v, t)
    ensures s == t
  {
  }
}
