/** adif3_field: one field of an ADIF file, in the ADI format of the ADIF specification 3.1.0.
    The field table and the enumerations of legal values are data; they form a Dictionary. */
module AdifField {
  import opened Text
  import opened Splitting
  import opened Numbers

  /** The kinds of data that the code treats one by one; UNCHECKED stands for all the others. */
  datatype Kind =
    | DATE
    | ENUMERATION_BAND
    | ENUMERATION_DXCC_ENTITY_CODE
    | ENUMERATION_MODE
    | ENUMERATION_QSL_RECEIVED
    | GRID_SQUARE
    | NUMBER
    | POSITIVE_INTEGER
    | STRING
    | TIME
    | AWARD_LIST
    | UNCHECKED

  datatype Error = InvalidValue | InvalidCharacter | InvalidLength | EmptyValue | UnknownType | DuplicateField

  datatype Result<+T> = Ok(value: T) | Err(error: Error)

  datatype Dictionary = Dictionary(
    types: map<string, Kind>,
    bands: set<string>,
    entities: set<int>,
    modes: set<string>,
    qslReceived: set<string>,
    ranges: map<string, (int, int)>)

  datatype Field = Field(name: string, kind: Kind, value: string)

  const NO_FIELD := Field("", UNCHECKED, "")

  // ----- case

  function UpperChar(c: char): char {
    if 'a' <= c <= 'z' then (c as int - 32) as char else c
  }

  function LowerChar(c: char): char {
    if 'A' <= c <= 'Z' then (c as int + 32) as char else c
  }

  function Upper(s: string): (r: string)
    ensures |r| == |s| && forall i :: 0 <= i < |s| ==> r[i] == UpperChar(s[i])
  {
    seq(|s|, i requires 0 <= i < |s| => UpperChar(s[i]))
  }

  function Lower(s: string): (r: string)
    ensures |r| == |s| && forall i :: 0 <= i < |s| ==> r[i] == LowerChar(s[i])
  {
    seq(|s|, i requires 0 <= i < |s| => LowerChar(s[i]))
  }

  lemma CaseIdempotent(s: string)
    ensures Upper(Upper(s)) == Upper(s) && Lower(Lower(s)) == Lower(s)
  {
  }

  // ----- legal values

  predicate InRange(s: string, i: nat, low: char, high: char)
    requires i + 2 <= |s|
  {
    low <= s[i] <= high && low <= s[i + 1] <= high
  }

  function DaysInMonth(year: int, month: int): int {
    if month == 4 || month == 6 || month == 9 || month == 11 then 30
    else if month == 2 then (if year % 4 != 0 then 28 else 29)
    else 31
  }

  function VerifyDate(v: string): Option<Error> {
    if !AllDigits(v) then Some(InvalidCharacter)
    else if |v| != 8 then Some(InvalidLength)
    else if Less(v[..4], "1930") then Some(InvalidValue)
    else
      var month, day := ToInt(v[4..6]), ToInt(v[6..8]);
      if month < 1 || month > 12 then Some(InvalidValue)
      else if day < 1 || day > DaysInMonth(ToInt(v[..4]), month) then Some(InvalidValue)
      else None
  }

  function VerifyGrid(v: string): Option<Error> {
    if |v| != 2 && |v| != 4 && |v| != 6 && |v| != 8 then Some(InvalidLength)
    else
      var uc := Upper(v);
      if !InRange(uc, 0, 'A', 'R') then Some(InvalidValue)
      else if |v| > 2 && !InRange(uc, 2, '0', '9') then Some(InvalidValue)
      else if |v| > 4 && !InRange(uc, 4, 'A', 'X') then Some(InvalidValue)
      else if |v| > 6 && !InRange(uc, 6, '0', '9') then Some(InvalidValue)
      else None
  }

  function VerifyNumber(v: string): Option<Error> {
    if v == "" then Some(EmptyValue)
    else if !IsDigit(v[0]) && v[0] != '-' && v[0] != '.' then Some(InvalidCharacter)
    else if multiset(v)['.'] > 1 then Some(InvalidValue)
    else if !(forall i :: 1 <= i < |v| ==> IsDigit(v[i]) || v[i] == '.') then Some(InvalidCharacter)
    else None
  }

  function VerifyTime(v: string): Option<Error> {
    if !AllDigits(v) then Some(InvalidCharacter)
    else if |v| != 4 && |v| != 6 then Some(InvalidLength)
    else if ToInt(v[..2]) > 23 then Some(InvalidValue)
    else if ToInt(v[2..4]) > 59 then Some(InvalidValue)
    else if |v| == 6 && ToInt(v[4..6]) > 59 then Some(InvalidValue)
    else None
  }

  /** Reading digits from a stream: what does not fit becomes the largest int. */
  function StreamToInt(digits: string): int
    requires AllDigits(digits)
  {
    var v: int := Value(digits);
    if v <= INT_MAX then v else INT_MAX
  }

  function Verify(d: Dictionary, name: string, kind: Kind, v: string): Option<Error> {
    match kind
    case DATE => VerifyDate(v)
    case ENUMERATION_BAND => if Lower(v) in d.bands then None else Some(InvalidValue)
    case ENUMERATION_DXCC_ENTITY_CODE =>
      if !AllDigits(v) then Some(InvalidValue)
      else if StreamToInt(v) !in d.entities then Some(InvalidValue)
      else None
    case ENUMERATION_MODE => if Upper(v) in d.modes then None else Some(InvalidValue)
    case ENUMERATION_QSL_RECEIVED => if Upper(v) in d.qslReceived then None else Some(InvalidValue)
    case GRID_SQUARE => VerifyGrid(v)
    case NUMBER => VerifyNumber(v)
    case POSITIVE_INTEGER =>
      if !AllDigits(v) then Some(InvalidCharacter)
      else if name in d.ranges && !(d.ranges[name].0 <= StreamToInt(v) <= d.ranges[name].1) then Some(InvalidValue)
      else None
    case STRING => if forall i :: 0 <= i < |v| ==> 32 <= v[i] as int <= 126 then None else Some(InvalidCharacter)
    case TIME => VerifyTime(v)
    case _ => None
  }

  // ----- the standard form of a value

  const UPPER_CASE_FIELDS := {"CALL", "MODE", "STATION_CALLSIGN"}

  function NormaliseGrid(v: string): string
    requires |v| >= 2
  {
    var start := v[0 := UpperChar(v[0])][1 := UpperChar(v[1])];
    if |v| >= 6 then start[4 := LowerChar(v[4])][5 := LowerChar(v[5])] else start
  }

  function Normalise(name: string, kind: Kind, v: string): string
    requires kind == GRID_SQUARE ==> |v| >= 2
  {
    match kind
    case ENUMERATION_BAND => Lower(v)
    case ENUMERATION_QSL_RECEIVED => Upper(v)
    case GRID_SQUARE => NormaliseGrid(v)
    case TIME => if |v| == 4 then v + "00" else v
    case _ => if name in UPPER_CASE_FIELDS then Upper(v) else v
  }

  /** The standard form of a legal value is legal, and it is its own standard form. */
  lemma {:induction false} NormalIsStable(d: Dictionary, name: string, kind: Kind, v: string)
    requires Verify(d, name, kind, v).None?
    ensures var n := Normalise(name, kind, v);
            && Verify(d, name, kind, n).None?
            && (kind == GRID_SQUARE ==> |n| >= 2)
            && Normalise(name, kind, n) == n
  {
    hide Value, StreamToInt, VerifyDate, VerifyGrid, VerifyTime, VerifyNumber, NormaliseGrid;
    CaseIdempotent(v);
    match kind {
      case GRID_SQUARE => GridIsStable(v);
      case TIME => TimeIsStable(v);
      case STRING =>
      case ENUMERATION_BAND =>
      case ENUMERATION_QSL_RECEIVED =>
      case ENUMERATION_MODE =>
      case NUMBER => NumberHasNoCase(v);
      case DATE => DateHasNoCase(v);
      case ENUMERATION_DXCC_ENTITY_CODE => DigitsHaveNoCase(v);
      case POSITIVE_INTEGER => DigitsHaveNoCase(v);
      case _ =>
    }
  }

  lemma {:induction false} NumberHasNoCase(v: string)
    requires VerifyNumber(v).None?
    ensures Upper(v) == v
  {
    assert forall i :: 0 <= i < |v| ==> UpperChar(v[i]) == v[i];
  }

  lemma {:induction false} DateHasNoCase(v: string)
    requires VerifyDate(v).None?
    ensures Upper(v) == v
  {
    DigitsHaveNoCase(v);
  }

  lemma DigitsHaveNoCase(v: string)
    requires AllDigits(v)
    ensures Upper(v) == v
  {
  }

  lemma {:induction false} GridIsStable(v: string)
    requires VerifyGrid(v).None?
    ensures VerifyGrid(NormaliseGrid(v)).None? && |NormaliseGrid(v)| >= 2
    ensures NormaliseGrid(NormaliseGrid(v)) == NormaliseGrid(v)
  {
    assert Upper(NormaliseGrid(v)) == Upper(v);
  }

  lemma {:induction false} TimeIsStable(v: string)
    requires VerifyTime(v).None?
    ensures |v| == 4 ==> VerifyTime(v + "00").None?
  {
    hide ToInt, Value;
    if |v| == 4 {
      var w := v + "00";
      assert w[..2] == v[..2] && w[2..4] == v[2..4] && w[4..6] == "00";
      NoSeconds();
    }
  }

  lemma {:induction false} NoSeconds()
    ensures AllDigits("00") && ToInt("00") == 0
  {
    LeadingDigitsAll("00");
    assert "00"[..1] == "0" && "0"[..0] == "";
    assert Value("0") == 0 && Value("00") == 0;
  }

  // ----- construction

  function Make(d: Dictionary, fieldName: string, fieldValue: string): Result<Field> {
    var name := Upper(fieldName);
    if name !in d.types then Err(UnknownType)
    else match Verify(d, name, d.types[name], fieldValue)
      case Some(e) => Err(e)
      case None => Ok(Field(name, d.types[name], Normalise(name, d.types[name], fieldValue)))
  }

  /** A field as construction and importing leave it. */
  ghost predicate Legal(d: Dictionary, f: Field) {
    Make(d, f.name, f.value) == Ok(f)
  }

  lemma {:induction false} MadeIsLegal(d: Dictionary, fieldName: string, fieldValue: string)
    requires Make(d, fieldName, fieldValue).Ok?
    ensures Legal(d, Make(d, fieldName, fieldValue).value)
  {
    var name := Upper(fieldName);
    CaseIdempotent(fieldName);
    NormalIsStable(d, name, d.types[name], fieldValue);
  }

  // ----- printing

  function Tag(name: string, n: nat): string {
    "<" + name + ":" + Decimal(n) + ">"
  }

  function Printed(f: Field, append: string): string {
    if f.name == "" || f.value == "" then ""
    else Tag(f.name, |f.value|) + f.value + append
  }

  lemma {:induction false} OccursAppend(text: string, a: string, b: string, p: int)
    requires OccursAt(text, a + b, p)
    ensures OccursAt(text, a, p) && OccursAt(text, b, p + |a|)
  {
    assert text[p..p + |a|] == text[p..p + |a + b|][..|a|] == (a + b)[..|a|];
    assert text[p + |a|..p + |a| + |b|] == text[p..p + |a + b|][|a|..] == (a + b)[|a|..];
  }

  lemma {:induction false} SameLength(a: nat, b: nat, x: string, y: string)
    requires Decimal(a) + ">" + x == Decimal(b) + ">" + y
    ensures a == b && x == y
  {
    hide FindChar, Value;
    FirstAngle(a, x);
    FirstAngle(b, y);
    ValueOfDecimal(a);
    ValueOfDecimal(b);
    assert (Decimal(a) + ">" + x)[..|Decimal(a)|] == Decimal(a);
    assert (Decimal(b) + ">" + y)[..|Decimal(b)|] == Decimal(b);
    assert (Decimal(a) + ">" + x)[|Decimal(a)| + 1..] == x;
    assert (Decimal(b) + ">" + y)[|Decimal(b)| + 1..] == y;
  }

  lemma {:induction false} FirstAngle(n: nat, rest: string)
    ensures FindChar(Decimal(n) + ">" + rest, '>', 0) == Some(|Decimal(n)|)
  {
    hide Decimal;
    FindCharIs(Decimal(n) + ">" + rest, '>', 0, |Decimal(n)|);
  }

  lemma {:induction false} SameName(a: string, b: string, x: string, y: string)
    requires ':' !in a && ':' !in b
    requires a + ":" + x == b + ":" + y
    ensures a == b && x == y
  {
    FindCharIs(a + ":" + x, ':', 0, |a|);
    FindCharIs(b + ":" + y, ':', 0, |b|);
    hide FindChar;
    assert (a + ":" + x)[..|a|] == a && (b + ":" + y)[..|b|] == b;
    assert (a + ":" + x)[|a| + 1..] == x && (b + ":" + y)[|b| + 1..] == y;
  }

  /** A printed field says where it ends: two of them that begin the same text are the same. */
  lemma {:induction false} PrefixCode(f: Field, g: Field, append: string, x: string, y: string)
    requires Printable(f) && Printable(g)
    requires Printed(f, append) + x == Printed(g, append) + y
    ensures f.name == g.name && f.value == g.value && x == y
  {
    hide Decimal;
    var restF, restG := f.value + append + x, g.value + append + y;
    PrintedParts(f, append, x);
    PrintedParts(g, append, y);
    hide Printed;
    SameName(f.name, g.name, Decimal(|f.value|) + ">" + restF, Decimal(|g.value|) + ">" + restG);
    SameLength(|f.value|, |g.value|, restF, restG);
    assert restF[..|f.value|] == f.value && restG[..|f.value|] == g.value;
    assert restF[|f.value| + |append|..] == x && restG[|f.value| + |append|..] == y;
  }

  lemma {:induction false} PrintedParts(f: Field, append: string, x: string)
    requires Printable(f)
    ensures (Printed(f, append) + x)[1..] ==
            f.name + ":" + (Decimal(|f.value|) + ">" + (f.value + append + x))
  {
    hide Decimal;
  }

  ghost predicate Printable(f: Field) {
    f.name != "" && ':' !in f.name && f.value != ""
  }

  function PrintedAll(fs: seq<Field>, append: string): string {
    if fs == [] then "" else Printed(fs[0], append) + PrintedAll(fs[1..], append)
  }

  lemma {:induction false} NotEmpty(fs: seq<Field>, append: string)
    requires fs != [] ==> Printable(fs[0])
    ensures PrintedAll(fs, append) == "" <==> fs == []
  {
    hide Tag;
  }

  predicate SameFields(fs: seq<Field>, gs: seq<Field>) {
    if fs == [] || gs == [] then fs == gs
    else fs[0].name == gs[0].name && fs[0].value == gs[0].value && SameFields(fs[1..], gs[1..])
  }

  /** So any number of printed fields, one after the other, determine the fields. */
  lemma {:induction false} UniqueDecoding(fs: seq<Field>, gs: seq<Field>, append: string)
    requires forall i :: 0 <= i < |fs| ==> Printable(fs[i])
    requires forall i :: 0 <= i < |gs| ==> Printable(gs[i])
    ensures PrintedAll(fs, append) == PrintedAll(gs, append) <==> SameFields(fs, gs)
  {
    hide Tag;
    NotEmpty(fs, append);
    NotEmpty(gs, append);
    if fs != [] && gs != [] {
      if PrintedAll(fs, append) == PrintedAll(gs, append) {
        PrefixCode(fs[0], gs[0], append, PrintedAll(fs[1..], append), PrintedAll(gs[1..], append));
      }
      UniqueDecoding(fs[1..], gs[1..], append);
    }
  }

  // ----- importing

  /** Where importing goes on (before the text, after a length below zero), or npos, or the error thrown. */
  datatype Outcome = Next(position: int) | NoPosition | Thrown(error: Error)

  /** The n characters from start, or all there are; n below zero means all. */
  function Contents(text: string, start: nat, n: int): string
    requires start <= |text|
  {
    if n < 0 || start + n > |text| then text[start..] else text[start..start + n]
  }

  /** adif3_field::import_and_eat, on a field that may already have a name. */
  function Import(d: Dictionary, f: Field, text: string, start: nat, end: nat, accept: set<string>): (Outcome, Field) {
    match FindChar(text, '<', start)
    case None => (NoPosition, f)
    case Some(lt) =>
      match FindChar(text, '>', lt)
      case None => (NoPosition, f)
      case Some(gt) =>
        if gt == end then (Next(gt + 1), f)
        else
          var fields := Split(Substring(text, lt + 1, gt - lt - 1), ':');
          if |fields| < 2 || |fields| > 3 then (NoPosition, f)
          else
            var nChars := ToInt(fields[1]);
            var next := Next(gt + 1 + nChars);
            var name := Upper(fields[0]);
            if accept != {} && name !in accept then (next, f)
            else if f.name != "" && name != Upper(f.name) then (NoPosition, f)
            else Stored(d, f, if f.name == "" then name else f.name, Contents(text, gt + 1, nChars), next)
  }

  /** The field takes the contents when they are legal. */
  function Stored(d: Dictionary, f: Field, name: string, contents: string, next: Outcome): (Outcome, Field) {
    if name !in d.types then (Thrown(UnknownType), f)
    else match Verify(d, name, d.types[name], contents)
      case Some(e) => (Thrown(e), f)
      case None => (next, Field(name, d.types[name], Normalise(name, d.types[name], contents)))
  }

  lemma {:induction false} StoredIsLegal(d: Dictionary, name: string, contents: string, next: Outcome)
    ensures var r := Stored(d, NO_FIELD, Upper(name), contents, next); r.1 == NO_FIELD || Legal(d, r.1)
  {
    hide Verify, Normalise;
    if Make(d, name, contents).Ok? { MadeIsLegal(d, name, contents); }
  }

  lemma {:induction false} ImportedIsLegal(d: Dictionary, text: string, start: nat, end: nat, accept: set<string>)
    ensures var r := Import(d, NO_FIELD, text, start, end, accept);
            r.1 == NO_FIELD || Legal(d, r.1)
  {
    hide FindChar, Split, Stored, Legal, ToInt;
    var lt := FindChar(text, '<', start);
    if lt.Some? {
      var gt := FindChar(text, '>', lt.value);
      if gt.Some? {
        var fields := Split(Substring(text, lt.value + 1, gt.value - lt.value - 1), ':');
        if |fields| >= 2 {
          var nChars := ToInt(fields[1]);
          var contents := Contents(text, gt.value + 1, nChars);
          StoredIsLegal(d, fields[0], contents, Next(gt.value + 1 + nChars));
        }
      }
    }
  }

  /** A tag with these parts, separated by colons. */
  function Tagged(parts: seq<string>): string {
    "<" + JoinSpec(parts, ":") + ">"
  }

  /** The parts of a tag can hold neither what separates them nor what ends it. */
  predicate PlainParts(parts: seq<string>) {
    forall k :: 0 <= k < |parts| ==> ':' !in parts[k] && '>' !in parts[k]
  }

  lemma {:induction false} JoinedParts(parts: seq<string>)
    requires PlainParts(parts)
    ensures '>' !in JoinSpec(parts, ":")
  {
    if |parts| > 1 {
      JoinedParts(parts[1..]);
    }
  }

  /** Reading a tag: where it ends, and its parts. */
  lemma {:induction false} ReadParts(text: string, parts: seq<string>, p: nat)
    requires OccursAt(text, Tagged(parts), p) && PlainParts(parts)
    ensures var gt := p + |Tagged(parts)| - 1;
            && p < gt < |text| && FindChar(text, '>', p) == Some(gt)
            && Split(Substring(text, p + 1, gt - p - 1), ':') == if parts == [""] then [] else parts
  {
    hide FindChar, Split, JoinSpec;
    var tag := Tagged(parts);
    var gt := p + |tag| - 1;
    assert forall i :: 0 <= i < |tag| ==> text[p + i] == text[p..p + |tag|][i] == tag[i];
    JoinedParts(parts);
    forall i | p <= i < gt ensures text[i] != '>' {
      assert text[i] == tag[i - p];
    }
    FindCharIs(text, '>', p, gt);
    SplitOfJoin(parts, ':');
    SplitOfNone();
    SliceOfSlice(text, p, p + |tag|, 1, |tag| - 1);
    assert tag[1..|tag| - 1] == JoinSpec(parts, ":");
  }

  lemma SplitOfNone()
    ensures Split(JoinSpec([""], ":"), ':') == []
  {
  }

  /** The first n characters from start, or as many as there are; all when n is negative. */
  predicate IsNext(text: string, start: nat, n: int, value: string)
    requires start <= |text|
  {
    if 0 <= n <= |text| - start then OccursAt(text, value, start) && |value| == n else value == text[start..]
  }

  lemma {:induction false} ContentsNext(text: string, start: nat, n: int, value: string)
    requires start <= |text| && IsNext(text, start, n, value)
    ensures Contents(text, start, n) == value
  {
  }

  /** A name, and whether the fields to accept let it in. */
  predicate Accepts(accept: set<string>, name: string) {
    accept == {} || Upper(name) in accept
  }

  /** Importing from any text at a tag of two or three parts, of which the third says nothing:
      the field that its name and what follows the tag make, in as many characters as the
      second part says, or the error of making it. A field that is not accepted is passed
      over; a field that has another name is left alone, and so is everything after it. */
  lemma {:induction false} ImportTag(d: Dictionary, f: Field, text: string, start: nat, p: nat, end: nat,
                                     accept: set<string>, parts: seq<string>, value: string)
    requires OccursAt(text, Tagged(parts), p) && PlainParts(parts) && 2 <= |parts| <= 3
    requires FindChar(text, '<', start) == Some(p) && end != p + |Tagged(parts)| - 1
    requires IsNext(text, p + |Tagged(parts)|, ToInt(parts[1]), value)
    requires Upper(f.name) == f.name
    ensures var next := Next(p + |Tagged(parts)| + ToInt(parts[1]));
            Import(d, f, text, start, end, accept) ==
            if !Accepts(accept, parts[0]) then (next, f)
            else if f.name != "" && f.name != Upper(parts[0]) then (NoPosition, f)
            else match Make(d, parts[0], value)
              case Ok(g) => (next, g)
              case Err(e) => (Thrown(e), f)
  {
    hide FindChar, Split, Verify, Normalise, ToInt, OccursAt, Tagged, PlainParts, IsNext;
    ReadParts(text, parts, p);
    ContentsNext(text, p + |Tagged(parts)|, ToInt(parts[1]), value);
  }

  /** A tag of any other number of parts ends the import of the record. */
  lemma {:induction false} ImportOtherTag(d: Dictionary, f: Field, text: string, start: nat, p: nat, end: nat,
                                          accept: set<string>, parts: seq<string>)
    requires OccursAt(text, Tagged(parts), p) && PlainParts(parts) && (|parts| < 2 || |parts| > 3)
    requires FindChar(text, '<', start) == Some(p) && end != p + |Tagged(parts)| - 1
    ensures Import(d, f, text, start, end, accept) == (NoPosition, f)
  {
    hide FindChar, Split, Verify, ToInt, OccursAt, Tagged, PlainParts, Stored;
    ReadParts(text, parts, p);
  }

  /** So does a text with no tag left; the tag that ends the record is just stepped over. */
  lemma {:induction false} ImportNoTag(d: Dictionary, f: Field, text: string, start: nat, end: nat, accept: set<string>)
    ensures (forall i :: start <= i < |text| ==> text[i] != '<') ==>
              Import(d, f, text, start, end, accept) == (NoPosition, f)
    ensures forall p: nat :: FindChar(text, '<', start) == Some(p) && FindChar(text, '>', p) == None ==>
                               Import(d, f, text, start, end, accept) == (NoPosition, f)
    ensures forall p: nat :: FindChar(text, '<', start) == Some(p) && FindChar(text, '>', p) == Some(end) ==>
                               Import(d, f, text, start, end, accept) == (Next(end + 1), f)
  {
    hide Split, Stored, ToInt;
  }

  /** A tag as ADI files write it: a name in any case, the number of characters of the value in
      digits, and perhaps the type. */
  function FieldTag(name: string, digits: string, kind: Option<string>): string {
    Tagged(match kind case None => [name, digits] case Some(k) => [name, digits, k])
  }

  /** Importing such a field gives the field that its name and value make, or the error, and
      stops just after the value, whatever characters the value has. */
  lemma {:induction false} ImportField(d: Dictionary, text: string, start: nat, p: nat, end: nat, accept: set<string>,
                                       name: string, digits: string, kind: Option<string>, value: string)
    requires PlainParts([name]) && (kind.Some? ==> PlainParts([kind.value]))
    requires digits != "" && AllDigits(digits) && Value(digits) == |value| <= INT_MAX
    requires OccursAt(text, FieldTag(name, digits, kind) + value, p) && FindChar(text, '<', start) == Some(p)
    requires end != p + |FieldTag(name, digits, kind)| - 1
    ensures var next := Next(p + |FieldTag(name, digits, kind)| + |value|);
            Import(d, NO_FIELD, text, start, end, accept) ==
            if !Accepts(accept, name) then (next, NO_FIELD)
            else match Make(d, name, value)
              case Ok(g) => (next, g)
              case Err(e) => (Thrown(e), NO_FIELD)
  {
    hide FindChar, Verify, Normalise, ToInt, OccursAt, Tagged, Import, Make, Value;
    var parts := match kind case None => [name, digits] case Some(k) => [name, digits, k];
    var tag := FieldTag(name, digits, kind);
    assert [name][0] == name && (kind.Some? ==> [kind.value][0] == kind.value);
    assert PlainParts(parts);
    OccursAppend(text, tag, value, p);
    ToIntReads(digits, "");
    assert digits + "" == digits;
    NextIsThere(text, p + |tag|, value);
    ImportTag(d, NO_FIELD, text, start, p, end, accept, parts, value);
  }

  lemma NextIsThere(text: string, start: nat, value: string)
    requires OccursAt(text, value, start)
    ensures start <= |text| && IsNext(text, start, |value|, value)
  {
  }

  /** A name fit to stand in a tag, which is then not one of five characters. */
  predicate TagName(name: string) {
    |name| >= 2 && ':' !in name && '>' !in name
  }

  /** Names in the dictionary are in upper case. */
  predicate GoodName(name: string) {
    TagName(name) && Upper(name) == name
  }

  lemma {:induction false} TagIsFieldTag(name: string, n: nat)
    ensures Tag(name, n) == FieldTag(name, Decimal(n), None)
  {
    hide Decimal;
    var parts := [name, Decimal(n)];
    assert parts[1..] == [Decimal(n)];
    assert JoinSpec(parts, ":") == name + ":" + Decimal(n);
    assert "<" + (name + ":" + Decimal(n)) + ">" == "<" + name + ":" + Decimal(n) + ">";
  }

  /** Where the tag of a printed field ends. */
  lemma {:induction false} TagEnds(text: string, name: string, n: nat, p: nat)
    requires OccursAt(text, Tag(name, n), p)
    requires ':' !in name && '>' !in name
    ensures var gt := p + |Tag(name, n)| - 1;
            && p + 2 + |name| < gt < |text| && text[p] == '<'
            && FindChar(text, '>', p) == Some(gt) && FindChar(text, '>', p + 1) == Some(gt)
  {
    hide Decimal, FindChar, Tagged, Split, Substring;
    var parts := [name, Decimal(n)];
    TagIsFieldTag(name, n);
    ReadParts(text, parts, p);
    var gt := p + |Tag(name, n)| - 1;
    assert text[p] == text[p..p + |Tag(name, n)|][0] == Tag(name, n)[0] == '<';
    FindCharIs(text, '>', p + 1, gt);
  }

  /** Importing a printed field, whatever characters its value has, makes the field again or
      throws the error of making it, and stops just after the value; a field that is not
      accepted is passed over. */
  lemma {:induction false} ImportPrinted(d: Dictionary, f: Field, text: string, start: nat, p: nat, end: nat,
                                         accept: set<string>)
    requires TagName(f.name) && |f.value| <= INT_MAX
    requires OccursAt(text, Tag(f.name, |f.value|) + f.value, p)
    requires start <= p && FindChar(text, '<', start) == Some(p)
    requires end != p + |Tag(f.name, |f.value|)| - 1
    ensures var next := Next(p + |Tag(f.name, |f.value|)| + |f.value|);
            Import(d, NO_FIELD, text, start, end, accept) ==
            if !Accepts(accept, f.name) then (next, NO_FIELD)
            else match Make(d, f.name, f.value)
              case Ok(g) => (next, g)
              case Err(e) => (Thrown(e), NO_FIELD)
  {
    hide FindChar, Verify, Decimal, OccursAt, Tag, FieldTag, Import, Make, Value;
    TagIsFieldTag(f.name, |f.value|);
    ValueOfDecimal(|f.value|);
    assert PlainParts([f.name]);
    ImportField(d, text, start, p, end, accept, f.name, Decimal(|f.value|), None, f.value);
  }

  /** So a field as it is stored comes back. */
  lemma {:induction false} ImportOfPrinted(d: Dictionary, f: Field, append: string, text: string,
                                           start: nat, p: nat, end: nat, accept: set<string>)
    requires Legal(d, f) && GoodName(f.name) && 0 < |f.value| <= INT_MAX
    requires OccursAt(text, Printed(f, append), p)
    requires start <= p && FindChar(text, '<', start) == Some(p)
    requires end != p + |Tag(f.name, |f.value|)| - 1
    ensures Import(d, NO_FIELD, text, start, end, accept) ==
            (Next(p + |Tag(f.name, |f.value|)| + |f.value|), if accept == {} || f.name in accept then f else NO_FIELD)
  {
    hide FindChar, Make, OccursAt, Tag, Import;
    OccursAppend(text, Tag(f.name, |f.value|) + f.value, append, p);
    ImportPrinted(d, f, text, start, p, end, accept);
  }
}
