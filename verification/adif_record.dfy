/** adif3_record and adif3_file: records of fields, each closed by an end-of-record tag. */
module AdifRecord {
  import opened Text
  import opened Numbers
  import opened AdifField

  const EOR := "<EOR>"
  const EOH := "<EOH>"

  // ----- the ordered map from name to field

  /** Fields in the order of their names, each name once. */
  ghost predicate Ordered(fs: seq<Field>) {
    forall i, j :: 0 <= i < j < |fs| ==> Less(fs[i].name, fs[j].name)
  }

  ghost predicate AllLegal(d: Dictionary, fs: seq<Field>) {
    forall f :: f in fs ==> Legal(d, f)
  }

  predicate Has(fs: seq<Field>, name: string) {
    exists i :: 0 <= i < |fs| && fs[i].name == name
  }

  function Insert(fs: seq<Field>, f: Field): (r: seq<Field>) {
    if fs == [] || Less(f.name, fs[0].name) then [f] + fs else [fs[0]] + Insert(fs[1..], f)
  }

  /** Insertion keeps the order and adds just the one field. */
  lemma {:induction false} InsertKeepsOrder(fs: seq<Field>, f: Field)
    requires Ordered(fs) && !Has(fs, f.name)
    ensures Ordered(Insert(fs, f))
    ensures forall g :: g in Insert(fs, f) <==> g == f || g in fs
  {
    if fs == [] {
    } else if Less(f.name, fs[0].name) {
      forall j | 1 <= j < |fs| ensures Less(f.name, fs[j].name) {
        LessTransitive(f.name, fs[0].name, fs[j].name);
      }
    } else {
      LessTrichotomy(f.name, fs[0].name);
      var rest := Insert(fs[1..], f);
      assert !Has(fs[1..], f.name);
      InsertKeepsOrder(fs[1..], f);
      assert fs == [fs[0]] + fs[1..];
      forall j | 0 <= j < |rest| ensures Less(fs[0].name, rest[j].name) {
        assert rest[j] in rest;
        if rest[j] != f {
          var k :| 0 <= k < |fs[1..]| && fs[1..][k] == rest[j];
          assert fs[k + 1] == rest[j];
        }
      }
    }
  }

  lemma {:induction false} InsertLast(fs: seq<Field>, f: Field)
    requires Ordered(fs + [f])
    ensures Insert(fs, f) == fs + [f] && !Has(fs, f.name)
  {
    var all := fs + [f];
    forall i | 0 <= i < |fs| ensures Less(fs[i].name, f.name) && fs[i].name != f.name && !Less(f.name, fs[i].name) {
      assert all[i] == fs[i] && all[|fs|] == f;
      LessTrichotomy(fs[i].name, f.name);
    }
    if fs != [] {
      assert all[1..] == fs[1..] + [f];
      InsertLast(fs[1..], f);
    }
  }

  // ----- finding the end of the record

  /** Endless: a five-character tag that is not the end of a record is looked at for ever. */
  datatype Scan = Found(position: nat) | Missing | Endless

  function EorScan(text: string, from: nat): (r: Scan)
    ensures r.Found? ==> from <= r.position < |text|
    decreases |text| - from
  {
    match FindChar(text, '<', from)
    case None => Missing
    case Some(lt) =>
      match FindChar(text, '>', lt + 1)
      case None => Missing
      case Some(gt) =>
        if gt - lt != 4 then EorScan(text, gt + 1)
        else if Upper(Substring(text, lt, 5)) == EOR then Found(gt)
        else Endless
  }

  ghost function ScanTag(text: string, lt: nat, gt: nat): Scan
    requires lt < gt < |text|
  {
    if gt - lt != 4 then EorScan(text, gt + 1)
    else if Upper(Substring(text, lt, 5)) == EOR then Found(gt)
    else Endless
  }

  lemma {:induction false} ScanOneTag(text: string, from: nat, lt: nat, gt: nat)
    requires FindChar(text, '<', from) == Some(lt) && FindChar(text, '>', lt + 1) == Some(gt) && lt < gt < |text|
    ensures EorScan(text, from) == ScanTag(text, lt, gt)
  {
    hide FindChar;
  }

  /** find for one character, without saying that it is the first. */
  function Seek(text: string, c: char, from: nat): (r: Option<nat>)
    ensures r.Some? ==> from <= r.value < |text|
  {
    FindChar(text, c, from)
  }

  /** One turn of the search for the end of the record, from a place outside any tag. */
  lemma {:induction false} SeekTag(text: string, from: nat)
    ensures var left := Seek(text, '<', from);
            && (left.None? ==> EorScan(text, from) == Missing)
            && (left.Some? ==>
                var right := Seek(text, '>', left.value + 1);
                && (right.None? ==> EorScan(text, from) == Missing)
                && (right.Some? ==> EorScan(text, from) == ScanTag(text, left.value, right.value)))
  {
    hide FindChar, Upper, Substring;
  }

  lemma SeekHere(text: string, c: char, p: nat)
    requires p < |text| && text[p] == c
    ensures Seek(text, c, p) == Some(p)
  {
    FindCharIs(text, c, p, p);
  }

  lemma TagIsPassed(text: string, lt: nat, gt: nat)
    requires lt < gt < |text| && gt - lt != 4
    ensures ScanTag(text, lt, gt) == EorScan(text, gt + 1)
  {
  }

  lemma TagIsLast(text: string, lt: nat, gt: nat)
    requires lt < gt < |text| && gt - lt == 4
    ensures ScanTag(text, lt, gt) == if Upper(Substring(text, lt, 5)) == EOR then Found(gt) else Endless
  {
  }

  /** The two loops that look for the end of the record. */
  method FindEor(text: string, posn1: nat) returns (r: Scan)
    requires posn1 < |text| && text[posn1] == '<'
    ensures r == EorScan(text, posn1)
  {
    hide *;
    SeekHere(text, '<', posn1);
    SeekTag(text, posn1);
    var posn2: nat := posn1;
    var next := Seek(text, '>', posn1 + 1);
    if next.None? {
      return Missing;
    }
    var posn3: nat := next.value;
    while posn3 - posn2 != 4
      invariant posn2 < posn3 < |text|
      invariant EorScan(text, posn1) == ScanTag(text, posn2, posn3)
      decreases |text| - posn3
    {
      TagIsPassed(text, posn2, posn3);
      SeekTag(text, posn3 + 1);
      var left := Seek(text, '<', posn3 + 1);
      if left.None? {
        return Missing;
      }
      posn2 := left.value;
      var right := Seek(text, '>', posn2 + 1);
      if right.None? {
        return Missing;
      }
      posn3 := right.value;
    }
    // nothing in the outer loop changes, unless this is the end of the record
    TagIsLast(text, posn2, posn3);
    r := if Upper(Substring(text, posn2, 5)) == EOR then Found(posn3) else Endless;
  }

  // ----- importing a record

  /** The fields and the position after the record; or why there are none. Backwards: a
      length below zero has led back, from where this is not followed further. */
  datatype Imported =
    | Imported(elements: seq<Field>, next: Option<nat>)
    | Failed(error: Error)
    | NeverEnds
    | Backwards

  function ImportFields(d: Dictionary, text: string, start: nat, end: nat, accept: set<string>,
                        elements: seq<Field>, next: Option<nat>): (r: Imported)
    ensures r.Imported? ==> r.next == next
    decreases end + 1 - start
  {
    if start > end then Imported(elements, next)
    else
      var (outcome, f) := Import(d, NO_FIELD, text, start, end, accept);
      if outcome.Thrown? then Failed(outcome.error)
      else if f.name != "" && Has(elements, f.name) then Failed(DuplicateField)
      else
        var elements' := if f.name != "" then Insert(elements, f) else elements;
        match outcome
        case NoPosition => Imported(elements', next)
        case Next(p) => if p > start then ImportFields(d, text, p, end, accept, elements', next) else Backwards
  }

  function After(text: string, gt: nat): Option<nat> {
    if gt + 1 >= |text| then None else Some(gt + 1)
  }

  function ImportRecord(d: Dictionary, text: string, posn: nat, accept: set<string>, elements: seq<Field>)
    : (r: Imported)
    ensures r.Imported? && r.next.Some? ==> posn < r.next.value < |text|
  {
    match FindChar(text, '<', posn)
    case None => Imported(elements, None)
    case Some(lt) =>
      match EorScan(text, lt)
      case Missing => Imported(elements, None)
      case Endless => NeverEnds
      case Found(gt) => ImportFields(d, text, lt, gt, accept, elements, After(text, gt))
  }

  class AdifRecord {
    var elements: seq<Field>

    ghost predicate Valid(d: Dictionary)
      reads this
    {
      Ordered(elements) && AllLegal(d, elements)
    }

    constructor ()
      ensures elements == []
    {
      elements := [];
    }

    method ImportAndEat(d: Dictionary, text: string, posn: nat, accept: set<string>) returns (r: Imported)
      requires Valid(d)
      modifies this
      ensures r == ImportRecord(d, text, posn, accept, old(elements))
      ensures r.Imported? ==> elements == r.elements
      ensures Valid(d)
    {
      hide FindChar, Import, Legal, EorScan, Insert, Ordered;
      var posn1 := FindChar(text, '<', posn);
      if posn1.None? {
        return Imported(elements, None);
      }
      FoundThere(text, '<', posn);
      var scan := FindEor(text, posn1.value);
      if scan.Missing? {
        return Imported(elements, None);
      }
      if scan.Endless? {
        return NeverEnds;
      }
      var posn2 := scan.position;
      var rv := After(text, posn2);
      var start := posn1.value;
      while start <= posn2
        invariant Valid(d)
        invariant ImportFields(d, text, posn1.value, posn2, accept, old(elements), rv) ==
                  ImportFields(d, text, start, posn2, accept, elements, rv)
        decreases posn2 + 1 - start
      {
        var (outcome, element) := Import(d, NO_FIELD, text, start, posn2, accept);
        ImportedIsLegal(d, text, start, posn2, accept);
        if outcome.Thrown? {
          return Failed(outcome.error);
        }
        if element.name != "" {
          if Has(elements, element.name) {
            return Failed(DuplicateField);
          }
          InsertKeepsOrder(elements, element);
          elements := Insert(elements, element);
        }
        if outcome.NoPosition? {
          return Imported(elements, rv);
        }
        if outcome.position <= start {
          return Backwards;
        }
        start := outcome.position;
      }
      r := Imported(elements, rv);
    }

    /** Fields of an import-only type are left out. */
    method ToString() returns (rv: string)
      ensures rv == RecordText(elements)
    {
      hide Printed;
      rv := "";
      for i := 0 to |elements|
        invariant RecordText(elements) == rv + RecordText(elements[i..])
      {
        assert elements[i..][1..] == elements[i + 1..];
        if elements[i].kind != AWARD_LIST {
          rv := rv + Printed(elements[i], "\n");
        }
      }
      rv := rv + "<EOR>\n";
    }

    method Value(name: string) returns (v: string)
      ensures Has(elements, Upper(name)) ==>
                exists i :: 0 <= i < |elements| && elements[i].name == Upper(name) && v == elements[i].value
      ensures !Has(elements, Upper(name)) ==> v == ""
    {
      v := "";
      for i := 0 to |elements|
        invariant forall j :: 0 <= j < i ==> elements[j].name != Upper(name)
      {
        if elements[i].name == Upper(name) {
          return elements[i].value;
        }
      }
    }

    /** A field that is already there keeps its old value. */
    method SetValue(d: Dictionary, name: string, value: string) returns (r: Result<bool>)
      requires Valid(d)
      modifies this
      ensures Valid(d)
      ensures r == match Make(d, name, value)
                   case Err(e) => Err(e)
                   case Ok(f) => Ok(!Has(old(elements), f.name))
      ensures elements == if r == Ok(true) then Insert(old(elements), Make(d, name, value).value) else old(elements)
    {
      hide Ordered, Insert, Legal;
      var made := Make(d, name, value);
      if made.Err? {
        return Err(made.error);
      }
      MadeIsLegal(d, name, value);
      hide Make;
      var f := made.value;
      if Has(elements, f.name) {
        return Ok(false);
      }
      InsertKeepsOrder(elements, f);
      elements := Insert(elements, f);
      r := Ok(true);
    }
  }

  lemma FoundThere(text: string, c: char, from: nat)
    ensures var r := FindChar(text, c, from); r.Some? ==> r.value < |text| && text[r.value] == c
  {
  }

  // ----- printing a record

  function RecordText(fs: seq<Field>): (r: string)
    ensures |r| >= 6
  {
    if fs == [] then "<EOR>\n"
    else (if fs[0].kind == AWARD_LIST then "" else Printed(fs[0], "\n")) + RecordText(fs[1..])
  }

  /** The fields that are printed: not of an import-only type, and not empty. */
  predicate IsExported(f: Field) { f.kind != AWARD_LIST && f.name != "" && f.value != "" }

  function Exported(fs: seq<Field>): (r: seq<Field>)
    ensures forall f :: f in r <==> f in fs && IsExported(f)
  {
    if fs == [] then []
    else if IsExported(fs[0]) then [fs[0]] + Exported(fs[1..])
    else Exported(fs[1..])
  }

  lemma {:induction false} RecordTextIs(fs: seq<Field>)
    ensures Follows(RecordText(fs), FieldsText(Exported(fs)), "\n")
  {
    hide Printed, PrintedAll, FieldsText, RecordText, Exported, Follows, IsExported;
    RecordTextStep(fs);
    if fs != [] {
      RecordTextIs(fs[1..]);
      if IsExported(fs[0]) {
        PutBefore(Printed(fs[0], "\n"), RecordText(fs[1..]), FieldsText(Exported(fs[1..])), "\n");
      }
    }
  }

  lemma {:induction false} PutBefore(x: string, whole: string, first: string, rest: string)
    requires Follows(whole, first, rest)
    ensures Follows(x + whole, x + first, rest)
  {
    assert x + (first + rest) == x + first + rest;
  }

  lemma {:induction false} RecordTextStep(fs: seq<Field>)
    ensures fs == [] ==> Follows(RecordText(fs), FieldsText(Exported(fs)), "\n")
    ensures fs != [] && IsExported(fs[0]) ==>
              && RecordText(fs) == Printed(fs[0], "\n") + RecordText(fs[1..])
              && FieldsText(Exported(fs)) == Printed(fs[0], "\n") + FieldsText(Exported(fs[1..]))
    ensures fs != [] && !IsExported(fs[0]) ==>
              RecordText(fs) == RecordText(fs[1..]) && Exported(fs) == Exported(fs[1..])
  {
    if fs != [] {
      PrintedEmpty(fs[0]);
      hide Printed;
      if IsExported(fs[0]) {
        assert Exported(fs)[1..] == Exported(fs[1..]);
      }
    }
  }

  lemma {:induction false} ExportedOrdered(fs: seq<Field>)
    requires Ordered(fs)
    ensures Ordered(Exported(fs))
  {
    if fs != [] {
      ExportedOrdered(fs[1..]);
      var rest := Exported(fs[1..]);
      forall j | 0 <= j < |rest| ensures Less(fs[0].name, rest[j].name) {
        assert rest[j] in rest;
        assert rest[j] in fs[1..];
      }
    }
  }

  lemma PrintedEmpty(f: Field)
    ensures !IsExported(f) && f.kind != AWARD_LIST ==> Printed(f, "\n") == ""
  {
  }

  function Accepted(fs: seq<Field>, accept: set<string>): (r: seq<Field>)
    ensures forall f :: f in r <==> f in fs && (accept == {} || Upper(f.name) in accept)
  {
    if fs == [] then []
    else (if accept == {} || Upper(fs[0].name) in accept then [fs[0]] else []) + Accepted(fs[1..], accept)
  }

  // ----- what the scan for the end of the record sees

  /** How the scan leaves a value that it enters outside any tag: outside; inside a tag that
      the value opens; at what looks like the end of the record, with its '>' at gt; or not
      at all, stuck at another tag of five characters. */
  datatype Walk = Closed | Open | Ended(gt: nat) | Stuck

  function WalkValue(v: string, i: nat): (r: Walk)
    ensures r.Ended? ==> i < r.gt < |v|
    decreases |v| - i
  {
    match FindChar(v, '<', i)
    case None => Closed
    case Some(lt) =>
      match FindChar(v, '>', lt + 1)
      case None => Open
      case Some(gt) =>
        if gt - lt != 4 then WalkValue(v, gt + 1)
        else if Upper(v[lt..gt + 1]) == "<EOR>" then Ended(gt)
        else Stuck
  }

  predicate Passes(w: Walk) {
    w == Closed || w == Open
  }

  /** The values do not hide the end of the record: none has a five-character tag, and the
      last one leaves no tag open. */
  predicate Scannable(fs: seq<Field>) {
    fs == [] ||
    (Passes(WalkValue(fs[0].value, 0)) && (|fs| == 1 ==> WalkValue(fs[0].value, 0) == Closed) && Scannable(fs[1..]))
  }

  lemma {:induction false} PlainIsScannable(fs: seq<Field>)
    requires forall i :: 0 <= i < |fs| ==> '<' !in fs[i].value
    ensures Scannable(fs)
  {
    if fs != [] { PlainIsScannable(fs[1..]); }
  }

  /** A search that starts where the text holds v sees what it would see in v. */
  lemma FindInside(text: string, v: string, p: nat, i: nat, c: char)
    requires OccursAt(text, v, p) && i <= |v|
    ensures FindChar(v, c, i).Some? ==> FindChar(text, c, p + i) == Some(p + FindChar(v, c, i).value)
    ensures FindChar(v, c, i).None? ==> FindChar(text, c, p + i) == FindChar(text, c, p + |v|)
  {
  }

  lemma {:induction false} SkipOver(text: string, c: char, from: nat, to: nat)
    requires from <= to <= |text| && forall k :: from <= k < to ==> text[k] != c
    ensures FindChar(text, c, from) == FindChar(text, c, to)
  {
    var r := FindChar(text, c, to);
    if r.Some? { FindCharIs(text, c, from, r.value); }
  }

  lemma {:induction false} ScanFrom(text: string, from: nat, to: nat)
    requires FindChar(text, '<', from) == FindChar(text, '<', to)
    ensures EorScan(text, from) == EorScan(text, to)
  {
    hide FindChar;
  }

  lemma WalkStep(v: string, i: nat)
    ensures var left := FindChar(v, '<', i);
            && (left.None? ==> WalkValue(v, i) == Closed)
            && (left.Some? ==>
                var right := FindChar(v, '>', left.value + 1);
                && (right.None? ==> WalkValue(v, i) == Open)
                && (right.Some? ==>
                    && left.value < right.value < |v|
                    && WalkValue(v, i) == WalkTag(v, left.value, right.value)))
  {
  }

  ghost function WalkTag(v: string, lt: nat, gt: nat): Walk
    requires lt < gt < |v|
  {
    if gt - lt != 4 then WalkValue(v, gt + 1)
    else if Upper(v[lt..gt + 1]) == "<EOR>" then Ended(gt)
    else Stuck
  }

  lemma {:induction false} SameTag(text: string, v: string, p: nat, lt: nat, gt: nat)
    requires OccursAt(text, v, p) && lt < gt < |v|
    ensures gt - lt == 4 && WalkTag(v, lt, gt).Ended? ==> ScanTag(text, p + lt, p + gt) == Found(p + gt)
    ensures gt - lt == 4 ==> WalkTag(v, lt, gt) == Ended(gt) || WalkTag(v, lt, gt) == Stuck
    ensures gt - lt == 4 && WalkTag(v, lt, gt) == Stuck ==> ScanTag(text, p + lt, p + gt) == Endless
    ensures gt - lt != 4 ==>
              WalkTag(v, lt, gt) == WalkValue(v, gt + 1) && ScanTag(text, p + lt, p + gt) == EorScan(text, p + gt + 1)
  {
    hide WalkValue, EorScan, Upper, Substring;
    if gt - lt == 4 {
      SliceOfSlice(text, p, p + |v|, lt, gt + 1);
      SubstringInside(text, p + lt, 5);
    }
  }

  lemma SubstringInside(s: string, start: nat, length: nat)
    requires start + length <= |s|
    ensures Substring(s, start, length) == s[start..start + length]
  {
  }

  /** Scanning over a value at p that is followed, five or more characters on, by a '>' at g. */
  lemma {:induction false} ScanValue(text: string, v: string, p: nat, i: nat, g: nat)
    requires OccursAt(text, v, p) && i <= |v| && p + |v| <= |text|
    requires FindChar(text, '>', p + |v|) == Some(g) && p + |v| + 5 <= g < |text|
    ensures WalkValue(v, i) == Closed ==> EorScan(text, p + i) == EorScan(text, p + |v|)
    ensures WalkValue(v, i) == Open ==> EorScan(text, p + i) == EorScan(text, g + 1)
    ensures WalkValue(v, i).Ended? ==> EorScan(text, p + i) == Found(p + WalkValue(v, i).gt)
    ensures WalkValue(v, i) == Stuck ==> EorScan(text, p + i) == Endless
    decreases |v| - i
  {
    hide WalkValue, EorScan, FindChar, OccursAt, Substring, Upper, WalkTag;
    FindInside(text, v, p, i, '<');
    WalkStep(v, i);
    var left := FindChar(v, '<', i);
    if left.None? {
      ScanFrom(text, p + i, p + |v|);
    } else {
      var lt := left.value;
      FindInside(text, v, p, lt + 1, '>');
      var right := FindChar(v, '>', lt + 1);
      if right.None? {
        ScanOneTag(text, p + i, p + lt, g);
      } else {
        var gt := right.value;
        ScanOneTag(text, p + i, p + lt, p + gt);
        SameTag(text, v, p, lt, gt);
        if gt - lt != 4 {
          ScanValue(text, v, p, gt + 1, g);
        }
      }
    }
  }

  // ----- printed records

  /** Fields fit to be printed; their names are in any case and order. */
  ghost predicate Writable(fs: seq<Field>) {
    forall f :: f in fs ==> TagName(f.name) && 0 < |f.value| <= INT_MAX
  }

  /** Fields as a record holds and prints them. */
  ghost predicate Storable(d: Dictionary, fs: seq<Field>) {
    && Ordered(fs) && AllLegal(d, fs)
    && forall f :: f in fs ==> GoodName(f.name) && 0 < |f.value| <= INT_MAX
  }

  lemma {:induction false} StorableIsWritable(d: Dictionary, fs: seq<Field>)
    requires Storable(d, fs)
    ensures Writable(fs)
  {
    hide Ordered, AllLegal;
  }

  /** The end of the tag of the first field, or of the end of the record. */
  function TagEnd(fs: seq<Field>, p: nat): nat {
    if fs == [] then p + 4 else p + |Tag(fs[0].name, |fs[0].value|)| - 1
  }

  /** The text of the fields up to the end of the record. */
  function FieldsText(fs: seq<Field>): (r: string)
    ensures |r| >= 5
  {
    PrintedAll(fs, "\n") + "<EOR>"
  }

  /** The tag that ends a record, in any case of its letters. */
  predicate EorAt(text: string, p: nat) {
    p + 5 <= |text| && Upper(text[p..p + 5]) == "<EOR>"
  }

  /** Printed fields, and the end of the record. */
  ghost predicate PrintedAt(text: string, fs: seq<Field>, p: nat) {
    OccursAt(text, PrintedAll(fs, "\n"), p) && EorAt(text, p + |PrintedAll(fs, "\n")|)
  }

  function EorEnd(fs: seq<Field>, p: nat): nat {
    p + |PrintedAll(fs, "\n")| + 4
  }

  lemma {:induction false} FieldsTextAt(text: string, fs: seq<Field>, p: nat)
    requires OccursAt(text, FieldsText(fs), p)
    ensures PrintedAt(text, fs, p) && EorEnd(fs, p) == p + |FieldsText(fs)| - 1
  {
    hide PrintedAll;
    OccursAppend(text, PrintedAll(fs, "\n"), "<EOR>", p);
    assert Upper("<EOR>") == "<EOR>";
  }

  ghost predicate Follows(whole: string, first: string, rest: string) {
    whole == first + rest
  }

  ghost predicate IsField(printed: string, tag: string, value: string) {
    printed == tag + value + "\n"
  }

  lemma {:induction false} FieldParts(text: string, whole: string, printed: string, tag: string, value: string,
                                      rest: string, p: nat)
    requires IsField(printed, tag, value) && Follows(whole, printed, rest) && OccursAt(text, whole, p)
    ensures var q := p + |tag| + |value|;
            && |printed| == |tag| + |value| + 1 && |whole| == |printed| + |rest|
            && q < |text| && text[q] == '\n'
            && OccursAt(text, tag + value, p) && OccursAt(text, tag, p)
            && OccursAt(text, value, p + |tag|) && OccursAt(text, rest, q + 1)
  {
    hide OccursAt;
    OccursAppend(text, printed, rest, p);
    OccursAppend(text, tag + value, "\n", p);
    OccursAppend(text, tag, value, p);
    NewlineThere(text, p + |tag| + |value|);
  }

  /** The parts of the text of the first field; q is the place of its newline. */
  lemma {:induction false} FirstField(text: string, fs: seq<Field>, p: nat) returns (q: nat)
    requires PrintedAt(text, fs, p) && fs != [] && fs[0].name != "" && fs[0].value != ""
    ensures q == TagEnd(fs, p) + 1 + |fs[0].value| && q < |text| && text[q] == '\n'
    ensures p + |Printed(fs[0], "\n")| == q + 1
    ensures OccursAt(text, Tag(fs[0].name, |fs[0].value|) + fs[0].value, p)
    ensures OccursAt(text, Tag(fs[0].name, |fs[0].value|), p)
    ensures OccursAt(text, fs[0].value, TagEnd(fs, p) + 1)
    ensures PrintedAt(text, fs[1..], q + 1)
    ensures EorEnd(fs[1..], q + 1) == EorEnd(fs, p)
  {
    hide Decimal, OccursAt, Tag, Printed, PrintedAll, EorAt, Follows, IsField;
    var f := fs[0];
    PrintedFirst(fs);
    q := TagEnd(fs, p) + 1 + |f.value|;
    FieldParts(text, PrintedAll(fs, "\n"), Printed(f, "\n"), Tag(f.name, |f.value|), f.value,
               PrintedAll(fs[1..], "\n"), p);
  }

  lemma {:induction false} PrintedFirst(fs: seq<Field>)
    requires fs != [] && fs[0].name != "" && fs[0].value != ""
    ensures Follows(PrintedAll(fs, "\n"), Printed(fs[0], "\n"), PrintedAll(fs[1..], "\n"))
    ensures IsField(Printed(fs[0], "\n"), Tag(fs[0].name, |fs[0].value|), fs[0].value)
  {
    hide Tag;
  }

  lemma {:induction false} NewlineThere(text: string, p: nat)
    requires OccursAt(text, "\n", p)
    ensures p < |text| && text[p] == '\n'
  {
    assert text[p] == text[p..p + 1][0];
  }

  /** A printed record begins with '<', and its first tag ends where TagEnd says. */
  lemma {:induction false} FirstTag(text: string, fs: seq<Field>, p: nat)
    requires PrintedAt(text, fs, p) && Writable(fs)
    ensures var gt := TagEnd(fs, p);
            && p + 4 <= gt < |text| && text[p] == '<' && FindChar(text, '<', p) == Some(p)
            && FindChar(text, '>', p) == Some(gt) && FindChar(text, '>', p + 1) == Some(gt)
            && (fs != [] ==> p + 4 < gt)
            && (fs == [] ==> Upper(Substring(text, p, 5)) == "<EOR>")
  {
    hide Decimal, FindChar, OccursAt, Tag, Printed, Substring, EorAt;
    if fs == [] {
      assert PrintedAll(fs, "\n") == "";
      EorThere(text, p);
    } else {
      FirstIsWritable(fs);
      var _ := FirstField(text, fs, p);
      hide PrintedAt, Writable;
      TagEnds(text, fs[0].name, |fs[0].value|, p);
    }
    FindCharIs(text, '<', p, p);
  }

  lemma {:induction false} EorThere(text: string, p: nat)
    requires EorAt(text, p)
    ensures p + 5 <= |text| && Upper(Substring(text, p, 5)) == "<EOR>" && text[p] == '<'
    ensures FindChar(text, '>', p) == Some(p + 4) && FindChar(text, '>', p + 1) == Some(p + 4)
  {
    var tag := text[p..p + 5];
    assert forall i :: 0 <= i < 5 ==> text[p + i] == tag[i] && UpperChar(tag[i]) == Upper(tag)[i] == "<EOR>"[i];
    forall i | p <= i < p + 4 ensures text[i] != '>' {
      assert UpperChar(tag[i - p]) == "<EOR>"[i - p];
    }
    FindCharIs(text, '>', p, p + 4);
    FindCharIs(text, '>', p + 1, p + 4);
  }

  lemma {:induction false} FirstIsWritable(fs: seq<Field>)
    requires Writable(fs) && fs != []
    ensures TagName(fs[0].name) && 0 < |fs[0].value| <= INT_MAX && Writable(fs[1..])
  {
    hide TagName;
    assert fs[0] in fs;
  }

  /** The scan steps over the first tag of a printed record that is not empty. */
  lemma {:induction false} ScanFirstTag(text: string, fs: seq<Field>, p: nat)
    requires PrintedAt(text, fs, p) && Writable(fs)
    ensures EorScan(text, p) == if fs == [] then Found(p + 4) else EorScan(text, TagEnd(fs, p) + 1)
  {
    hide FindChar, Writable, PrintedAt, TagEnd;
    FirstTag(text, fs, p);
    ScanOneTag(text, p, p, TagEnd(fs, p));
    TagEndOfNone(p);
  }

  lemma TagEndOfNone(p: nat)
    ensures TagEnd([], p) == p + 4
  {
  }

  /** How the scan passes the first field: on to the rest; past the end of the record; to an
      end in the value; or never. */
  lemma {:induction false} ScanFirstField(text: string, fs: seq<Field>, p: nat)
    requires PrintedAt(text, fs, p) && Writable(fs) && fs != []
    ensures var q := TagEnd(fs, p) + |fs[0].value| + 2; var walk := WalkValue(fs[0].value, 0);
            && PrintedAt(text, fs[1..], q) && EorEnd(fs[1..], q) == EorEnd(fs, p)
            && q == p + |Printed(fs[0], "\n")|
            && (walk == Closed || (walk == Open && |fs| > 1) ==> EorScan(text, p) == EorScan(text, q))
            && (walk == Open && |fs| == 1 ==> EorScan(text, p) == EorScan(text, EorEnd(fs, p) + 1))
            && (walk.Ended? ==>
                EorScan(text, p) == Found(TagEnd(fs, p) + 1 + walk.gt) && TagEnd(fs, p) + 1 + walk.gt < q)
            && (walk == Stuck ==> EorScan(text, p) == Endless)
  {
    hide FindChar, EorScan, PrintedAt, WalkValue, Decimal, OccursAt, TagName, Tag, Printed, PrintedAll;
    ScanFirstTag(text, fs, p);
    FirstIsWritable(fs);
    FirstIsLong(fs);
    var _ := FirstField(text, fs, p);
    var v := fs[0].value;
    var start := TagEnd(fs, p) + 1;
    var q := start + |v| + 1;
    FirstTag(text, fs[1..], q);
    hide Writable;
    SkipNewline(text, q - 1);
    ScanValue(text, v, start, 0, TagEnd(fs[1..], q));
    ScanFrom(text, q - 1, q);
    ScanFirstTag(text, fs[1..], q);
    AtLeastEor(fs[1..], q);
  }

  lemma {:induction false} FirstIsLong(fs: seq<Field>)
    requires Writable(fs) && fs != []
    ensures fs[0].name != "" && fs[0].value != ""
  {
    assert fs[0] in fs;
  }

  /** Scanning a printed record finds its end exactly when the values do not hide it. */
  lemma {:induction false} EorFound(text: string, fs: seq<Field>, p: nat)
    requires PrintedAt(text, fs, p) && Writable(fs)
    ensures EorScan(text, p) == Found(EorEnd(fs, p)) <==> Scannable(fs)
    decreases |fs|
  {
    hide FindChar, EorScan, PrintedAt, WalkValue, Writable, TagEnd, EorEnd, Printed;
    AtLeastEor(fs, p);
    if fs == [] {
      ScanFirstTag(text, fs, p);
    } else {
      ScanFirstField(text, fs, p);
      FirstIsWritable(fs);
      var q := TagEnd(fs, p) + |fs[0].value| + 2;
      EorFound(text, fs[1..], q);
      AtLeastEor(fs[1..], q);
    }
  }

  /** The first value with a tag of five characters decides: the scan takes the tag for the
      end of the record, or looks at it for ever. */
  lemma {:induction false} HiddenEnd(text: string, fs: seq<Field>, p: nat, k: nat)
    requires PrintedAt(text, fs, p) && Writable(fs) && k < |fs|
    requires forall j :: 0 <= j < k ==> Passes(WalkValue(fs[j].value, 0))
    ensures var walk := WalkValue(fs[k].value, 0);
            && (walk == Stuck ==> EorScan(text, p) == Endless)
            && (walk.Ended? ==>
                EorScan(text, p) == Found(p + |PrintedAll(fs[..k], "\n")| + |Tag(fs[k].name, |fs[k].value|)| + walk.gt))
    decreases k
  {
    hide FindChar, EorScan, PrintedAt, WalkValue, Writable, EorEnd, Printed, Tag;
    ScanFirstField(text, fs, p);
    if k > 0 {
      var q := TagEnd(fs, p) + |fs[0].value| + 2;
      FirstIsWritable(fs);
      HiddenEnd(text, fs[1..], q, k - 1);
      assert fs[..k][1..] == fs[1..][..k - 1];
    }
  }

  lemma SkipNewline(text: string, p: nat)
    requires p < |text| && text[p] == '\n'
    ensures FindChar(text, '>', p) == FindChar(text, '>', p + 1) && FindChar(text, '<', p) == FindChar(text, '<', p + 1)
  {
  }

  lemma AtLeastEor(fs: seq<Field>, p: nat)
    ensures EorEnd(fs, p) >= p + 4
    ensures fs == [] ==> EorEnd(fs, p) == p + 4
  {
  }

  // ----- reading printed records back

  /** The fields of a record when these are added to it one by one; or why they cannot be. */
  ghost function Collect(d: Dictionary, gs: seq<Field>, elements: seq<Field>): Result<seq<Field>> {
    if gs == [] then Ok(elements)
    else match Make(d, gs[0].name, gs[0].value)
      case Err(e) => Err(e)
      case Ok(f) => if Has(elements, f.name) then Err(DuplicateField) else Collect(d, gs[1..], Insert(elements, f))
  }

  ghost function Outcome(r: Result<seq<Field>>, next: Option<nat>): Imported {
    match r
    case Ok(elements) => Imported(elements, next)
    case Err(e) => Failed(e)
  }

  lemma {:induction false} MadeHasName(d: Dictionary, name: string, value: string)
    ensures var r := Make(d, name, value); r.Ok? ==> r.value.name == Upper(name)
    ensures TagName(name) ==> Upper(name) != ""
  {
    hide Verify, Normalise;
  }

  /** One turn of the loop, on the first field of a printed record: where it leaves the reader,
      and what it has done. */
  lemma {:induction false} FirstRead(d: Dictionary, text: string, fs: seq<Field>, p: nat, start: nat,
                                     accept: set<string>)
    requires PrintedAt(text, fs, p) && Writable(fs) && fs != []
    requires start <= p && FindChar(text, '<', start) == Some(p)
    ensures var s := TagEnd(fs, p) + 1 + |fs[0].value|;
            && start < s && PrintedAt(text, fs[1..], s + 1) && EorEnd(fs[1..], s + 1) == EorEnd(fs, p)
            && start <= EorEnd(fs, p) && FindChar(text, '<', s) == Some(s + 1)
            && Import(d, NO_FIELD, text, start, EorEnd(fs, p), accept) ==
               if !Accepts(accept, fs[0].name) then (Next(s), NO_FIELD)
               else match Make(d, fs[0].name, fs[0].value)
                 case Ok(g) => (Next(s), g)
                 case Err(e) => (Thrown(e), NO_FIELD)
  {
    hide FindChar, PrintedAt, Import, OccursAt, Tag, Printed, Accepts, Make, EorEnd, TagName;
    var f := fs[0];
    FirstIsWritable(fs);
    FirstIsLong(fs);
    FirstTag(text, fs, p);
    var s := FirstField(text, fs, p);
    AtLeastEor(fs[1..], s + 1);
    ImportPrinted(d, f, text, start, p, EorEnd(fs, p), accept);
    FirstTag(text, fs[1..], s + 1);
    SkipNewline(text, s);
  }

  lemma {:induction false} ImportFieldsStep(d: Dictionary, text: string, start: nat, end: nat, accept: set<string>,
                                            elements: seq<Field>, next: Option<nat>, p: nat, f: Field)
    requires start <= end && start < p && Import(d, NO_FIELD, text, start, end, accept) == (Next(p), f)
    ensures ImportFields(d, text, start, end, accept, elements, next) ==
            if f.name != "" && Has(elements, f.name) then Failed(DuplicateField)
            else ImportFields(d, text, p, end, accept, if f.name != "" then Insert(elements, f) else elements, next)
  {
    hide Import, Insert, Has;
  }

  lemma {:induction false} ImportFieldsFails(d: Dictionary, text: string, start: nat, end: nat, accept: set<string>,
                                             elements: seq<Field>, next: Option<nat>, e: Error)
    requires start <= end && Import(d, NO_FIELD, text, start, end, accept) == (Thrown(e), NO_FIELD)
    ensures ImportFields(d, text, start, end, accept, elements, next) == Failed(e)
  {
    hide Import, Insert, Has;
  }

  lemma {:induction false} ImportAtEor(d: Dictionary, text: string, start: nat, p: nat, accept: set<string>)
    requires FindChar(text, '<', start) == Some(p) && FindChar(text, '>', p) == Some(p + 4)
    ensures Import(d, NO_FIELD, text, start, p + 4, accept) == (Next(p + 5), NO_FIELD)
  {
    hide FindChar;
  }

  lemma AcceptedStep(fs: seq<Field>, accept: set<string>)
    requires fs != []
    ensures if Accepts(accept, fs[0].name)
            then Accepted(fs, accept) != [] && Accepted(fs, accept)[0] == fs[0] &&
                 Accepted(fs, accept)[1..] == Accepted(fs[1..], accept)
            else Accepted(fs, accept) == Accepted(fs[1..], accept)
  {
  }

  /** Importing from the start of a printed record to its end adds the accepted fields one by
      one, or fails as adding them does. */
  lemma {:induction false} FieldsRead(d: Dictionary, text: string, fs: seq<Field>, p: nat, start: nat,
                                      accept: set<string>, elements: seq<Field>, next: Option<nat>)
    requires PrintedAt(text, fs, p) && Writable(fs)
    requires start <= p && FindChar(text, '<', start) == Some(p)
    ensures ImportFields(d, text, start, EorEnd(fs, p), accept, elements, next) ==
            Outcome(Collect(d, Accepted(fs, accept), elements), next)
    decreases |fs|
  {
    hide FindChar, PrintedAt, Writable, Import, TagEnd, EorEnd, Make, Has, Insert, ImportFields;
    AtLeastEor(fs, p);
    if fs == [] {
      FirstTag(text, fs, p);
      TagEndOfNone(p);
      ImportAtEor(d, text, start, p, accept);
      ImportFieldsStep(d, text, start, p + 4, accept, elements, next, p + 5, NO_FIELD);
      ImportFieldsEnd(d, text, p + 5, p + 4, accept, elements, next);
    } else {
      FirstRead(d, text, fs, p, start, accept);
      FirstIsWritable(fs);
      MadeHasName(d, fs[0].name, fs[0].value);
      AcceptedStep(fs, accept);
      var s := TagEnd(fs, p) + 1 + |fs[0].value|;
      var made := Make(d, fs[0].name, fs[0].value);
      if !Accepts(accept, fs[0].name) {
        ImportFieldsStep(d, text, start, EorEnd(fs, p), accept, elements, next, s, NO_FIELD);
        FieldsRead(d, text, fs[1..], s + 1, s, accept, elements, next);
      } else if made.Err? {
        ImportFieldsFails(d, text, start, EorEnd(fs, p), accept, elements, next, made.error);
      } else {
        ImportFieldsStep(d, text, start, EorEnd(fs, p), accept, elements, next, s, made.value);
        FieldsRead(d, text, fs[1..], s + 1, s, accept, Insert(elements, made.value), next);
      }
    }
  }

  lemma {:induction false} ImportFieldsEnd(d: Dictionary, text: string, start: nat, end: nat, accept: set<string>,
                                           elements: seq<Field>, next: Option<nat>)
    ensures start > end ==> ImportFields(d, text, start, end, accept, elements, next) == Imported(elements, next)
  {
  }

  lemma {:induction false} AcceptedOrdered(fs: seq<Field>, accept: set<string>)
    requires Ordered(fs)
    ensures Ordered(Accepted(fs, accept))
  {
    if fs != [] {
      AcceptedOrdered(fs[1..], accept);
      var rest := Accepted(fs[1..], accept);
      forall j | 0 <= j < |rest| ensures Less(fs[0].name, rest[j].name) {
        assert rest[j] in rest;
        assert rest[j] in fs[1..];
      }
    }
  }

  /** Legal fields in order are added as they are. */
  lemma {:induction false} CollectInOrder(d: Dictionary, gs: seq<Field>, elements: seq<Field>)
    requires AllLegal(d, gs) && Ordered(elements + gs)
    ensures Collect(d, gs, elements) == Ok(elements + gs)
    decreases |gs|
  {
    hide Ordered, Insert, Has, Make;
    if gs == [] {
      assert elements + gs == elements;
    } else {
      assert gs[0] in gs;
      assert elements + gs == (elements + [gs[0]]) + gs[1..];
      OrderedPrefix(elements + [gs[0]], gs[1..]);
      InsertLast(elements, gs[0]);
      CollectInOrder(d, gs[1..], elements + [gs[0]]);
    }
  }

  lemma {:induction false} OrderedPrefix(fs: seq<Field>, gs: seq<Field>)
    requires Ordered(fs + gs)
    ensures Ordered(fs)
  {
    hide Less;
    assert forall i :: 0 <= i < |fs| ==> (fs + gs)[i] == fs[i];
  }

  /** So importing from the start of a printed record to its end adds the accepted fields. */
  lemma {:induction false} FieldsReadBack(d: Dictionary, text: string, fs: seq<Field>, p: nat, start: nat,
                                          accept: set<string>, elements: seq<Field>, next: Option<nat>)
    requires PrintedAt(text, fs, p) && Storable(d, fs)
    requires start <= p && FindChar(text, '<', start) == Some(p)
    requires Ordered(elements + Accepted(fs, accept))
    ensures ImportFields(d, text, start, EorEnd(fs, p), accept, elements, next) ==
            Imported(elements + Accepted(fs, accept), next)
  {
    hide FindChar, PrintedAt, Ordered, EorEnd, Legal, ImportFields, Accepted, Collect;
    StorableIsWritable(d, fs);
    FieldsRead(d, text, fs, p, start, accept, elements, next);
    CollectInOrder(d, Accepted(fs, accept), elements);
  }

  /** Importing a printed record gives its fields and the position after it exactly when no
      value hides the end of the record. */
  lemma {:induction false} RecordReadBack(d: Dictionary, text: string, fs: seq<Field>, p: nat, start: nat,
                                          accept: set<string>)
    requires PrintedAt(text, fs, p) && Storable(d, fs)
    requires start <= p && FindChar(text, '<', start) == Some(p)
    ensures Scannable(fs) ==>
              ImportRecord(d, text, start, accept, []) == Imported(Accepted(fs, accept), After(text, EorEnd(fs, p)))
    ensures !Scannable(fs) && EorEnd(fs, p) + 1 < |text| ==>
              ImportRecord(d, text, start, accept, []) != Imported(Accepted(fs, accept), Some(EorEnd(fs, p) + 1))
  {
    hide FindChar, PrintedAt, EorScan, EorEnd, ImportFields, Accepted, Scannable, Ordered, AllLegal, Writable;
    StorableIsWritable(d, fs);
    FirstTag(text, fs, p);
    EorFound(text, fs, p);
    AcceptedOrdered(fs, accept);
    assert [] + Accepted(fs, accept) == Accepted(fs, accept);
    FieldsReadBack(d, text, fs, p, p, accept, [], After(text, EorEnd(fs, p)));
  }

  ghost predicate GoodDictionary(d: Dictionary) {
    forall name :: name in d.types ==> GoodName(name)
  }

  /** A record as the class holds it; lengths are read back as int. */
  ghost predicate Held(d: Dictionary, es: seq<Field>) {
    Ordered(es) && AllLegal(d, es) && forall f :: f in es ==> |f.value| <= INT_MAX
  }

  lemma {:induction false} HeldIsStorable(d: Dictionary, es: seq<Field>)
    requires GoodDictionary(d) && Held(d, es)
    ensures Storable(d, Exported(es))
  {
    hide Ordered, Verify, Normalise, GoodName;
    ExportedOrdered(es);
    forall f | f in Exported(es) ensures Legal(d, f) && GoodName(f.name) && 0 < |f.value| <= INT_MAX {
      assert Make(d, f.name, f.value) == Ok(f);
      assert Upper(f.name) == f.name;
    }
  }

  lemma {:induction false} LineAt(text: string, whole: string, line: string, p: nat)
    requires Follows(whole, line, "\n") && OccursAt(text, whole, p)
    ensures |whole| == |line| + 1 && p + |line| < |text| && text[p + |line|] == '\n' && OccursAt(text, line, p)
  {
    hide OccursAt;
    OccursAppend(text, line, "\n", p);
    NewlineThere(text, p + |line|);
  }

  lemma {:induction false} RecordTextAt(text: string, es: seq<Field>, p: nat)
    requires OccursAt(text, RecordText(es), p)
    ensures PrintedAt(text, Exported(es), p)
    ensures var eor := EorEnd(Exported(es), p);
            eor + 2 == p + |RecordText(es)| && eor + 1 < |text| && text[eor + 1] == '\n'
  {
    hide OccursAt, PrintedAt, EorEnd;
    RecordTextIs(es);
    hide RecordText, Exported, FieldsText, Follows;
    LineAt(text, RecordText(es), FieldsText(Exported(es)), p);
    FieldsTextAt(text, Exported(es), p);
  }

  /** The round trip of a record: what is printed is read back, up to the newline that ends
      it, exactly when no exported value hides the end of the record. */
  lemma {:induction false} RecordRoundTrip(d: Dictionary, es: seq<Field>, rest: string, accept: set<string>)
    requires GoodDictionary(d) && Held(d, es)
    ensures var text := RecordText(es) + rest;
            (ImportRecord(d, text, 0, accept, []) ==
             Imported(Accepted(Exported(es), accept), Some(|RecordText(es)| - 1))) <==> Scannable(Exported(es))
  {
    hide Held, Storable, RecordText, Exported, PrintedAt, Accepted, Scannable, ImportRecord, EorEnd, Writable, FindChar,
      GoodDictionary;
    var text := RecordText(es) + rest;
    assert text[0..|RecordText(es)|] == RecordText(es);
    HeldIsStorable(d, es);
    RecordTextAt(text, es, 0);
    StorableIsWritable(d, Exported(es));
    FirstTag(text, Exported(es), 0);
    RecordReadBack(d, text, Exported(es), 0, 0, accept);
  }

  /** No value has a five-character tag, and the last one leaves a tag open. */
  predicate LeavesOpen(fs: seq<Field>) {
    fs != [] &&
    (if |fs| == 1 then WalkValue(fs[0].value, 0) == Open
     else Passes(WalkValue(fs[0].value, 0)) && LeavesOpen(fs[1..]))
  }

  /** A last value that leaves a tag open, such as "<", swallows the end of its record: with
      nothing after it the whole record is lost. */
  lemma {:induction false} OpenValueHidesEnd(text: string, fs: seq<Field>, p: nat)
    requires PrintedAt(text, fs, p) && Writable(fs)
    ensures LeavesOpen(fs) ==> EorScan(text, p) == EorScan(text, EorEnd(fs, p) + 1)
    decreases |fs|
  {
    hide FindChar, EorScan, PrintedAt, WalkValue, Writable, TagEnd, EorEnd, Printed;
    if fs != [] {
      ScanFirstField(text, fs, p);
    }
    if |fs| > 1 {
      FirstIsWritable(fs);
      OpenValueHidesEnd(text, fs[1..], TagEnd(fs, p) + |fs[0].value| + 2);
    }
  }

  lemma {:induction false} RecordLost(d: Dictionary, es: seq<Field>, accept: set<string>, elements: seq<Field>)
    requires GoodDictionary(d) && Held(d, es) && LeavesOpen(Exported(es))
    ensures ImportRecord(d, RecordText(es), 0, accept, elements) == Imported(elements, None)
  {
    hide Held, Storable, PrintedAt, EorEnd, LeavesOpen, GoodDictionary, RecordText, Exported, Writable;
    var text := RecordText(es);
    assert text[0..|text|] == text;
    HeldIsStorable(d, es);
    StorableIsWritable(d, Exported(es));
    RecordTextAt(text, es, 0);
    hide OccursAt;
    LostThere(d, text, Exported(es), accept, elements);
  }

  lemma {:induction false} LostThere(d: Dictionary, text: string, fs: seq<Field>, accept: set<string>,
                                     elements: seq<Field>)
    requires PrintedAt(text, fs, 0) && Writable(fs) && LeavesOpen(fs)
    requires forall k :: EorEnd(fs, 0) + 1 <= k < |text| ==> text[k] != '<'
    ensures ImportRecord(d, text, 0, accept, elements) == Imported(elements, None)
  {
    hide Writable, PrintedAt, EorEnd, LeavesOpen, FindChar, EorScan, ImportFields;
    FirstTag(text, fs, 0);
    OpenValueHidesEnd(text, fs, 0);
    NothingFollows(text, EorEnd(fs, 0) + 1);
  }

  lemma NothingFollows(text: string, from: nat)
    requires forall k :: from <= k < |text| ==> text[k] != '<'
    ensures FindChar(text, '<', from) == None && EorScan(text, from) == Missing
  {
  }

  /** A value with a tag of five characters that is not the end of a record, when no earlier
      value has one, keeps the import of its record from ever ending. */
  lemma {:induction false} RecordNeverEnds(d: Dictionary, text: string, fs: seq<Field>, p: nat, start: nat,
                                           accept: set<string>, elements: seq<Field>, k: nat)
    requires PrintedAt(text, fs, p) && Writable(fs) && k < |fs|
    requires start <= p && FindChar(text, '<', start) == Some(p)
    requires WalkValue(fs[k].value, 0) == Stuck && forall j :: 0 <= j < k ==> Passes(WalkValue(fs[j].value, 0))
    ensures ImportRecord(d, text, start, accept, elements) == NeverEnds
  {
    hide FindChar, EorScan, PrintedAt, WalkValue, Writable, ImportFields;
    HiddenEnd(text, fs, p, k);
  }

  /** "<" leaves a tag open; "<ABC>" is a tag of five characters, and so is the end of a record
      in any case of its letters. */
  lemma {:induction false} HidingValues()
    ensures WalkValue("<", 0) == Open && WalkValue("<ABC>", 0) == Stuck && WalkValue("a<b>c", 0) == Closed
    ensures WalkValue("a<eor>", 0) == Ended(5)
  {
    assert FindChar("<ABC>", '>', 1) == Some(4) && FindChar("a<eor>", '>', 2) == Some(5);
    assert "<ABC>"[0..5] == "<ABC>" && Upper("<ABC>")[1] == 'A';
    assert "a<eor>"[1..6] == "<eor>" && Upper("<eor>") == "<EOR>";
  }

  // ----- printed records of any fields

  /** What keeps the i-th of the fields from being added after those before it: that no such
      field can be made, or that a field has that name already. */
  ghost function Obstacle(d: Dictionary, gs: seq<Field>, elements: seq<Field>, i: nat): Option<Error>
    requires i < |gs|
  {
    match Make(d, gs[i].name, gs[i].value)
    case Err(e) => Some(e)
    case Ok(_) =>
      var name := Upper(gs[i].name);
      if Has(elements, name) || exists j :: 0 <= j < i && Upper(gs[j].name) == name then Some(DuplicateField) else None
  }

  ghost predicate NoObstacle(d: Dictionary, gs: seq<Field>, elements: seq<Field>) {
    forall i :: 0 <= i < |gs| ==> Obstacle(d, gs, elements, i).None?
  }

  ghost predicate FirstObstacle(d: Dictionary, gs: seq<Field>, elements: seq<Field>, k: nat, e: Error) {
    k < |gs| && Obstacle(d, gs, elements, k) == Some(e) && forall i :: 0 <= i < k ==> Obstacle(d, gs, elements, i).None?
  }

  /** The elements and the fields that the others make, in the order of their names. */
  ghost predicate AddedTo(d: Dictionary, gs: seq<Field>, elements: seq<Field>, all: seq<Field>) {
    && Ordered(all) && |all| == |elements| + |gs|
    && forall f :: f in all <==> f in elements || exists i :: 0 <= i < |gs| && Make(d, gs[i].name, gs[i].value) == Ok(f)
  }

  lemma {:induction false} ObstacleLater(d: Dictionary, gs: seq<Field>, elements: seq<Field>, i: nat)
    requires i + 1 < |gs| && Make(d, gs[0].name, gs[0].value).Ok?
    requires Ordered(elements) && !Has(elements, Upper(gs[0].name))
    ensures var f := Make(d, gs[0].name, gs[0].value).value;
            Obstacle(d, gs[1..], Insert(elements, f), i) == Obstacle(d, gs, elements, i + 1)
  {
    hide Make, Insert, Ordered, Upper;
    var f := Make(d, gs[0].name, gs[0].value).value;
    MadeHasName(d, gs[0].name, gs[0].value);
    InsertKeepsOrder(elements, f);
    var name := Upper(gs[i + 1].name);
    HasInserted(elements, f, name);
    if j :| 0 <= j < i + 1 && Upper(gs[j].name) == name {
      assert j > 0 ==> Upper(gs[1..][j - 1].name) == name;
    }
    if j :| 0 <= j < i && Upper(gs[1..][j].name) == name {
      assert Upper(gs[j + 1].name) == name;
    }
  }

  lemma {:induction false} HasInserted(elements: seq<Field>, f: Field, name: string)
    requires Ordered(elements) && !Has(elements, f.name)
    ensures Has(Insert(elements, f), name) <==> Has(elements, name) || name == f.name
  {
    hide Insert, Ordered;
    InsertKeepsOrder(elements, f);
    var all := Insert(elements, f);
    if Has(all, name) {
      var i :| 0 <= i < |all| && all[i].name == name;
      assert all[i] in all;
    }
    if i :| 0 <= i < |elements| && elements[i].name == name {
      assert elements[i] in all;
    }
    assert f in all;
  }

  lemma {:induction false} ObstaclesShift(d: Dictionary, gs: seq<Field>, elements: seq<Field>, rest: seq<Field>)
    requires gs != [] && Obstacle(d, gs, elements, 0).None?
    requires forall i :: 0 <= i < |gs| - 1 ==> Obstacle(d, gs[1..], rest, i) == Obstacle(d, gs, elements, i + 1)
    ensures NoObstacle(d, gs[1..], rest) <==> NoObstacle(d, gs, elements)
    ensures forall k: nat, e :: FirstObstacle(d, gs[1..], rest, k, e) ==> FirstObstacle(d, gs, elements, k + 1, e)
  {
    hide Obstacle;
    if NoObstacle(d, gs[1..], rest) {
      forall i | 0 <= i < |gs| ensures Obstacle(d, gs, elements, i).None? {
        if i > 0 { assert Obstacle(d, gs[1..], rest, i - 1).None?; }
      }
    }
    if NoObstacle(d, gs, elements) {
      forall i | 0 <= i < |gs| - 1 ensures Obstacle(d, gs[1..], rest, i).None? {
        assert Obstacle(d, gs, elements, i + 1).None?;
      }
    }
    forall k: nat, e | FirstObstacle(d, gs[1..], rest, k, e) ensures FirstObstacle(d, gs, elements, k + 1, e) {
      forall i | 0 <= i < k + 1 ensures Obstacle(d, gs, elements, i).None? {
        if i > 0 { assert Obstacle(d, gs[1..], rest, i - 1).None?; }
      }
    }
  }

  lemma {:induction false} AddedShift(d: Dictionary, gs: seq<Field>, elements: seq<Field>, f: Field, all: seq<Field>)
    requires gs != [] && Make(d, gs[0].name, gs[0].value) == Ok(f)
    requires Ordered(elements) && !Has(elements, f.name) && AddedTo(d, gs[1..], Insert(elements, f), all)
    ensures AddedTo(d, gs, elements, all)
  {
    hide Make, Insert, Ordered, Has;
    InsertKeepsOrder(elements, f);
    InsertLength(elements, f);
    var rest := gs[1..];
    forall g
      ensures g in all <==> g in elements || exists i :: 0 <= i < |gs| && Make(d, gs[i].name, gs[i].value) == Ok(g)
    {
      if i :| 0 <= i < |gs| && Make(d, gs[i].name, gs[i].value) == Ok(g) {
        assert i > 0 ==> Make(d, rest[i - 1].name, rest[i - 1].value) == Ok(g);
      }
      if i :| 0 <= i < |rest| && Make(d, rest[i].name, rest[i].value) == Ok(g) {
        assert Make(d, gs[i + 1].name, gs[i + 1].value) == Ok(g);
      }
    }
  }

  lemma {:induction false} InsertLength(fs: seq<Field>, f: Field)
    ensures |Insert(fs, f)| == |fs| + 1
  {
    if fs != [] { InsertLength(fs[1..], f); }
  }

  /** Fields are added one by one exactly when none meets an obstacle; or else the first
      obstacle is the error. */
  lemma {:induction false} CollectMeans(d: Dictionary, gs: seq<Field>, elements: seq<Field>)
    requires Ordered(elements)
    ensures var r := Collect(d, gs, elements);
            && (r.Ok? ==> NoObstacle(d, gs, elements) && AddedTo(d, gs, elements, r.value))
            && (r.Err? ==> exists k: nat :: FirstObstacle(d, gs, elements, k, r.error))
    decreases |gs|
  {
    hide Make, Insert, Ordered, Has, NoObstacle, FirstObstacle, AddedTo;
    if gs == [] {
      NothingAdded(d, gs, elements);
    } else {
      var made := Make(d, gs[0].name, gs[0].value);
      MadeHasName(d, gs[0].name, gs[0].value);
      if Obstacle(d, gs, elements, 0).Some? {
        FirstIsFirst(d, gs, elements);
      } else {
        var rest := Insert(elements, made.value);
        InsertKeepsOrder(elements, made.value);
        forall i | 0 <= i < |gs| - 1 ensures Obstacle(d, gs[1..], rest, i) == Obstacle(d, gs, elements, i + 1) {
          ObstacleLater(d, gs, elements, i);
        }
        CollectMeans(d, gs[1..], rest);
        ObstaclesShift(d, gs, elements, rest);
        var r := Collect(d, gs[1..], rest);
        if r.Ok? {
          AddedShift(d, gs, elements, made.value, r.value);
        } else {
          var k: nat :| FirstObstacle(d, gs[1..], rest, k, r.error);
          assert FirstObstacle(d, gs, elements, k + 1, r.error);
        }
      }
    }
  }

  lemma NothingAdded(d: Dictionary, gs: seq<Field>, elements: seq<Field>)
    requires gs == [] && Ordered(elements)
    ensures NoObstacle(d, gs, elements) && AddedTo(d, gs, elements, elements)
  {
  }

  lemma FirstIsFirst(d: Dictionary, gs: seq<Field>, elements: seq<Field>)
    requires gs != [] && Obstacle(d, gs, elements, 0).Some?
    ensures FirstObstacle(d, gs, elements, 0, Obstacle(d, gs, elements, 0).value)
  {
  }

  /** Importing a printed record, of fields in any order and with any values that do not hide
      its end: it ends with the fields that the accepted ones make, added in the order of
      their names, exactly when each can be made and their names are different from each
      other and from those there already; or else in the first error. */
  lemma {:induction false} RecordOutcome(d: Dictionary, text: string, fs: seq<Field>, p: nat, start: nat,
                                         accept: set<string>, elements: seq<Field>)
    requires PrintedAt(text, fs, p) && Writable(fs) && Scannable(fs) && Ordered(elements)
    requires start <= p && FindChar(text, '<', start) == Some(p)
    ensures var gs := Accepted(fs, accept);
            match ImportRecord(d, text, start, accept, elements)
            case Imported(all, next) =>
              NoObstacle(d, gs, elements) && AddedTo(d, gs, elements, all) && next == After(text, EorEnd(fs, p))
            case Failed(e) => exists k: nat :: FirstObstacle(d, gs, elements, k, e)
            case other => false
  {
    hide FindChar, PrintedAt, EorScan, EorEnd, ImportFields, Accepted, Scannable, Ordered, Writable, NoObstacle,
      FirstObstacle, AddedTo, Collect;
    FirstTag(text, fs, p);
    EorFound(text, fs, p);
    FieldsRead(d, text, fs, p, p, accept, elements, After(text, EorEnd(fs, p)));
    CollectMeans(d, Accepted(fs, accept), elements);
  }

  lemma {:induction false} LegalObstacles(d: Dictionary, gs: seq<Field>)
    requires AllLegal(d, gs)
    ensures NoObstacle(d, gs, []) ==> forall i, j :: 0 <= i < j < |gs| ==> gs[i].name != gs[j].name
    ensures forall k: nat, e :: FirstObstacle(d, gs, [], k, e) ==>
                                  k < |gs| && e == DuplicateField && exists i :: 0 <= i < k && gs[i].name == gs[k].name
    ensures forall all :: AddedTo(d, gs, [], all) ==>
                            Ordered(all) && |all| == |gs| && forall f :: f in all <==> f in gs
  {
    hide Make, Ordered;
    forall i | 0 <= i < |gs| ensures Make(d, gs[i].name, gs[i].value) == Ok(gs[i]) && Upper(gs[i].name) == gs[i].name {
      assert gs[i] in gs && Legal(d, gs[i]);
      MadeHasName(d, gs[i].name, gs[i].value);
    }
    if NoObstacle(d, gs, []) {
      forall i, j | 0 <= i < j < |gs| ensures gs[i].name != gs[j].name {
        assert Obstacle(d, gs, [], j).None?;
      }
    }
  }

  /** Of legal fields only two with one name can keep each other out. */
  lemma {:induction false} LegalRecordOutcome(d: Dictionary, text: string, fs: seq<Field>, p: nat, start: nat,
                                              accept: set<string>)
    requires PrintedAt(text, fs, p) && Writable(fs) && Scannable(fs) && AllLegal(d, fs)
    requires start <= p && FindChar(text, '<', start) == Some(p)
    ensures var gs := Accepted(fs, accept);
            match ImportRecord(d, text, start, accept, [])
            case Imported(all, next) =>
              && (forall i, j :: 0 <= i < j < |gs| ==> gs[i].name != gs[j].name)
              && Ordered(all) && |all| == |gs| && (forall f :: f in all <==> f in gs)
              && next == After(text, EorEnd(fs, p))
            case Failed(e) => e == DuplicateField && exists i, j :: 0 <= i < j < |gs| && gs[i].name == gs[j].name
            case other => false
  {
    hide FindChar, PrintedAt, EorEnd, ImportRecord, Scannable, Writable, Legal, NoObstacle, FirstObstacle,
      AddedTo, Obstacle;
    RecordOutcome(d, text, fs, p, start, accept, []);
    LegalObstacles(d, Accepted(fs, accept));
  }

  /** A tag without two or three parts ends the import of its record, which keeps the fields
      before it and is taken to go on up to its end. */
  lemma {:induction false} OtherTagEndsRecord(d: Dictionary, text: string, start: nat, p: nat, end: nat,
                                              accept: set<string>, elements: seq<Field>, next: Option<nat>,
                                              parts: seq<string>)
    requires OccursAt(text, Tagged(parts), p) && PlainParts(parts) && (|parts| < 2 || |parts| > 3)
    requires FindChar(text, '<', start) == Some(p) && start <= end && end != p + |Tagged(parts)| - 1
    ensures ImportFields(d, text, start, end, accept, elements, next) == Imported(elements, next)
  {
    hide FindChar, OccursAt, Tagged, PlainParts, Import, Insert, Has;
    ImportOtherTag(d, NO_FIELD, text, start, p, end, accept, parts);
  }

  /** A text without one of the angle brackets has no record, and adds nothing. */
  lemma {:induction false} NoRecord(d: Dictionary, text: string, posn: nat, accept: set<string>, elements: seq<Field>)
    requires (forall i :: posn <= i < |text| ==> text[i] != '<') || (forall i :: posn <= i < |text| ==> text[i] != '>')
    ensures ImportRecord(d, text, posn, accept, elements) == Imported(elements, None)
  {
    hide ImportFields;
  }

  // ----- files

  function SkipHeader(text: string): Option<nat> {
    match Find(Upper(text), EOH, 0)
    case None => Some(0)
    case Some(p) => FindChar(text, '<', p + 1)
  }

  /** The records of a file, or what stopped the reading. */
  datatype FileResult = Records(records: seq<seq<Field>>) | Stopped(why: Imported)

  function Prepend(done: seq<seq<Field>>, r: FileResult): FileResult {
    match r
    case Records(rs) => Records(done + rs)
    case Stopped(_) => r
  }

  function Pushed(es: seq<Field>, next: Option<nat>): seq<seq<Field>> {
    if es != [] && next.Some? then [es] else []
  }

  function ReadRecords(d: Dictionary, text: string, start: Option<nat>, accept: set<string>): FileResult
    decreases if start.None? then 0 else if start.value < |text| then |text| - start.value + 1 else 1
  {
    match start
    case None => Records([])
    case Some(s) =>
      match ImportRecord(d, text, s, accept, [])
      case Imported(es, next) => Prepend(Pushed(es, next), ReadRecords(d, text, next, accept))
      case other => Stopped(other)
  }

  method ReadFile(d: Dictionary, contents: string, accept: set<string>) returns (r: FileResult)
    ensures r == ReadRecords(d, contents, SkipHeader(contents), accept)
  {
    hide ImportRecord, SkipHeader, Find, FindChar;
    var records := [];
    var start := SkipHeader(contents);
    while start.Some?
      invariant ReadRecords(d, contents, SkipHeader(contents), accept) ==
                Prepend(records, ReadRecords(d, contents, start, accept))
      decreases if start.None? then 0 else if start.value < |contents| then |contents| - start.value + 1 else 1
    {
      var rec := new AdifRecord();
      var imported := rec.ImportAndEat(d, contents, start.value, accept);
      if !imported.Imported? {
        return Stopped(imported);
      }
      PrependTwice(records, Pushed(imported.elements, imported.next), ReadRecords(d, contents, imported.next, accept));
      if rec.elements != [] && imported.next.Some? {
        records := records + [rec.elements];
      }
      start := imported.next;
    }
    r := Records(records);
  }

  lemma {:induction false} PrependTwice(a: seq<seq<Field>>, b: seq<seq<Field>>, r: FileResult)
    ensures Prepend(a, Prepend(b, r)) == Prepend(a + b, r)
    ensures a + [] == a
  {
    if r.Records? { assert a + (b + r.records) == (a + b) + r.records; }
  }

  function FileText(rs: seq<seq<Field>>): string {
    if rs == [] then "" else RecordText(rs[0]) + FileText(rs[1..])
  }

  /** The records that are left when only some fields are accepted, without the empty ones. */
  function Kept(rs: seq<seq<Field>>, accept: set<string>): seq<seq<Field>> {
    if rs == [] then []
    else
      var es := Accepted(Exported(rs[0]), accept);
      (if es != [] then [es] else []) + Kept(rs[1..], accept)
  }

  ghost predicate AllHeld(d: Dictionary, rs: seq<seq<Field>>) {
    forall i :: 0 <= i < |rs| ==> Held(d, rs[i])
  }

  predicate AllScannable(rs: seq<seq<Field>>) {
    rs == [] || (Scannable(Exported(rs[0])) && AllScannable(rs[1..]))
  }

  /** What each import from the file comes to, up to the one that comes to no position. */
  function Imports(d: Dictionary, text: string, start: Option<nat>, accept: set<string>): seq<Imported>
    decreases if start.None? then 0 else if start.value < |text| then |text| - start.value + 1 else 1
  {
    match start
    case None => []
    case Some(s) =>
      var r := ImportRecord(d, text, s, accept, []);
      [r] + if r.Imported? then Imports(d, text, r.next, accept) else []
  }

  /** What they should come to: each printed record, up to the newline that ends it, and then
      nothing more. */
  function Expected(rs: seq<seq<Field>>, p: nat, accept: set<string>): seq<Imported> {
    if rs == [] then [Imported([], None)]
    else
      var q := p + |RecordText(rs[0])| - 1;
      [Imported(Accepted(Exported(rs[0]), accept), Some(q))] + Expected(rs[1..], q + 1, accept)
  }

  ghost predicate FileAt(text: string, rs: seq<seq<Field>>, p: nat) {
    OccursAt(text, FileText(rs), p) && p + |FileText(rs)| == |text|
  }

  lemma {:induction false} FirstRecord(text: string, rs: seq<seq<Field>>, p: nat)
    requires FileAt(text, rs, p) && rs != []
    ensures OccursAt(text, RecordText(rs[0]), p) && FileAt(text, rs[1..], p + |RecordText(rs[0])|)
  {
    hide OccursAt, RecordText;
    OccursAppend(text, RecordText(rs[0]), FileText(rs[1..]), p);
  }

  /** The first '<' of the text of the records is where it starts. */
  lemma {:induction false} FileStarts(d: Dictionary, text: string, rs: seq<seq<Field>>, p: nat)
    requires GoodDictionary(d) && AllHeld(d, rs) && FileAt(text, rs, p)
    ensures FindChar(text, '<', p) == if rs == [] then None else Some(p)
  {
    hide FindChar, Held, RecordText, Exported, OccursAt, GoodDictionary, Scannable, PrintedAt, EorEnd, Storable,
      Writable;
    if rs == [] {
      NothingFollows(text, p);
    } else {
      FirstRecord(text, rs, p);
      RecordTextAt(text, rs[0], p);
      HeldIsStorable(d, rs[0]);
      StorableIsWritable(d, Exported(rs[0]));
      FirstTag(text, Exported(rs[0]), p);
    }
  }

  /** Importing the first record of a file gives it and leaves the reader before the newline
      that ends it, exactly when its values do not hide its end. */
  lemma {:induction false} FirstRecordBack(d: Dictionary, text: string, rs: seq<seq<Field>>, p: nat, start: nat,
                                           accept: set<string>) returns (q: nat)
    requires GoodDictionary(d) && AllHeld(d, rs) && FileAt(text, rs, p) && rs != []
    requires start <= p && FindChar(text, '<', start) == Some(p)
    ensures q == p + |RecordText(rs[0])| - 1
    ensures ImportRecord(d, text, start, accept, []) == Imported(Accepted(Exported(rs[0]), accept), Some(q)) <==>
            Scannable(Exported(rs[0]))
    ensures start < q < |text| && FileAt(text, rs[1..], q + 1)
    ensures FindChar(text, '<', q) == if rs[1..] == [] then None else Some(q + 1)
  {
    hide FindChar, Held, RecordText, Exported, OccursAt, Scannable, PrintedAt, Storable, EorScan,
      GoodDictionary, Accepted, EorEnd, ImportRecord;
    var fs := Exported(rs[0]);
    FirstRecord(text, rs, p);
    RecordTextAt(text, rs[0], p);
    HeldIsStorable(d, rs[0]);
    RecordReadBack(d, text, fs, p, start, accept);
    q := EorEnd(fs, p) + 1;
    SkipNewline(text, q);
    FileStarts(d, text, rs[1..], q + 1);
  }

  lemma {:induction false} ReadStep(d: Dictionary, text: string, start: nat, accept: set<string>,
                                    es: seq<Field>, q: nat)
    requires ImportRecord(d, text, start, accept, []) == Imported(es, Some(q))
    ensures ReadRecords(d, text, Some(start), accept) ==
            Prepend(if es == [] then [] else [es], ReadRecords(d, text, Some(q), accept))
  {
    hide ImportRecord;
  }

  lemma {:induction false} ReadNothing(d: Dictionary, text: string, start: nat, accept: set<string>)
    requires FindChar(text, '<', start) == None
    ensures ReadRecords(d, text, Some(start), accept) == Records([])
    ensures Imports(d, text, Some(start), accept) == [Imported([], None)]
  {
    hide FindChar;
  }

  lemma {:induction false} ImportsStep(d: Dictionary, text: string, start: nat, accept: set<string>)
    ensures var r := ImportRecord(d, text, start, accept, []);
            Imports(d, text, Some(start), accept) ==
            [r] + if r.Imported? then Imports(d, text, r.next, accept) else []
  {
    hide ImportRecord;
  }

  /** The records read are those that the imports come to. */
  function Collected(imports: seq<Imported>): FileResult {
    if imports == [] then Records([])
    else match imports[0]
      case Imported(es, next) => Prepend(Pushed(es, next), Collected(imports[1..]))
      case other => Stopped(other)
  }

  lemma {:induction false} ReadIsCollected(d: Dictionary, text: string, start: Option<nat>, accept: set<string>)
    ensures ReadRecords(d, text, start, accept) == Collected(Imports(d, text, start, accept))
    decreases if start.None? then 0 else if start.value < |text| then |text| - start.value + 1 else 1
  {
    hide ImportRecord, Pushed;
    if start.Some? {
      var r := ImportRecord(d, text, start.value, accept, []);
      ImportsStep(d, text, start.value, accept);
      if r.Imported? {
        ReadIsCollected(d, text, r.next, accept);
        assert Imports(d, text, start, accept)[1..] == Imports(d, text, r.next, accept);
      }
    }
  }

  /** Every record of a file is read, in order and each up to its own end, exactly when no
      record has values that hide its end; and then the records read are those printed. */
  lemma {:induction false} FileReadBack(d: Dictionary, text: string, rs: seq<seq<Field>>, p: nat, start: nat,
                                        accept: set<string>)
    requires GoodDictionary(d) && AllHeld(d, rs) && FileAt(text, rs, p)
    requires start <= p && FindChar(text, '<', start) == if rs == [] then None else Some(p)
    ensures Imports(d, text, Some(start), accept) == Expected(rs, p, accept) <==> AllScannable(rs)
    ensures AllScannable(rs) ==> ReadRecords(d, text, Some(start), accept) == Records(Kept(rs, accept))
    decreases |rs|
  {
    hide FindChar, Held, Exported, Scannable, FileAt, GoodDictionary, Accepted, ImportRecord, ReadRecords, Imports,
      RecordText, FileText;
    if rs == [] {
      ReadNothing(d, text, start, accept);
    } else {
      var q := FirstRecordBack(d, text, rs, p, start, accept);
      ImportsStep(d, text, start, accept);
      FileReadBack(d, text, rs[1..], q + 1, q, accept);
      if Scannable(Exported(rs[0])) {
        ReadStep(d, text, start, accept, Accepted(Exported(rs[0]), accept), q);
        SameRest(Imported(Accepted(Exported(rs[0]), accept), Some(q)),
                 Imports(d, text, Some(q), accept), Expected(rs[1..], q + 1, accept));
      } else {
        assert Imports(d, text, Some(start), accept)[0] != Expected(rs, p, accept)[0];
      }
    }
  }

  lemma {:induction false} SameRest<T>(x: T, v: seq<T>, w: seq<T>)
    ensures [x] + v == [x] + w <==> v == w
  {
    assert ([x] + v)[1..] == v && ([x] + w)[1..] == w;
  }

  /** The round trip of a file: a header that ends in <EOH>, in any case of its letters, and
      then the printed records. */
  lemma {:induction false} FileRoundTrip(d: Dictionary, header: string, eoh: string, gap: string,
                                         rs: seq<seq<Field>>, accept: set<string>)
    requires GoodDictionary(d) && AllHeld(d, rs)
    requires Upper(eoh) == "<EOH>" && '<' !in gap
    requires !Contains(Upper(header), "<EOH>")
    ensures var contents := header + eoh + gap + FileText(rs);
            && (rs != [] ==>
                (Imports(d, contents, SkipHeader(contents), accept) == Expected(rs, |header| + 5 + |gap|, accept) <==>
                 AllScannable(rs)))
            && (AllScannable(rs) ==>
                ReadRecords(d, contents, SkipHeader(contents), accept) == Records(Kept(rs, accept)))
  {
    hide Held, RecordText, Exported, Scannable, GoodDictionary, ImportRecord, Kept, FindChar, FileText,
      OccursAt, Contains, Upper, SkipHeader, ReadRecords, Imports, Expected, AllScannable, AllHeld;
    var body := FileText(rs);
    var contents := header + eoh + gap + body;
    var p := |header| + 5 + |gap|;
    HeaderSkipped(header, eoh, gap, body);
    EndsWith(contents, header + eoh + gap, body);
    FileStarts(d, contents, rs, p);
    if rs != [] {
      FileReadBack(d, contents, rs, p, p, accept);
    } else {
      NothingKept(d, contents, accept);
    }
  }

  lemma EndsWith(text: string, front: string, back: string)
    requires text == front + back
    ensures OccursAt(text, back, |front|) && |front| + |back| == |text|
  {
  }

  lemma {:induction false} HeaderSkipped(header: string, eoh: string, gap: string, body: string)
    requires Upper(eoh) == EOH && '<' !in gap && !Contains(Upper(header), EOH)
    ensures var contents := header + eoh + gap + body;
            SkipHeader(contents) == FindChar(contents, '<', |header| + 5 + |gap|)
  {
    hide Find, FindChar, Upper, OccursAt, Contains;
    var contents := header + eoh + gap + body;
    var front, middle := header + [eoh[0]], eoh[1..] + gap;
    SameLetters(eoh);
    HeaderFound(header, eoh, gap + body);
    assert contents == header + eoh + (gap + body);
    assert contents == front + middle + body by { assert eoh == [eoh[0]] + eoh[1..]; }
    SkipMiddle(front, middle, body);
  }

  lemma {:induction false} SameLetters(eoh: string)
    requires Upper(eoh) == EOH
    ensures |eoh| == 5 && '<' !in eoh[1..]
  {
    forall k | 1 <= k < 5 ensures eoh[k] != '<' { assert Upper(eoh)[k] == EOH[k]; }
  }

  lemma {:induction false} SkipMiddle(front: string, middle: string, back: string)
    requires '<' !in middle
    ensures FindChar(front + middle + back, '<', |front|) == FindChar(front + middle + back, '<', |front| + |middle|)
  {
    var text := front + middle + back;
    assert forall k :: |front| <= k < |front| + |middle| ==> text[k] == middle[k - |front|];
    SkipOver(text, '<', |front|, |front| + |middle|);
  }

  /** The same of the records alone, when they do not look like the end of a header. */
  lemma {:induction false} HeaderlessRoundTrip(d: Dictionary, rs: seq<seq<Field>>, accept: set<string>)
    requires GoodDictionary(d) && AllHeld(d, rs) && !Contains(Upper(FileText(rs)), "<EOH>")
    ensures var contents := FileText(rs);
            && (Imports(d, contents, SkipHeader(contents), accept) == Expected(rs, 0, accept) <==> AllScannable(rs))
            && (AllScannable(rs) ==>
                ReadRecords(d, contents, SkipHeader(contents), accept) == Records(Kept(rs, accept)))
  {
    hide Held, RecordText, Exported, Scannable, GoodDictionary, ImportRecord, Kept, FindChar, FileText,
      OccursAt, Upper, ReadRecords, Imports, Expected, AllScannable, AllHeld;
    var text := FileText(rs);
    FindContains(Upper(text), EOH);
    assert SkipHeader(text) == Some(0);
    assert text == "" + text;
    EndsWith(text, "", text);
    FileStarts(d, text, rs, 0);
    FileReadBack(d, text, rs, 0, 0, accept);
  }

  lemma NothingKept(d: Dictionary, text: string, accept: set<string>)
    ensures ReadRecords(d, text, None, accept) == Records(Kept([], accept))
  {
  }

  lemma {:induction false} HeaderFound(header: string, eoh: string, rest: string)
    requires Upper(eoh) == EOH && !Contains(Upper(header), EOH)
    ensures Find(Upper(header + eoh + rest), EOH, 0) == Some(|header|)
  {
    hide Find;
    var text := Upper(header + eoh + rest);
    assert text == Upper(header) + EOH + Upper(rest);
    forall j | 0 <= j < |header| ensures !OccursAt(text, EOH, j) {
      assert !OccursAt(Upper(header), EOH, j);
      NotEarlier(Upper(header), Upper(rest), j);
    }
    assert text[|header|..|header| + 5] == EOH;
    FindIs(text, EOH, 0, |header|);
  }

  lemma {:induction false} NotEarlier(header: string, rest: string, j: nat)
    requires j < |header| && !OccursAt(header, EOH, j)
    ensures !OccursAt(header + EOH + rest, EOH, j)
  {
    var text := header + EOH + rest;
    if j + 5 <= |header| {
      assert text[j..j + 5] == header[j..j + 5];
    } else {
      assert text[|header|] == '<' && EOH[|header| - j] != '<';
      assert text[j..j + 5][|header| - j] == '<';
    }
  }

  // ----- files of printed records of any fields

  /** From start on there are these printed records, each with some character after it, and
      no '<' between them. */
  ghost predicate RecordsFrom(text: string, rs: seq<seq<Field>>, start: nat) {
    match FindChar(text, '<', start)
    case None => rs == []
    case Some(p) =>
      && rs != [] && PrintedAt(text, rs[0], p) && EorEnd(rs[0], p) + 1 < |text|
      && RecordsFrom(text, rs[1..], EorEnd(rs[0], p) + 1)
  }

  function NonEmpty(all: seq<seq<Field>>): seq<seq<Field>> {
    if all == [] then [] else (if all[0] == [] then [] else [all[0]]) + NonEmpty(all[1..])
  }

  /** The accepted fields of each record can be added, and this is what they come to. */
  ghost predicate AllAdded(d: Dictionary, rs: seq<seq<Field>>, accept: set<string>, all: seq<seq<Field>>) {
    |all| == |rs| &&
    forall i :: 0 <= i < |rs| ==>
                  NoObstacle(d, Accepted(rs[i], accept), []) && AddedTo(d, Accepted(rs[i], accept), [], all[i])
  }

  /** The k-th record is the first with an obstacle, at its i-th accepted field. */
  ghost predicate FailsAt(d: Dictionary, rs: seq<seq<Field>>, accept: set<string>, k: nat, i: nat, e: Error) {
    && k < |rs| && (forall j :: 0 <= j < k ==> NoObstacle(d, Accepted(rs[j], accept), []))
    && FirstObstacle(d, Accepted(rs[k], accept), [], i, e)
  }

  lemma {:induction false} AllAddedStep(d: Dictionary, rs: seq<seq<Field>>, accept: set<string>,
                                        first: seq<Field>, all: seq<seq<Field>>)
    requires rs != [] && AllAdded(d, rs[1..], accept, all)
    requires NoObstacle(d, Accepted(rs[0], accept), []) && AddedTo(d, Accepted(rs[0], accept), [], first)
    ensures AllAdded(d, rs, accept, [first] + all)
    ensures NonEmpty([first] + all) == (if first == [] then [] else [first]) + NonEmpty(all)
  {
    hide NoObstacle, AddedTo, Accepted;
    assert ([first] + all)[1..] == all;
    forall i | 0 <= i < |rs|
      ensures NoObstacle(d, Accepted(rs[i], accept), []) && AddedTo(d, Accepted(rs[i], accept), [], ([first] + all)[i])
    {
      if i > 0 { assert rs[1..][i - 1] == rs[i]; }
    }
  }

  lemma {:induction false} FailsLater(d: Dictionary, rs: seq<seq<Field>>, accept: set<string>, k: nat, i: nat, e: Error)
    requires rs != [] && NoObstacle(d, Accepted(rs[0], accept), []) && FailsAt(d, rs[1..], accept, k, i, e)
    ensures FailsAt(d, rs, accept, k + 1, i, e)
  {
    hide NoObstacle, FirstObstacle, Accepted;
    forall j | 0 <= j < k + 1 ensures NoObstacle(d, Accepted(rs[j], accept), []) {
      if j > 0 { assert rs[1..][j - 1] == rs[j]; }
    }
  }

  lemma {:induction false} ReadFails(d: Dictionary, text: string, start: nat, accept: set<string>, e: Error)
    requires ImportRecord(d, text, start, accept, []) == Failed(e)
    ensures ReadRecords(d, text, Some(start), accept) == Stopped(Failed(e))
  {
    hide ImportRecord;
  }

  /** Reading a file of printed records, of fields in any order and with any values that hide
      no end, gives what each record comes to, without the empty ones, exactly when no record
      has an obstacle; or else it stops with the first error of the first record that has. */
  lemma {:induction false} FileOutcome(d: Dictionary, text: string, rs: seq<seq<Field>>, start: nat,
                                       accept: set<string>)
    requires RecordsFrom(text, rs, start) && forall i :: 0 <= i < |rs| ==> Writable(rs[i]) && Scannable(rs[i])
    ensures match ReadRecords(d, text, Some(start), accept)
            case Records(records) => exists all :: AllAdded(d, rs, accept, all) && records == NonEmpty(all)
            case Stopped(why) => why.Failed? && exists k: nat, i: nat :: FailsAt(d, rs, accept, k, i, why.error)
    decreases |rs|
  {
    hide FindChar, PrintedAt, Writable, Scannable, EorEnd, ImportRecord, ReadRecords, NoObstacle, AddedTo,
      FirstObstacle, Accepted, AllAdded, FailsAt, NonEmpty;
    if rs == [] {
      ReadNothing(d, text, start, accept);
      NoneAdded(d, accept);
    } else {
      var p := FindChar(text, '<', start).value;
      FromThere(text, start);
      RecordOutcome(d, text, rs[0], p, start, accept, []);
      var r := ImportRecord(d, text, start, accept, []);
      if r.Failed? {
        ReadFails(d, text, start, accept, r.error);
        var i: nat :| FirstObstacle(d, Accepted(rs[0], accept), [], i, r.error);
        FailsFirst(d, rs, accept, i, r.error);
      } else {
        var q := EorEnd(rs[0], p) + 1;
        ReadStep(d, text, start, accept, r.elements, q);
        FileOutcome(d, text, rs[1..], q, accept);
        var rest := ReadRecords(d, text, Some(q), accept);
        if rest.Records? {
          var all :| AllAdded(d, rs[1..], accept, all) && rest.records == NonEmpty(all);
          AllAddedStep(d, rs, accept, r.elements, all);
        } else {
          var k: nat, i: nat :| FailsAt(d, rs[1..], accept, k, i, rest.why.error);
          FailsLater(d, rs, accept, k, i, rest.why.error);
        }
      }
    }
  }

  lemma NoneAdded(d: Dictionary, accept: set<string>)
    ensures AllAdded(d, [], accept, []) && NonEmpty([]) == []
  {
  }

  lemma FailsFirst(d: Dictionary, rs: seq<seq<Field>>, accept: set<string>, i: nat, e: Error)
    requires rs != [] && FirstObstacle(d, Accepted(rs[0], accept), [], i, e)
    ensures FailsAt(d, rs, accept, 0, i, e)
  {
  }

  lemma FromThere(text: string, start: nat)
    ensures var r := FindChar(text, '<', start); r.Some? ==> start <= r.value
    ensures Ordered([])
  {
  }

  /** A last record that no character follows is read and then dropped. */
  lemma {:induction false} UnterminatedRecordLost(d: Dictionary, text: string, fs: seq<Field>, p: nat, start: nat,
                                                  accept: set<string>)
    requires PrintedAt(text, fs, p) && Storable(d, fs) && Scannable(fs) && EorEnd(fs, p) + 1 == |text|
    requires start <= p && FindChar(text, '<', start) == Some(p)
    ensures ImportRecord(d, text, start, accept, []) == Imported(Accepted(fs, accept), None)
    ensures ReadRecords(d, text, Some(start), accept) == Records([])
  {
    hide FindChar, PrintedAt, Storable, Scannable, EorScan, ImportFields, Accepted;
    RecordReadBack(d, text, fs, p, start, accept);
    hide ImportRecord;
    assert ReadRecords(d, text, None, accept) == Records([]);
  }
}
