/** from_csv and duplicate_char: a field is read back whatever it contains. */
module Csv {
  import opened Text
  import opened Splitting
  import opened Delimited

  const QUOTE := '"'
  const COMMA := ','

  /** What reading a line comes to. Endless: a character outside quotation marks that is
      neither a quotation mark nor a comma is looked at for ever. */
  datatype Reading = Read(fields: seq<string>) | Endless

  function Prepend(done: seq<string>, r: Reading): Reading {
    match r
    case Read(fields) => Read(done + fields)
    case Endless => Endless
  }

  /** What from_csv still reads when it stands at posn with this state. */
  function Fields(line: string, posn: nat, value: string, inside: bool): Reading
    decreases |line| - posn
  {
    if posn >= |line| then Read([])
    else if line[posn] == QUOTE then
      if inside then
        if posn + 1 < |line| && line[posn + 1] == QUOTE then Fields(line, posn + 2, value + [QUOTE], true)
        else Prepend([value], Fields(line, posn + 1, value, false))
      else Fields(line, posn + 1, "", true)
    else if inside then Fields(line, posn + 1, value + [line[posn]], true)
    else if line[posn] == COMMA then
      if posn + 1 < |line| && line[posn + 1] != COMMA then Fields(line, posn + 1, value, false)
      else Prepend([""], Fields(line, posn + 1, value, false))
    else Endless
  }

  method FromCsv(line: string) returns (r: Reading)
    ensures r == Fields(line, 0, "", false)
  {
    hide *;
    var rv: seq<string> := [];
    var posn := 0;
    var thisValue := "";
    var insideValue := false;
    ghost var all := Fields(line, 0, "", false);
    PrependNothing(all);
    while posn < |line|
      invariant all == Prepend(rv, Fields(line, posn, thisValue, insideValue))
      decreases |line| - posn
    {
      var thisChar := line[posn];
      FieldsStep(line, posn, thisValue, insideValue);
      PrependTwice(rv, thisValue, Fields(line, posn + 1, thisValue, false));
      PrependTwice(rv, "", Fields(line, posn + 1, thisValue, false));
      if thisChar == QUOTE {
        if insideValue {
          if posn < |line| - 1 {
            var nextChar := line[posn + 1];
            if nextChar == QUOTE {
              posn := posn + 2;
              thisValue := thisValue + [QUOTE];
            } else {
              rv := rv + [thisValue];
              insideValue := false;
              posn := posn + 1;
            }
          } else {
            rv := rv + [thisValue];
            insideValue := false;
            posn := posn + 1;
          }
        } else {
          thisValue := "";
          insideValue := true;
          posn := posn + 1;
        }
      } else if insideValue {
        thisValue := thisValue + [thisChar];
        posn := posn + 1;
      } else if thisChar == COMMA {
        if posn < |line| - 1 {
          var nextChar := line[posn + 1];
          if nextChar == COMMA {
            rv := rv + [""];
            posn := posn + 1;
          } else {
            posn := posn + 1;
          }
        } else {
          rv := rv + [""];
          posn := posn + 1;
        }
      } else {
        // nothing changes, so the loop never ends
        PrependEndless(rv);
        return Endless;
      }
    }
    NoFieldsLeft(line, posn, thisValue, insideValue);
    PrependAll(rv);
    r := Read(rv);
  }

  lemma PrependNothing(r: Reading)
    ensures Prepend([], r) == r
  {
  }

  lemma PrependAll(done: seq<string>)
    ensures Prepend(done, Read([])) == Read(done)
  {
  }

  lemma PrependEndless(done: seq<string>)
    ensures Prepend(done, Endless) == Endless
  {
  }

  lemma {:induction false} PrependTwice(done: seq<string>, x: string, r: Reading)
    ensures Prepend(done, Prepend([x], r)) == Prepend(done + [x], r)
  {
    if r.Read? { assert done + ([x] + r.fields) == done + [x] + r.fields; }
  }

  /** What one turn of the loop does with what is still to be read. */
  lemma FieldsStep(line: string, posn: nat, value: string, inside: bool)
    requires posn < |line|
    ensures var c := line[posn]; var last := posn + 1 >= |line|; var all := Fields(line, posn, value, inside);
            if c == QUOTE && inside then
              if !last && line[posn + 1] == QUOTE then all == Fields(line, posn + 2, value + [QUOTE], true)
              else all == Prepend([value], Fields(line, posn + 1, value, false))
            else if c == QUOTE then all == Fields(line, posn + 1, "", true)
            else if inside then all == Fields(line, posn + 1, value + [c], true)
            else if c == COMMA then
              if last || line[posn + 1] == COMMA then all == Prepend([""], Fields(line, posn + 1, value, false))
              else all == Fields(line, posn + 1, value, false)
            else all == Endless
  {
  }

  lemma NoFieldsLeft(line: string, posn: nat, value: string, inside: bool)
    requires posn >= |line|
    ensures Fields(line, posn, value, inside) == Read([])
  {
  }

  // ----- which lines are read to their end

  /** An even number of quotation marks stands before i. */
  predicate Outside(line: string, i: nat)
    requires i <= |line|
  {
    multiset(line[..i])['"'] % 2 == 0
  }

  /** Outside quotation marks there is nothing but commas, from position from on. */
  predicate OnlyCommasOutside(line: string, from: nat) {
    forall i :: from <= i < |line| && line[i] != '"' && line[i] != ',' ==> !Outside(line, i)
  }

  lemma {:induction false} OutsideStep(line: string, i: nat)
    requires i < |line|
    ensures Outside(line, i + 1) <==> (if line[i] == QUOTE then !Outside(line, i) else Outside(line, i))
    ensures OnlyCommasOutside(line, i) <==>
            OnlyCommasOutside(line, i + 1) && (line[i] == QUOTE || line[i] == COMMA || !Outside(line, i))
  {
    assert line[..i + 1] == line[..i] + [line[i]];
  }

  lemma {:induction false} ReadsToEndFrom(line: string, posn: nat, value: string, inside: bool)
    requires posn <= |line| && inside == !Outside(line, posn)
    ensures Fields(line, posn, value, inside).Read? <==> OnlyCommasOutside(line, posn)
    decreases |line| - posn
  {
    hide Outside, OnlyCommasOutside, Fields;
    if posn == |line| {
      NoFieldsLeft(line, posn, value, inside);
      NothingOutside(line);
    } else {
      var c := line[posn];
      FieldsStep(line, posn, value, inside);
      OutsideStep(line, posn);
      if c == QUOTE && inside {
        if posn + 1 < |line| && line[posn + 1] == QUOTE {
          OutsideStep(line, posn + 1);
          ReadsToEndFrom(line, posn + 2, value + [QUOTE], true);
        } else {
          ReadsToEndFrom(line, posn + 1, value, false);
        }
      } else if c == QUOTE {
        ReadsToEndFrom(line, posn + 1, "", true);
      } else if inside {
        ReadsToEndFrom(line, posn + 1, value + [c], true);
      } else {
        ReadsToEndFrom(line, posn + 1, value, false);
      }
    }
  }

  lemma NothingOutside(line: string)
    ensures OnlyCommasOutside(line, |line|)
  {
  }

  /** The reader ends exactly when every character outside quotation marks, other than a
      quotation mark, is a comma. */
  lemma {:induction false} ReadsToEnd(line: string)
    ensures Fields(line, 0, "", false).Read? <==> OnlyCommasOutside(line, 0)
  {
    assert line[..0] == [];
    ReadsToEndFrom(line, 0, "", false);
  }

  /** Unquoted fields, a space after a quoted one, and the carriage return of a line all
      keep the reader for ever. */
  lemma NeverRead()
    ensures Fields("1,2", 0, "", false) == Endless
    ensures Fields("\"a\" ,\"b\"", 0, "", false) == Endless
    ensures Fields("\"a\"\r", 0, "", false) == Endless
  {
  }

  /** s with every c doubled. */
  function Doubled(s: string, c: char): string {
    if s == "" then "" else (if s[0] == c then [c, c] else [s[0]]) + Doubled(s[1..], c)
  }

  lemma {:induction false} DoubledStep(s: string, c: char, from: nat, p: nat)
    requires from <= p < |s| && s[p] == c && (forall i :: from <= i < p ==> s[i] != c)
    ensures Doubled(s[from..], c) == s[from..p + 1] + [c] + Doubled(s[p + 1..], c)
    decreases p - from
  {
    assert s[from..][1..] == s[from + 1..];
    if from < p {
      DoubledStep(s, c, from + 1, p);
      assert s[from..p + 1] == [s[from]] + s[from + 1..p + 1];
    } else {
      assert s[from..p + 1] == [c];
    }
  }

  lemma {:induction false} DoubledNothing(s: string, c: char)
    requires c !in s
    ensures Doubled(s, c) == s
  {
    if s != "" { DoubledNothing(s[1..], c); }
  }

  method DuplicateChar(s: string, c: char) returns (rv: string)
    ensures rv == Doubled(s, c)
  {
    hide FindChar, Doubled;
    var startPosn := 0;
    rv := "";
    assert s[0..] == s;
    var nextPosn := FindChar(s, c, 0);
    while nextPosn.Some?
      invariant startPosn <= |s| && nextPosn == FindChar(s, c, startPosn)
      invariant Doubled(s, c) == rv + Doubled(s[startPosn..], c)
      decreases |s| - startPosn
    {
      DoubledStep(s, c, startPosn, nextPosn.value);
      rv := rv + (s[startPosn..nextPosn.value + 1] + [c]);
      startPosn := nextPosn.value + 1;
      nextPosn := FindChar(s, c, startPosn);
    }
    DoubledNothing(s[startPosn..], c);
    rv := rv + s[startPosn..];
  }

  // ----- writing fields and reading them back

  ghost function Quoted(f: string): string {
    Delimit(Doubled(f, '"'), "\"", "\"")
  }

  /** A field as a line writes it: in quotation marks, or as nothing at all. */
  datatype Cell = Marked(text: string) | Bare

  ghost function CellText(c: Cell): string {
    match c
    case Marked(f) => Quoted(f)
    case Bare => ""
  }

  function CellValue(c: Cell): string {
    match c
    case Marked(f) => f
    case Bare => ""
  }

  function Values(cells: seq<Cell>): seq<string> {
    seq(|cells|, i requires 0 <= i < |cells| => CellValue(cells[i]))
  }

  ghost function CellTexts(cells: seq<Cell>): seq<string> {
    seq(|cells|, i requires 0 <= i < |cells| => CellText(cells[i]))
  }

  /** The cells, separated by commas. */
  ghost function CellsLine(cells: seq<Cell>): string {
    JoinSpec(CellTexts(cells), ",")
  }

  /** The cells that follow another, each after its comma. */
  ghost function RestText(cells: seq<Cell>): string {
    if cells == [] then "" else [COMMA] + CellText(cells[0]) + RestText(cells[1..])
  }

  lemma {:induction false} CellsLineCons(cells: seq<Cell>)
    requires cells != []
    ensures CellsLine(cells) == CellText(cells[0]) + RestText(cells[1..])
  {
    hide CellText;
    assert CellTexts(cells)[1..] == CellTexts(cells[1..]);
    if |cells| > 1 {
      CellsLineCons(cells[1..]);
    }
  }

  /** Inside a quoted field the reader collects exactly the field and stops after its
      closing mark. */
  lemma {:induction false} ReadField(line: string, p: nat, f: string, value: string)
    requires p + |Doubled(f, QUOTE)| < |line|
    requires line[p..p + |Doubled(f, QUOTE)| + 1] == Doubled(f, QUOTE) + [QUOTE]
    requires var q := p + |Doubled(f, QUOTE)| + 1; q < |line| ==> line[q] != QUOTE
    ensures Fields(line, p, value, true) ==
            Prepend([value + f], Fields(line, p + |Doubled(f, QUOTE)| + 1, value + f, false))
    decreases |f|
  {
    var d := Doubled(f, QUOTE);
    assert forall i :: 0 <= i < |d| + 1 ==> line[p + i] == (d + [QUOTE])[i];
    if f == "" {
      assert line[p] == (d + [QUOTE])[0] == QUOTE;
      assert value + f == value;
    } else {
      var rest := Doubled(f[1..], QUOTE);
      var n := if f[0] == QUOTE then 2 else 1;
      assert d[n..] == rest && |d| == n + |rest|;
      hide Doubled;
      assert line[p] == (d + [QUOTE])[0] == f[0];
      assert n == 2 ==> line[p + 1] == (d + [QUOTE])[1] == QUOTE;
      SliceOfSlice(line, p, p + |d| + 1, n, |d| + 1);
      DropHead(d, n);
      ReadField(line, p + n, f[1..], value + [f[0]]);
      assert value + [f[0]] + f[1..] == value + f;
    }
  }

  lemma DropHead(d: string, n: nat)
    requires n <= |d|
    ensures (d + [QUOTE])[n..|d| + 1] == d[n..] + [QUOTE]
  {
  }

  lemma FieldAtFront(line: string, p: nat, d: string, rest: string)
    requires p <= |line| && line[p..] == [QUOTE] + d + [QUOTE] + rest
    requires rest != "" ==> rest[0] != QUOTE
    ensures p + 1 + |d| < |line| && line[p] == QUOTE
    ensures line[p + 1..p + 1 + |d| + 1] == d + [QUOTE]
    ensures line[p + 1 + |d| + 1..] == rest
    ensures p + 1 + |d| + 1 < |line| ==> line[p + 1 + |d| + 1] != QUOTE
  {
  }

  lemma ValuesCons(cells: seq<Cell>)
    requires cells != []
    ensures Values(cells) == [CellValue(cells[0])] + Values(cells[1..])
  {
  }

  lemma RestStarts(cells: seq<Cell>)
    ensures RestText(cells) == "" <==> cells == []
    ensures cells != [] ==> RestText(cells)[0] == COMMA
  {
  }

  /** A quoted cell and what follows it. */
  lemma {:induction false} ReadMarked(line: string, p: nat, f: string, cells: seq<Cell>, value: string)
    requires p <= |line| && line[p..] == Quoted(f) + RestText(cells)
    ensures var q := p + 1 + |Doubled(f, QUOTE)| + 1;
            && p < q <= |line| && line[p] == QUOTE && line[q..] == RestText(cells)
            && Fields(line, p, value, false) == Prepend([f], Fields(line, q, f, false))
  {
    hide RestText, Fields, Doubled;
    RestStarts(cells);
    FieldAtFront(line, p, Doubled(f, QUOTE), RestText(cells));
    FieldsStep(line, p, value, false);
    ReadField(line, p + 1, f, "");
    assert "" + f == f;
  }

  /** After a cell the reader adds the value of each of the others. */
  lemma {:induction false} ReadRest(line: string, p: nat, cells: seq<Cell>, value: string)
    requires p <= |line| && line[p..] == RestText(cells)
    ensures Fields(line, p, value, false) == Read(Values(cells))
    decreases |cells|
  {
    hide Fields, Doubled, Quoted, Values;
    RestStarts(cells);
    if cells == [] {
      NoFieldsLeft(line, p, value, false);
      NoValues();
    } else {
      var rest := cells[1..];
      ValuesCons(cells);
      var after := CellText(cells[0]) + RestText(rest);
      assert line[p..] == [COMMA] + after;
      assert line[p] == line[p..][0] == COMMA;
      TailOfTail(line, p, 1);
      assert line[p + 1..] == after;
      FieldsStep(line, p, value, false);
      RestStarts(rest);
      if cells[0].Bare? {
        assert after == RestText(rest);
        assert p + 1 < |line| ==> line[p + 1] == line[p + 1..][0];
        ReadRest(line, p + 1, rest, value);
      } else {
        ReadMarked(line, p + 1, cells[0].text, rest, value);
        ReadRest(line, p + 1 + 1 + |Doubled(cells[0].text, QUOTE)| + 1, rest, cells[0].text);
      }
    }
  }

  lemma NoValues()
    ensures Values([]) == []
  {
  }

  /** A line of quoted and empty fields is read as their values, but for a first field that
      is not quoted. */
  lemma {:induction false} CellsRead(cells: seq<Cell>)
    ensures Fields(CellsLine(cells), 0, "", false) ==
            Read(Values(if cells != [] && cells[0].Bare? then cells[1..] else cells))
  {
    hide Fields, Values, RestText, Doubled, Quoted, CellsLine;
    var line := CellsLine(cells);
    assert line[0..] == line;
    if cells == [] {
      NoCells();
      NoFieldsLeft(line, 0, "", false);
      NoValues();
    } else {
      CellsLineCons(cells);
      if cells[0].Bare? {
        ReadRest(line, 0, cells[1..], "");
      } else {
        ValuesCons(cells);
        ReadMarked(line, 0, cells[0].text, cells[1..], "");
        ReadRest(line, 1 + |Doubled(cells[0].text, QUOTE)| + 1, cells[1..], cells[0].text);
      }
    }
  }

  lemma NoCells()
    ensures CellsLine([]) == ""
  {
  }

  /** So all the values are read back exactly when the first field is quoted. */
  lemma {:induction false} CellsRoundTrip(cells: seq<Cell>)
    ensures Fields(CellsLine(cells), 0, "", false) == Read(Values(cells)) <==> cells == [] || cells[0].Marked?
  {
    hide Fields, CellsLine;
    CellsRead(cells);
    if cells != [] {
      assert |Values(cells[1..])| < |Values(cells)|;
    }
  }

  /** The fields, each quoted with its quotation marks doubled, separated by commas. */
  ghost function CsvLine(v: seq<string>): string {
    CellsLine(seq(|v|, i requires 0 <= i < |v| => Marked(v[i])))
  }

  /** Any fields, with whatever characters, are read back from their quoted line. */
  lemma {:induction false} CsvRoundTrip(v: seq<string>)
    ensures Fields(CsvLine(v), 0, "", false) == Read(v)
  {
    hide Fields, CellsLine;
    var cells := seq(|v|, i requires 0 <= i < |v| => Marked(v[i]));
    CellsRoundTrip(cells);
    assert Values(cells) == v;
  }
}
