/** multiplier: which values have been worked, per band and mode and over all of them. */
module Multiplier {
  const N_BANDS := 11
  const N_MODES := 3
  const BAND_NAMES := ["160", "80", "60", "40", "30", "20", "17", "15", "12", "10", "6"]
  const MODE_NAMES := ["CW", "SSB", "RTTY"]
  const ANY_BAND := N_BANDS
  const ANY_MODE := N_MODES
  const ASTERISK := '*'

  type Cell = (int, int)

  /** A row or a column for every name. */
  lemma NamesCounted()
    ensures N_BANDS == |BAND_NAMES| && N_MODES == |MODE_NAMES|
  {
  }

  // ----- one value: the cells (mode, band) of the grid that hold it

  predicate Actual(c: Cell) { 0 <= c.0 < N_MODES && 0 <= c.1 < N_BANDS }

  predicate InGrid(c: Cell) { 0 <= c.0 <= N_MODES && 0 <= c.1 <= N_BANDS }

  ghost predicate InRow(cells: set<Cell>, m: int) {
    exists b :: Actual((m, b)) && (m, b) in cells
  }

  ghost predicate InColumn(cells: set<Cell>, b: int) {
    exists m :: Actual((m, b)) && (m, b) in cells
  }

  ghost predicate Anywhere(cells: set<Cell>) {
    exists c :: c in cells && Actual(c)
  }

  /** Each row and each column total holds the value exactly when one of its cells does. */
  ghost predicate LinesRight(cells: set<Cell>) {
    && (forall m :: 0 <= m < N_MODES ==> ((m, ANY_BAND) in cells <==> InRow(cells, m)))
    && (forall b :: 0 <= b < N_BANDS ==> ((ANY_MODE, b) in cells <==> InColumn(cells, b)))
  }

  ghost predicate Consistent(cells: set<Cell>) {
    LinesRight(cells) && ((ANY_MODE, ANY_BAND) in cells <==> Anywhere(cells))
  }

  /** What add_worked does to the cells of the value. */
  ghost function Added(cells: set<Cell>, m: int, b: int): set<Cell> {
    if (m, b) in cells then cells
    else cells + {(m, b), (m, ANY_BAND), (ANY_MODE, b), (ANY_MODE, ANY_BAND)}
  }

  /** What remove_worked does to the cells of the value. */
  ghost function Removed(cells: set<Cell>, m: int, b: int): set<Cell> {
    var c1 := cells - {(m, b)};
    var c2 := if InRow(c1, m) then c1 else c1 - {(m, ANY_BAND)};
    var c3 := if InColumn(c2, b) then c2 else c2 - {(ANY_MODE, b)};
    if (m, ANY_BAND) in c3 || (ANY_MODE, b) in c3 then c3 else c3 - {(ANY_MODE, ANY_BAND)}
  }

  lemma AddKeepsConsistent(cells: set<Cell>, m: int, b: int)
    requires Actual((m, b)) && LinesRight(cells)
    requires (m, b) !in cells || Consistent(cells)
    ensures Consistent(Added(cells, m, b))
    ensures forall c :: Actual(c) ==> (c in Added(cells, m, b) <==> c in cells || c == (m, b))
  {
  }

  /** After a removal, whether the total over all bands and modes is still right: the value
      must remain worked on the same mode, or on the same band, or nowhere at all. */
  ghost predicate TotalSurvives(cells: set<Cell>, m: int, b: int) {
    var left := cells - {(m, b)};
    InRow(left, m) || InColumn(left, b) || !Anywhere(left)
  }

  lemma SameActual(x: set<Cell>, y: set<Cell>)
    requires forall c :: Actual(c) ==> (c in x <==> c in y)
    ensures forall m :: InRow(x, m) <==> InRow(y, m)
    ensures forall b :: InColumn(x, b) <==> InColumn(y, b)
    ensures Anywhere(x) <==> Anywhere(y)
  {
  }

  /** Removal keeps the totals of rows and columns right. */
  lemma RemoveKeepsLines(cells: set<Cell>, m: int, b: int)
    requires Actual((m, b)) && LinesRight(cells)
    ensures LinesRight(Removed(cells, m, b))
    ensures forall c :: Actual(c) ==> (c in Removed(cells, m, b) <==> c in cells && c != (m, b))
  {
  }

  /** A removal keeps the total over everything right exactly when TotalSurvives. */
  lemma RemoveKeepsConsistent(cells: set<Cell>, m: int, b: int)
    requires Actual((m, b)) && Consistent(cells) && (m, b) in cells
    ensures Consistent(Removed(cells, m, b)) <==> TotalSurvives(cells, m, b)
  {
  }

  /** Removing a value that was not worked there changes nothing while the totals are right,
      unless it is worked only on other modes and other bands. */
  lemma {:induction false} RemoveAbsent(cells: set<Cell>, m: int, b: int)
    requires Actual((m, b)) && Consistent(cells) && (m, b) !in cells
    ensures Removed(cells, m, b) == cells <==> TotalSurvives(cells, m, b)
  {
    assert cells - {(m, b)} == cells;
    assert !InRow(cells, m) ==> (m, ANY_BAND) !in cells;
  }

  /** Worked on 160 m CW and 80 m SSB, then removed from the first: still worked on the
      second, but no longer in the total over all bands and modes. */
  lemma RemoveLosesTotal()
    ensures var cells := Removed(Added(Added({}, 0, 0), 1, 1), 0, 0);
            && (1, 1) in cells && (ANY_MODE, ANY_BAND) !in cells
            && Consistent(Added(Added({}, 0, 0), 1, 1)) && !Consistent(cells)
  {
  }

  // ----- runs

  datatype Op = AddOp(m: int, b: int) | RemoveOp(m: int, b: int)

  ghost function After(ops: seq<Op>): set<Cell> {
    if ops == [] then {}
    else
      var before := After(ops[..|ops| - 1]);
      match ops[|ops| - 1]
      case AddOp(m, b) => Added(before, m, b)
      case RemoveOp(m, b) => Removed(before, m, b)
  }

  /** The bands and modes on which the value is worked, without any totals. */
  ghost function Plain(ops: seq<Op>): set<Cell> {
    if ops == [] then {}
    else
      var before := Plain(ops[..|ops| - 1]);
      match ops[|ops| - 1]
      case AddOp(m, b) => before + {(m, b)}
      case RemoveOp(m, b) => before - {(m, b)}
  }

  ghost predicate OnGrid(ops: seq<Op>) {
    forall i :: 0 <= i < |ops| ==> Actual((ops[i].m, ops[i].b))
  }

  /** Over every run the cells of bands and modes are those of the plain set, and the totals
      of rows and columns are right. */
  lemma {:induction false} CellsOverRuns(ops: seq<Op>)
    requires OnGrid(ops)
    ensures forall c :: Actual(c) ==> (c in After(ops) <==> c in Plain(ops))
    ensures LinesRight(After(ops))
  {
    hide InRow, InColumn, Anywhere, Added, Removed, LinesRight, Consistent;
    if ops == [] {
      NothingRight();
    } else {
      var last := ops[|ops| - 1];
      var before := After(ops[..|ops| - 1]);
      CellsOverRuns(ops[..|ops| - 1]);
      match last {
        case AddOp(m, b) => AddKeepsLines(before, m, b);
        case RemoveOp(m, b) => RemoveKeepsLines(before, m, b);
      }
    }
  }

  lemma NothingRight()
    ensures LinesRight({}) && Consistent({})
  {
  }

  lemma {:induction false} AddKeepsLines(cells: set<Cell>, m: int, b: int)
    requires Actual((m, b)) && LinesRight(cells)
    ensures LinesRight(Added(cells, m, b))
    ensures forall c :: Actual(c) ==> (c in Added(cells, m, b) <==> c in cells || c == (m, b))
  {
    if (m, b) !in cells { AddKeepsConsistent(cells, m, b); }
  }

  /** Each removal leaves the value on the same mode or band, or nowhere. */
  ghost predicate RemovalsSafe(ops: seq<Op>) {
    forall i :: 0 <= i < |ops| && ops[i].RemoveOp? ==> TotalSurvives(Plain(ops[..i]), ops[i].m, ops[i].b)
  }

  /** Runs whose removals are safe keep every total right. */
  lemma {:induction false} ConsistentOverRuns(ops: seq<Op>)
    requires OnGrid(ops) && RemovalsSafe(ops)
    ensures Consistent(After(ops))
  {
    hide InRow, InColumn, Anywhere, Added, Removed, LinesRight, Consistent;
    if ops == [] {
      NothingRight();
    } else {
      var n := |ops| - 1;
      var before := After(ops[..n]);
      assert forall i :: 0 <= i < n ==> ops[..n][..i] == ops[..i];
      ConsistentOverRuns(ops[..n]);
      CellsOverRuns(ops[..n]);
      match ops[n] {
        case AddOp(m, b) => AddKeepsAll(before, m, b);
        case RemoveOp(m, b) =>
          assert TotalSurvives(Plain(ops[..n]), m, b);
          SurvivesAgrees(before, Plain(ops[..n]), m, b);
          RemoveKeepsAll(before, m, b);
      }
    }
  }

  lemma {:induction false} AddKeepsAll(cells: set<Cell>, m: int, b: int)
    requires Actual((m, b)) && Consistent(cells)
    ensures Consistent(Added(cells, m, b))
  {
    AddKeepsConsistent(cells, m, b);
  }

  lemma {:induction false} SurvivesAgrees(x: set<Cell>, y: set<Cell>, m: int, b: int)
    requires forall c :: Actual(c) ==> (c in x <==> c in y)
    ensures TotalSurvives(x, m, b) <==> TotalSurvives(y, m, b)
  {
    SameActual(x - {(m, b)}, y - {(m, b)});
  }

  lemma RemoveKeepsAll(cells: set<Cell>, m: int, b: int)
    requires Actual((m, b)) && Consistent(cells) && TotalSurvives(cells, m, b)
    ensures Consistent(Removed(cells, m, b))
  {
  }

  /** The cell that is_worked consults. */
  function Consulted(perBand: bool, perMode: bool, b: int, m: int): Cell {
    (if perMode then m else ANY_MODE, if perBand then b else ANY_BAND)
  }

  /** With right totals is_worked answers: worked on this band, if bands count, and on this
      mode, if modes count. */
  lemma ConsultedMeans(cells: set<Cell>, perBand: bool, perMode: bool, b: int, m: int)
    requires Actual((m, b)) && Consistent(cells)
    ensures Consulted(perBand, perMode, b, m) in cells <==>
            exists c :: c in cells && Actual(c) && (perMode ==> c.0 == m) && (perBand ==> c.1 == b)
  {
  }

  // ----- the class

  /** A value that is worked and known but is no multiplier, such as XXX* in the UBA contest. */
  predicate Starred(v: string) { ASTERISK in v }

  predicate StarFree(s: set<string>) {
    forall v :: v in s ==> !Starred(v)
  }

  ghost function NoAsterisk(s: set<string>): set<string> {
    set v | v in s && !Starred(v)
  }

  /** What n_worked counts of a cell: its multipliers, and its other values as well when no
      such value is known. */
  ghost function Counted(known: set<string>, s: set<string>): nat {
    |NoAsterisk(s)| + if StarFree(known) then |s - NoAsterisk(s)| else 0
  }

  class MultiplierRecord {
    var allValuesAreMults: bool
    var known: set<string>
    var perBand: bool
    var perMode: bool
    var used: bool
    const worked: array2<set<string>>

    ghost predicate Valid()
      reads this
    {
      && worked.Length0 == N_MODES + 1 && worked.Length1 == N_BANDS + 1
      && (allValuesAreMults <==> StarFree(known))
    }

    /** The cells that hold a value. */
    ghost function Cells(v: string): set<Cell>
      requires worked.Length0 == N_MODES + 1 && worked.Length1 == N_BANDS + 1
      reads worked
    {
      set m, b | 0 <= m <= N_MODES && 0 <= b <= N_BANDS && v in worked[m, b] :: (m, b)
    }

    constructor ()
      ensures Valid() && fresh(worked) && known == {} && !perBand && !perMode && !used
      ensures forall v :: Cells(v) == {}
    {
      allValuesAreMults, known := true, {};
      perBand, perMode, used := false, false, false;
      var grid := new set<string>[N_MODES + 1, N_BANDS + 1]((m, b) => {});
      worked := grid;
    }

    method AddKnown(str: string) returns (added: bool)
      requires Valid()
      modifies this`known, this`allValuesAreMults
      ensures Valid()
      ensures known == if used then old(known) + {str} else old(known)
      ensures added <==> used && str !in old(known)
    {
      if !used {
        return false;
      }
      added := str !in known;
      known := known + {str};
      if added && allValuesAreMults && Starred(str) {
        allValuesAreMults := false;
      }
    }

    method RemoveKnown(str: string)
      requires Valid()
      modifies this`known, this`allValuesAreMults
      ensures Valid()
      ensures known == if used then old(known) - {str} else old(known)
    {
      if used {
        known := known - {str};
      }
      allValuesAreMults := StarFree(known);
    }

    method IsKnown(str: string) returns (r: bool)
      ensures r <==> used && str in known
    {
      r := if used then str in known else false;
    }

    method AddWorked(str: string, b: nat, m: nat) returns (added: bool)
      requires Valid() && Actual((m, b))
      modifies worked
      ensures Valid()
      ensures added <==> used && str in known && (m, b) !in old(Cells(str))
      ensures Cells(str) == if used && str in known then Added(old(Cells(str)), m, b) else old(Cells(str))
      ensures forall v :: v != str ==> Cells(v) == old(Cells(v))
    {
      var isKnown := IsKnown(str);
      if !isKnown {
        return false;
      }
      added := str !in worked[m, b];
      Include(str, m, b);
      if added {
        Include(str, m, ANY_BAND);
        Include(str, ANY_MODE, b);
        Include(str, ANY_MODE, ANY_BAND);
      }
    }

    /** Inserts a value into one cell. */
    method Include(str: string, m: nat, b: nat)
      requires Valid() && InGrid((m, b))
      modifies worked
      ensures Valid() && Cells(str) == old(Cells(str)) + {(m, b)}
      ensures forall v :: v != str ==> Cells(v) == old(Cells(v))
    {
      worked[m, b] := worked[m, b] + {str};
    }

    method UnconditionalAddWorked(str: string, b: nat, m: nat) returns (added: bool)
      requires Valid() && Actual((m, b))
      modifies worked, this`known, this`allValuesAreMults
      ensures Valid()
      ensures known == if used then old(known) + {str} else old(known)
      ensures added <==> used && (m, b) !in old(Cells(str))
      ensures Cells(str) == if used then Added(old(Cells(str)), m, b) else old(Cells(str))
      ensures forall v :: v != str ==> Cells(v) == old(Cells(v))
    {
      var _ := AddKnown(str);
      added := AddWorked(str, b, m);
    }

    method RemoveWorked(str: string, b: nat, m: nat)
      requires Valid() && Actual((m, b))
      modifies worked
      ensures Valid()
      ensures Cells(str) == if used then Removed(old(Cells(str)), m, b) else old(Cells(str))
      ensures forall v :: v != str ==> Cells(v) == old(Cells(v))
    {
      if !used {
        return;
      }
      hide InRow, InColumn, NoAsterisk;
      Erase(str, m, b);
      var present := OnSomeBand(str, m);
      if !present {
        Erase(str, m, ANY_BAND);
      }
      present := OnSomeMode(str, b);
      if !present {
        Erase(str, ANY_MODE, b);
      }
      present := str in worked[m, ANY_BAND] || str in worked[ANY_MODE, b];
      if !present {
        Erase(str, ANY_MODE, ANY_BAND);
      }
    }

    /** Erases a value from one cell. */
    method Erase(str: string, m: nat, b: nat)
      requires Valid() && InGrid((m, b))
      modifies worked
      ensures Valid() && Cells(str) == old(Cells(str)) - {(m, b)}
      ensures forall v :: v != str ==> Cells(v) == old(Cells(v))
    {
      worked[m, b] := worked[m, b] - {str};
    }

    /** Is it still present in any band for this mode? */
    method OnSomeBand(str: string, m: nat) returns (present: bool)
      requires Valid() && m < N_MODES
      ensures present <==> InRow(Cells(str), m)
    {
      present := false;
      var n := 0;
      while !present && n < N_BANDS
        invariant n <= N_BANDS
        invariant present ==> InRow(Cells(str), m)
        invariant !present ==> forall b :: 0 <= b < n ==> str !in worked[m, b]
      {
        present := str in worked[m, n];
        if present { assert Actual((m, n)) && (m, n) in Cells(str); }
        n := n + 1;
      }
    }

    /** Is it still present in any mode for this band? */
    method OnSomeMode(str: string, b: nat) returns (present: bool)
      requires Valid() && b < N_BANDS
      ensures present <==> InColumn(Cells(str), b)
    {
      present := false;
      var n := 0;
      while !present && n < N_MODES
        invariant n <= N_MODES
        invariant present ==> InColumn(Cells(str), b)
        invariant !present ==> forall m :: 0 <= m < n ==> str !in worked[m, b]
      {
        present := str in worked[n, b];
        if present { assert Actual((n, b)) && (n, b) in Cells(str); }
        n := n + 1;
      }
    }

    method IsWorked(str: string, b: nat, m: nat) returns (r: bool)
      requires Valid() && Actual((m, b))
      ensures r <==> used && Consulted(perBand, perMode, b, m) in Cells(str)
    {
      if !used {
        return false;
      }
      r := str in worked[if perMode then m else ANY_MODE, if perBand then b else ANY_BAND];
    }

    method NWorked(b: nat, m: nat) returns (n: nat)
      requires Valid() && InGrid((m, b))
      ensures !used ==> n == 0
      ensures used ==> n == Counted(known, worked[m, b])
      ensures used ==> (n == |NoAsterisk(worked[m, b])| <==> StarFree(worked[m, b]) || !StarFree(known))
    {
      if !used {
        return 0;
      }
      CountedRight(known, worked[m, b]);
      if allValuesAreMults {
        return |worked[m, b]|;
      }
      return |set v | v in worked[m, b] && !Starred(v)|;
    }

    method Clear()
      requires Valid()
      modifies worked
      ensures Valid() && forall v :: Cells(v) == {}
    {
      forall m, b | 0 <= m <= N_MODES && 0 <= b <= N_BANDS {
        worked[m, b] := {};
      }
    }
  }

  // ----- the number of multipliers

  /** The count is that of the multipliers exactly when the cell holds nothing else or some
      value with an asterisk is known. */
  lemma {:induction false} CountedRight(known: set<string>, s: set<string>)
    ensures StarFree(known) ==> Counted(known, s) == |s|
    ensures Counted(known, s) == |NoAsterisk(s)| <==> StarFree(s) || !StarFree(known)
  {
    var starred := s - NoAsterisk(s);
    assert s == NoAsterisk(s) + starred;
    if StarFree(s) {
      assert starred == {};
    } else {
      var v :| v in s && Starred(v);
      assert v in starred;
    }
  }

  /** The size of a cell is its number of multipliers exactly when it holds nothing else. */
  lemma {:induction false} SizeCountsMults(s: set<string>)
    ensures |s| == |NoAsterisk(s)| <==> StarFree(s)
  {
    CountedRight({}, s);
  }

  datatype ValueOp = Know(v: string) | Forget(v: string) | Work(v: string, m: int, b: int)

  ghost function KnownAfter(ops: seq<ValueOp>): set<string> {
    if ops == [] then {}
    else
      var before := KnownAfter(ops[..|ops| - 1]);
      match ops[|ops| - 1]
      case Know(v) => before + {v}
      case Forget(v) => before - {v}
      case Work(_, _, _) => before
  }

  /** The cells that hold v after add_known, remove_known and add_worked. */
  ghost function CellsAfter(ops: seq<ValueOp>, v: string): set<Cell> {
    if ops == [] then {}
    else
      var prefix := ops[..|ops| - 1];
      var last := ops[|ops| - 1];
      if last.Work? && last.v == v && v in KnownAfter(prefix) then Added(CellsAfter(prefix, v), last.m, last.b)
      else CellsAfter(prefix, v)
  }

  ghost function ValuesAfter(ops: seq<ValueOp>, c: Cell): set<string> {
    set i | 0 <= i < |ops| && c in CellsAfter(ops, ops[i].v) :: ops[i].v
  }

  ghost predicate WorkOnGrid(ops: seq<ValueOp>) {
    forall i :: 0 <= i < |ops| && ops[i].Work? ==> Actual((ops[i].m, ops[i].b))
  }

  /** The value was made known by operation i and not removed since. */
  ghost predicate KnownSince(ops: seq<ValueOp>, v: string, i: nat) {
    i < |ops| && ops[i] == Know(v) && forall j :: i < j < |ops| ==> ops[j] != Forget(v)
  }

  predicate Covers(c: Cell, m: int, b: int) {
    (c.0 == m || c.0 == ANY_MODE) && (c.1 == b || c.1 == ANY_BAND)
  }

  /** Operation i works the value, known by then, where the cell counts it. */
  ghost predicate WorkedAt(ops: seq<ValueOp>, v: string, i: nat, c: Cell) {
    && i < |ops| && ops[i].Work? && ops[i].v == v && Covers(c, ops[i].m, ops[i].b)
    && v in KnownAfter(ops[..i])
  }

  lemma {:induction false} KnownOverRuns(ops: seq<ValueOp>, v: string)
    ensures v in KnownAfter(ops) <==> exists i: nat :: KnownSince(ops, v, i)
  {
    if ops != [] {
      var n := |ops| - 1;
      KnownOverRuns(ops[..n], v);
      if v in KnownAfter(ops[..n]) && ops[n] != Forget(v) {
        var i: nat :| KnownSince(ops[..n], v, i);
        assert KnownSince(ops, v, i);
      }
      if ops[n] == Know(v) {
        assert KnownSince(ops, v, n);
      }
      if i: nat :| KnownSince(ops, v, i) {
        assert i < n ==> KnownSince(ops[..n], v, i);
      }
    }
  }

  lemma {:induction false} WorkedOverRuns(ops: seq<ValueOp>, v: string, c: Cell)
    requires WorkOnGrid(ops)
    ensures c in CellsAfter(ops, v) <==> exists i: nat :: WorkedAt(ops, v, i, c)
  {
    if ops != [] {
      var n := |ops| - 1;
      var prefix, last := ops[..n], ops[n];
      assert forall i: nat :: i < n ==> prefix[..i] == ops[..i];
      WorkedOverRuns(prefix, v, c);
      if i: nat :| WorkedAt(prefix, v, i, c) { assert WorkedAt(ops, v, i, c); }
      if i: nat :| WorkedAt(ops, v, i, c) { assert i < n ==> WorkedAt(prefix, v, i, c); }
      if last.Work? && last.v == v && v in KnownAfter(prefix) {
        var here := (last.m, last.b);
        WorkedOverRuns(prefix, v, here);
        if here in CellsAfter(prefix, v) && Covers(c, last.m, last.b) {
          var i: nat :| WorkedAt(prefix, v, i, here);
          assert WorkedAt(prefix, v, i, c);
        }
        assert Covers(c, last.m, last.b) ==> WorkedAt(ops, v, n, c);
      }
    }
  }

  lemma {:induction false} ValuesOverRuns(ops: seq<ValueOp>, c: Cell, v: string)
    requires WorkOnGrid(ops)
    ensures v in ValuesAfter(ops, c) <==> exists i: nat :: WorkedAt(ops, v, i, c)
  {
    WorkedOverRuns(ops, v, c);
    if i: nat :| WorkedAt(ops, v, i, c) { assert ops[i].v == v; }
  }

  /** After any run n_worked counts the multipliers of a cell exactly when some value with an
      asterisk is still known, or none has been worked there. */
  lemma {:induction false} CountOverRuns(ops: seq<ValueOp>, c: Cell)
    requires WorkOnGrid(ops)
    ensures Counted(KnownAfter(ops), ValuesAfter(ops, c)) == |NoAsterisk(ValuesAfter(ops, c))| <==>
            (exists v, i: nat :: Starred(v) && KnownSince(ops, v, i)) ||
            !(exists v, i: nat :: Starred(v) && WorkedAt(ops, v, i, c))
  {
    hide Counted, NoAsterisk, KnownAfter, ValuesAfter, KnownSince, WorkedAt, Starred;
    CountedRight(KnownAfter(ops), ValuesAfter(ops, c));
    forall v
      ensures v in KnownAfter(ops) <==> exists i: nat :: KnownSince(ops, v, i)
      ensures v in ValuesAfter(ops, c) <==> exists i: nat :: WorkedAt(ops, v, i, c)
    {
      KnownOverRuns(ops, v);
      ValuesOverRuns(ops, c, v);
    }
  }

  /** As long as no known value with an asterisk is removed, it always does. */
  lemma {:induction false} CountWhileKept(ops: seq<ValueOp>, c: Cell)
    requires WorkOnGrid(ops)
    requires forall i :: 0 <= i < |ops| && ops[i].Forget? ==> !Starred(ops[i].v)
    ensures Counted(KnownAfter(ops), ValuesAfter(ops, c)) == |NoAsterisk(ValuesAfter(ops, c))|
  {
    hide Counted, NoAsterisk, ValuesAfter;
    CountOverRuns(ops, c);
    if v: string, i: nat :| Starred(v) && WorkedAt(ops, v, i, c) {
      KnownOverRuns(ops[..i], v);
      var k: nat :| KnownSince(ops[..i], v, k);
      assert KnownSince(ops, v, k);
    }
  }

  /** A value with an asterisk that is worked and then removed from the known ones counts. */
  lemma {:induction false} ForgottenCounted()
    ensures var ops := [Know("XXX*"), Work("XXX*", 0, 0), Forget("XXX*")];
            Counted(KnownAfter(ops), ValuesAfter(ops, (0, 0))) != |NoAsterisk(ValuesAfter(ops, (0, 0)))|
  {
    hide Counted, NoAsterisk, ValuesAfter, KnownAfter;
    var ops := [Know("XXX*"), Work("XXX*", 0, 0), Forget("XXX*")];
    CountOverRuns(ops, (0, 0));
    assert ops[..1] == [Know("XXX*")];
    KnownOverRuns(ops[..1], "XXX*");
    assert KnownSince(ops[..1], "XXX*", 0);
    assert Starred("XXX*") by { assert "XXX*"[3] == ASTERISK; }
    assert WorkedAt(ops, "XXX*", 1, (0, 0));
    assert ops[2] == Forget("XXX*");
  }
}
