/** The run ledger (ledger.py): lineage repair, conflict detection and the
    lookup of the previous run, three scans that have to agree. */
module Ledgers {
  import opened Common

  type Date = int
  type Ticker = string

  datatype Directive = Directive(ticker: Ticker, hold: bool)

  /** One recorded run. `date` and `loggedDay` are `None` when the text does not
      parse; an empty `mode` is an absent one; `stamp` ranks `(logged_at,
      run_id)`; `rest` is everything no scan looks at. */
  datatype Row = Row(
    date: Option<Date>,
    loggedDay: Option<Date>,
    stamp: (int, int),
    mode: string,
    modeSource: string,
    signals: seq<Ticker>,
    slate: seq<Ticker>,
    directives: seq<Directive>,
    rest: string)

  /** A line of a ledger file; one that does not parse is kept as it is. */
  datatype Line = Malformed(text: string) | Parsed(row: Row)

  function RowsOf(lines: seq<Line>): seq<Row> {
    if lines == [] then []
    else
      var before := RowsOf(lines[..|lines| - 1]);
      var last := lines[|lines| - 1];
      if last.Parsed? then before + [last.row] else before
  }

  /** `iter_rows`: every parsed row, oldest file first. */
  function Rows(files: seq<seq<Line>>): seq<Row> {
    if files == [] then [] else Rows(files[..|files| - 1]) + RowsOf(files[|files| - 1])
  }

  const LIVE := "live"
  const REPLAY := "replay"
  const QUARANTINE := "quarantine"

  function ModeOf(row: Row): string {
    if row.mode == "" then LIVE else row.mode
  }

  /** What a row claims was held (in any order) and shown (in order). */
  function Identity(row: Row): (multiset<Ticker>, seq<Ticker>) {
    (multiset(row.signals), row.slate)
  }

  const LAG_DAYS := 1

  /** What the row's own time stamps say it was. */
  function Observed(row: Row): Option<string> {
    if row.loggedDay.None? || row.date.None? then None
    else
      var lag := row.loggedDay.value - row.date.value;
      if lag < 0 then None else if lag <= LAG_DAYS then Some(LIVE) else Some(REPLAY)
  }

  predicate InLineage(row: Row, mode: Option<string>) {
    mode.Some? ==> ModeOf(row) == mode.value
  }

  predicate On(row: Row, date: Date, mode: Option<string>) {
    row.date == Some(date) && InLineage(row, mode)
  }

  /** Two runs of one date and lineage describe different states. */
  ghost predicate Conflicted(rows: seq<Row>, date: Date, mode: Option<string>) {
    exists a, b :: a in rows && b in rows && On(a, date, mode) && On(b, date, mode) && Identity(a) != Identity(b)
  }

  predicate Before(date: Date, before: Option<Date>) {
    before.Some? ==> date < before.value
  }

  predicate Eligible(row: Row, before: Option<Date>, mode: Option<string>) {
    row.date.Some? && Before(row.date.value, before) && InLineage(row, mode)
  }

  ghost predicate LatestDate(rows: seq<Row>, before: Option<Date>, mode: Option<string>, date: Date) {
    && (exists r :: r in rows && Eligible(r, before, mode) && r.date == Some(date))
    && forall r :: r in rows && Eligible(r, before, mode) ==> r.date.value <= date
  }

  // ---- rows of one date, in stamp order ---------------------------------------------

  function Stamp(row: Row): (int, int) { row.stamp }

  function Filter(rows: seq<Row>, date: Date, mode: Option<string>): seq<Row> {
    if rows == [] then []
    else
      var before := Filter(rows[..|rows| - 1], date, mode);
      if On(rows[|rows| - 1], date, mode) then before + [rows[|rows| - 1]] else before
  }

  lemma FilterFacts(rows: seq<Row>, date: Date, mode: Option<string>)
    ensures forall r :: r in Filter(rows, date, mode) <==> r in rows && On(r, date, mode)
  {
    if rows == [] {
    } else {
      FilterFacts(rows[..|rows| - 1], date, mode);
      assert rows == rows[..|rows| - 1] + [rows[|rows| - 1]];
    }
  }

  // ---- lineage repair ---------------------------------------------------------------

  /** Two runs recorded as `date` traded that describe different states. */
  ghost predicate Disagree(a: Row, b: Row, date: Date) {
    && a.date == b.date == Some(date)
    && Observed(a) == Observed(b) == Some(LIVE) && Identity(a) != Identity(b)
  }

  /** The dates whose same-day runs disagree with one another. */
  ghost predicate Quarantines(rows: seq<Row>, date: Date) {
    exists a, b :: a in rows && b in rows && Disagree(a, b, date)
  }

  function Target(row: Row, quarantined: set<Date>): Option<string> {
    var observed := Observed(row);
    if observed == Some(LIVE) && row.date.Some? && row.date.value in quarantined then Some(QUARANTINE)
    else observed
  }

  const REPAIR_NOTE := "repair_lineage: logged_at vs date"
  const CONFLICT_NOTE := "; same-day runs disagree about the book"

  function Stamped(row: Row, quarantined: set<Date>): Row {
    var target := Target(row, quarantined);
    if target.None? || ModeOf(row) == target.value then row
    else row.(mode := target.value,
              modeSource := REPAIR_NOTE + (if target.value == QUARANTINE then CONFLICT_NOTE else ""))
  }

  function StampedLine(line: Line, quarantined: set<Date>): Line {
    if line.Parsed? then Parsed(Stamped(line.row, quarantined)) else line
  }

  function StampedLines(lines: seq<Line>, quarantined: set<Date>): seq<Line> {
    seq(|lines|, i requires 0 <= i < |lines| => StampedLine(lines[i], quarantined))
  }

  function StampedFiles(files: seq<seq<Line>>, quarantined: set<Date>): seq<seq<Line>> {
    seq(|files|, i requires 0 <= i < |files| => StampedLines(files[i], quarantined))
  }

  function StampedRows(rows: seq<Row>, quarantined: set<Date>): seq<Row> {
    seq(|rows|, i requires 0 <= i < |rows| => Stamped(rows[i], quarantined))
  }

  ghost predicate QuarantineOf(quarantined: set<Date>, rows: seq<Row>) {
    forall d :: d in quarantined <==> Quarantines(rows, d)
  }

  lemma {:induction false} RowsOfStampedLines(lines: seq<Line>, quarantined: set<Date>)
    ensures RowsOf(StampedLines(lines, quarantined)) == StampedRows(RowsOf(lines), quarantined)
  {
    if lines == [] {
    } else {
      var n := |lines| - 1;
      RowsOfStampedLines(lines[..n], quarantined);
      assert StampedLines(lines, quarantined)[..n] == StampedLines(lines[..n], quarantined);
    }
  }

  /** Repairing the files repairs the rows they yield, in place. */
  lemma {:induction false} RowsOfStampedFiles(files: seq<seq<Line>>, quarantined: set<Date>)
    ensures Rows(StampedFiles(files, quarantined)) == StampedRows(Rows(files), quarantined)
  {
    if files == [] {
    } else {
      var n := |files| - 1;
      RowsOfStampedFiles(files[..n], quarantined);
      RowsOfStampedLines(files[n], quarantined);
      assert StampedFiles(files, quarantined)[..n] == StampedFiles(files[..n], quarantined);
    }
  }

  /** Repair deletes, adds and reorders nothing, and of a row it touches only
      the mode and the note that says why. */
  lemma {:induction false} RepairKeepsTheRecord(files: seq<seq<Line>>, quarantined: set<Date>)
    ensures var before, after := Rows(files), Rows(StampedFiles(files, quarantined));
            |after| == |before|
            && forall i :: 0 <= i < |before| ==>
                 after[i] == before[i].(mode := after[i].mode, modeSource := after[i].modeSource)
                 && Observed(after[i]) == Observed(before[i]) && Identity(after[i]) == Identity(before[i])
  {
    RowsOfStampedFiles(files, quarantined);
  }

  lemma StampKeepsEvidence(row: Row, quarantined: set<Date>)
    ensures var after := Stamped(row, quarantined);
            Observed(after) == Observed(row) && Identity(after) == Identity(row) && after.date == row.date
  {
  }

  lemma {:induction false} RepairKeepsQuarantine(rows: seq<Row>, quarantined: set<Date>, date: Date)
    ensures Quarantines(StampedRows(rows, quarantined), date) <==> Quarantines(rows, date)
  {
    var after := StampedRows(rows, quarantined);
    if a, b :| a in rows && b in rows && Disagree(a, b, date) {
      var i :| 0 <= i < |rows| && rows[i] == a;
      var j :| 0 <= j < |rows| && rows[j] == b;
      StampKeepsEvidence(a, quarantined);
      StampKeepsEvidence(b, quarantined);
      assert after[i] in after && after[j] in after && Disagree(after[i], after[j], date);
    } else if a, b :| a in after && b in after && Disagree(a, b, date) {
      var i :| 0 <= i < |rows| && after[i] == a;
      var j :| 0 <= j < |rows| && after[j] == b;
      StampKeepsEvidence(rows[i], quarantined);
      StampKeepsEvidence(rows[j], quarantined);
      assert rows[i] in rows && rows[j] in rows && Disagree(rows[i], rows[j], date);
    }
  }

  /** Repairing twice is repairing once. */
  lemma {:induction false} RepairIsIdempotent(files: seq<seq<Line>>, first: set<Date>, second: set<Date>)
    requires QuarantineOf(first, Rows(files))
    requires QuarantineOf(second, Rows(StampedFiles(files, first)))
    ensures first == second && StampedFiles(StampedFiles(files, first), second) == StampedFiles(files, first)
  {
    RowsOfStampedFiles(files, first);
    forall d ensures d in first <==> d in second {
      RepairKeepsQuarantine(Rows(files), first, d);
    }
    forall i | 0 <= i < |files|
      ensures StampedLines(StampedLines(files[i], first), second) == StampedLines(files[i], first)
    {
    }
  }

  /** A row with a date and no usable recording day, still filed as live: the
      repair cannot classify it and leaves it in the live lineage. */
  predicate Stray(row: Row) {
    row.date.Some? && Observed(row).None? && ModeOf(row) == LIVE
  }

  predicate StaysLive(row: Row, quarantined: set<Date>) {
    row.date.Some? && (Stray(row) || (Observed(row) == Some(LIVE) && row.date.value !in quarantined))
  }

  /** Every stray agrees with whatever else its date keeps in the live lineage. */
  ghost predicate StraysAgree(rows: seq<Row>, quarantined: set<Date>) {
    forall a, b :: a in rows && b in rows && a.date == b.date && Stray(a) && StaysLive(b, quarantined) ==>
      Identity(a) == Identity(b)
  }

  lemma LiveAfterRepair(row: Row, quarantined: set<Date>, date: Date)
    ensures On(Stamped(row, quarantined), date, Some(LIVE)) <==> row.date == Some(date) && StaysLive(row, quarantined)
  {
  }

  lemma {:induction false} StrayConflicts(rows: seq<Row>, quarantined: set<Date>, a: Row, b: Row)
    requires a in rows && b in rows && a.date == b.date && Stray(a) && StaysLive(b, quarantined)
    requires Identity(a) != Identity(b)
    ensures Conflicted(StampedRows(rows, quarantined), a.date.value, Some(LIVE))
  {
    var after := StampedRows(rows, quarantined);
    var i :| 0 <= i < |rows| && rows[i] == a;
    var j :| 0 <= j < |rows| && rows[j] == b;
    LiveAfterRepair(a, quarantined, a.date.value);
    LiveAfterRepair(b, quarantined, a.date.value);
    StampKeepsEvidence(a, quarantined);
    StampKeepsEvidence(b, quarantined);
    assert after[i] in after && after[j] in after;
  }

  /** Repair makes the live lineage readable, exactly when the strays agree. */
  lemma {:induction false} ConflictFreeExactlyWhen(files: seq<seq<Line>>, quarantined: set<Date>)
    requires QuarantineOf(quarantined, Rows(files))
    ensures (forall d :: !Conflicted(Rows(StampedFiles(files, quarantined)), d, Some(LIVE)))
            <==> StraysAgree(Rows(files), quarantined)
  {
    var rows := Rows(files);
    RowsOfStampedFiles(files, quarantined);
    if StraysAgree(rows, quarantined) {
      forall d ensures !Conflicted(StampedRows(rows, quarantined), d, Some(LIVE)) {
        NoConflictOn(rows, quarantined, d);
      }
    } else {
      var a, b :| a in rows && b in rows && a.date == b.date && Stray(a) && StaysLive(b, quarantined)
                  && Identity(a) != Identity(b);
      StrayConflicts(rows, quarantined, a, b);
    }
  }

  lemma RowsOfTwo(x: Row, y: Row)
    ensures Rows([[Parsed(x), Parsed(y)]]) == [x, y]
  {
    var lines := [Parsed(x), Parsed(y)];
    assert lines[..1] == [Parsed(x)] && [Parsed(x)][..0] == [];
    assert RowsOf([Parsed(x)]) == [x];
    assert RowsOf(lines) == [x, y];
    var none: seq<seq<Line>> := [];
    assert [lines][..0] == none && Rows(none) == [];
  }

  /** Such ledgers exist: two live rows of one date, neither with a recording day, that issued
      different names. The repair passes both over and the date stays ambiguous. */
  lemma StraysCanDisagree(date: Date, a: Ticker, b: Ticker) returns (files: seq<seq<Line>>)
    requires a != b
    ensures QuarantineOf({}, Rows(files)) && !StraysAgree(Rows(files), {})
    ensures Conflicted(Rows(StampedFiles(files, {})), date, Some(LIVE))
  {
    var x := Row(Some(date), None, (0, 0), LIVE, "", [a], [], [], "");
    var y := Row(Some(date), None, (1, 1), LIVE, "", [b], [], [], "");
    files := [[Parsed(x), Parsed(y)]];
    RowsOfTwo(x, y);
    assert Identity(x) != Identity(y) by {
      assert a in multiset([a]) && a !in multiset([b]);
    }
    assert x in Rows(files) && y in Rows(files) && Stray(x) && StaysLive(y, {});
    RowsOfStampedFiles(files, {});
    StrayConflicts(Rows(files), {}, x, y);
  }

  /** Two rows that stay live on one date agree, if the strays do. */
  lemma {:induction false} StayersAgree(rows: seq<Row>, quarantined: set<Date>, a: Row, b: Row)
    requires QuarantineOf(quarantined, rows) && StraysAgree(rows, quarantined)
    requires a in rows && b in rows && a.date == b.date
    requires StaysLive(a, quarantined) && StaysLive(b, quarantined)
    ensures Identity(a) == Identity(b)
  {
    if !Stray(a) && !Stray(b) {
      assert !Quarantines(rows, a.date.value);
      assert !Disagree(a, b, a.date.value);
    }
  }

  lemma {:induction false} NoConflictOn(rows: seq<Row>, quarantined: set<Date>, date: Date)
    requires QuarantineOf(quarantined, rows) && StraysAgree(rows, quarantined)
    ensures !Conflicted(StampedRows(rows, quarantined), date, Some(LIVE))
  {
    var after := StampedRows(rows, quarantined);
    forall i, j | 0 <= i < |rows| && 0 <= j < |rows|
                  && On(after[i], date, Some(LIVE)) && On(after[j], date, Some(LIVE))
      ensures Identity(after[i]) == Identity(after[j])
    {
      LiveAfterRepair(rows[i], quarantined, date);
      LiveAfterRepair(rows[j], quarantined, date);
      StampKeepsEvidence(rows[i], quarantined);
      StampKeepsEvidence(rows[j], quarantined);
      StayersAgree(rows, quarantined, rows[i], rows[j]);
    }
  }

  /** In particular a ledger whose dated rows are all datable is always left
      with a readable live lineage. */
  lemma {:induction false} DatableLedgerIsReadable(files: seq<seq<Line>>, quarantined: set<Date>)
    requires QuarantineOf(quarantined, Rows(files))
    requires forall r :: r in Rows(files) && r.date.Some? ==> Observed(r).Some?
    ensures forall d :: !Conflicted(Rows(StampedFiles(files, quarantined)), d, Some(LIVE))
  {
    ConflictFreeExactlyWhen(files, quarantined);
  }

  // ---- the previous run ---------------------------------------------------------------

  datatype Lookup =
    | Nothing
    | Found(row: Row)
    | Ambiguous(date: Date, runs: nat)
    | Inconsistent

  /** Of the date's rows that carry its stamp, the row is the last recorded. */
  ghost predicate LastOfItsStamp(rows: seq<Row>, row: Row, date: Date, mode: Option<string>) {
    exists i :: 0 <= i < |rows| && rows[i] == row
                && forall j :: i < j < |rows| && On(rows[j], date, mode) ==> rows[j].stamp != row.stamp
  }

  /** Where a selected row stands among all of them. */
  lemma {:induction false} FilterPlace(rows: seq<Row>, date: Date, mode: Option<string>, i: nat) returns (a: nat)
    requires i < |Filter(rows, date, mode)|
    ensures a < |rows| && rows[a] == Filter(rows, date, mode)[i]
    ensures forall b :: a < b < |rows| && On(rows[b], date, mode) ==>
              exists j :: i < j < |Filter(rows, date, mode)| && Filter(rows, date, mode)[j] == rows[b]
  {
    var n := |rows| - 1;
    var before := Filter(rows[..n], date, mode);
    if i < |before| {
      a := FilterPlace(rows[..n], date, mode, i);
      forall b | a < b < |rows| && On(rows[b], date, mode)
        ensures exists j :: i < j < |Filter(rows, date, mode)| && Filter(rows, date, mode)[j] == rows[b]
      {
        if b < n {
          assert rows[..n][b] == rows[b];
          var j :| i < j < |before| && before[j] == rows[b];
          assert Filter(rows, date, mode)[j] == rows[b];
        } else {
          assert Filter(rows, date, mode)[|before|] == rows[b];
        }
      }
    } else {
      a := n;
    }
  }

  lemma {:induction false} NewestIsLastOfItsStamp(rows: seq<Row>, date: Date, mode: Option<string>)
    requires Filter(rows, date, mode) != []
    ensures var found := SortBy(Filter(rows, date, mode), Stamp);
            found != [] && LastOfItsStamp(rows, found[|found| - 1], date, mode)
  {
    var kept := Filter(rows, date, mode);
    var i := LastOfSorted(kept, Stamp);
    var a := FilterPlace(rows, date, mode, i);
    forall b | a < b < |rows| && On(rows[b], date, mode) ensures rows[b].stamp != kept[i].stamp {
      var j :| i < j < |kept| && kept[j] == rows[b];
      assert Stamp(kept[j]) != Stamp(kept[i]);
    }
  }

  /** What `previous_run` owes its caller. */
  ghost predicate IsPrevious(r: Lookup, rows: seq<Row>, before: Option<Date>, mode: Option<string>) {
    match r
    case Nothing => forall row :: row in rows ==> !Eligible(row, before, mode)
    case Found(row) =>
      && row in rows && row.date.Some? && LatestDate(rows, before, mode, row.date.value)
      && On(row, row.date.value, mode) && !Conflicted(rows, row.date.value, mode)
      && (forall other :: other in rows && On(other, row.date.value, mode) ==> KeyLe(other.stamp, row.stamp))
      && LastOfItsStamp(rows, row, row.date.value, mode)
    case Ambiguous(date, runs) =>
      LatestDate(rows, before, mode, date) && Conflicted(rows, date, mode) && runs == |Filter(rows, date, mode)|
    case Inconsistent => false
  }

  lemma ManyMeansTwo<T>(s: set<T>)
    ensures |s| > 1 <==> exists a, b :: a in s && b in s && a != b
  {
    forall a, b | a in s && b in s && a != b ensures |s| > 1 {
      assert |s - {a}| == |s| - 1;
      assert b in s - {a};
    }
    if |s| > 1 {
      var a :| a in s;
      assert |s - {a}| > 0;
      var b :| b in s - {a};
    }
  }

  function Identities(rows: seq<Row>): set<(multiset<Ticker>, seq<Ticker>)> {
    set r | r in rows :: Identity(r)
  }

  lemma ManyIdentities(rows: seq<Row>)
    ensures |Identities(rows)| > 1 <==> exists a, b :: a in rows && b in rows && Identity(a) != Identity(b)
  {
    ManyMeansTwo(Identities(rows));
    if a, b :| a in rows && b in rows && Identity(a) != Identity(b) {
      assert Identity(a) in Identities(rows) && Identity(b) in Identities(rows);
    }
  }

  lemma SomeMember<T>(s: set<T>) returns (t: T)
    requires |s| > 0
    ensures t in s
  {
    t :| t in s;
  }

  /** A finite, non-empty set of dates has a least one. */
  lemma {:induction false} LeastDate(dates: set<Date>) returns (least: Date)
    requires |dates| > 0
    ensures least in dates && forall d :: d in dates ==> least <= d
    decreases |dates|
  {
    var first := SomeMember(dates);
    var others := dates - {first};
    least := first;
    if |others| > 0 {
      var rest := LeastDate(others);
      least := if rest < first then rest else first;
    }
    forall d | d in dates ensures least <= d {
      assert d == first || d in others;
    }
  }

  /** `sorted` on a set of dates. */
  method SortedDates(dates: set<Date>) returns (out: seq<Date>)
    ensures forall i, j :: 0 <= i < j < |out| ==> out[i] < out[j]
    ensures forall d :: d in out <==> d in dates
  {
    out := [];
    var left := dates;
    while |left| > 0
      invariant left <= dates
      invariant forall d :: d in out <==> d in dates && d !in left
      invariant forall i, j :: 0 <= i < j < |out| ==> out[i] < out[j]
      invariant forall i, e :: 0 <= i < |out| && e in left ==> out[i] < e
      decreases left
    {
      ghost var least := LeastDate(left);
      var d :| d in left && forall e :: e in left ==> d <= e;
      out := out + [d];
      left := left - {d};
    }
  }

  /** `setdefault(when, []).append(row)` over the rows that `keep` selects. */
  method GroupByDate(rows: seq<Row>, keep: Row -> bool) returns (groups: map<Date, seq<Row>>)
    ensures forall d :: d in groups <==> exists r :: r in rows && keep(r) && r.date == Some(d)
    ensures forall d :: d in groups ==>
              forall r :: r in groups[d] <==> r in rows && keep(r) && r.date == Some(d)
  {
    groups := map[];
    for i := 0 to |rows|
      invariant forall d :: d in groups <==> exists r :: r in rows[..i] && keep(r) && r.date == Some(d)
      invariant forall d :: d in groups ==>
                  forall r :: r in groups[d] <==> r in rows[..i] && keep(r) && r.date == Some(d)
    {
      var row := rows[i];
      assert rows[..i + 1] == rows[..i] + [row];
      if keep(row) && row.date.Some? {
        var when := row.date.value;
        groups := groups[when := (if when in groups then groups[when] else []) + [row]];
      }
    }
    assert rows[..|rows|] == rows;
  }

  lemma ConflictIsManyIdentities(rows: seq<Row>, found: seq<Row>, date: Date, mode: Option<string>)
    requires forall r :: r in found <==> r in rows && On(r, date, mode)
    ensures |Identities(found)| > 1 <==> Conflicted(rows, date, mode)
  {
    ManyIdentities(found);
  }

  lemma LastIsNewest(found: seq<Row>)
    requires Ordered(found, Stamp) && found != []
    ensures var last := found[|found| - 1];
            last in found && forall r :: r in found ==> KeyLe(r.stamp, last.stamp)
  {
    forall r | r in found ensures KeyLe(r.stamp, found[|found| - 1].stamp) {
      var i :| 0 <= i < |found| && found[i] == r;
    }
  }

  /** The dates, in order, whose rows disagree. */
  method KeepAmbiguous(dates: seq<Date>, byDate: map<Date, seq<Row>>) returns (out: seq<Date>)
    requires forall i, j :: 0 <= i < j < |dates| ==> dates[i] < dates[j]
    requires forall i :: 0 <= i < |dates| ==> dates[i] in byDate
    ensures forall i, j :: 0 <= i < j < |out| ==> out[i] < out[j]
    ensures forall d :: d in out <==> d in dates && d in byDate && |Identities(byDate[d])| > 1
  {
    out := [];
    for i := 0 to |dates|
      invariant forall j, k :: 0 <= j < k < |out| ==> out[j] < out[k]
      invariant forall j :: 0 <= j < |out| ==> i > 0 && out[j] <= dates[i - 1]
      invariant forall d :: d in out <==> d in dates[..i] && d in byDate && |Identities(byDate[d])| > 1
    {
      if |Identities(byDate[dates[i]])| > 1 {
        out := out + [dates[i]];
      }
    }
    assert dates[..|dates|] == dates;
  }

  lemma GroupedConflict(rows: seq<Row>, groups: map<Date, seq<Row>>, mode: Option<string>, d: Date)
    requires d in groups <==> exists r :: r in rows && InLineage(r, mode) && r.date == Some(d)
    requires d in groups ==> forall r :: r in groups[d] <==> r in rows && InLineage(r, mode) && r.date == Some(d)
    ensures Conflicted(rows, d, mode) <==> d in groups && |Identities(groups[d])| > 1
  {
    if d in groups {
      ManyIdentities(groups[d]);
    }
  }

  /** The date scan of `previous_run`. */
  method LatestEligible(rows: seq<Row>, before: Option<Date>, mode: Option<string>) returns (latest: Option<Date>)
    ensures latest.None? ==> forall row :: row in rows ==> !Eligible(row, before, mode)
    ensures latest.Some? ==> LatestDate(rows, before, mode, latest.value)
  {
    latest := None;
    for i := 0 to |rows|
      invariant latest.None? ==> forall row :: row in rows[..i] ==> !Eligible(row, before, mode)
      invariant latest.Some? ==> LatestDate(rows[..i], before, mode, latest.value)
    {
      var row := rows[i];
      assert rows[..i + 1] == rows[..i] + [row];
      if row.date.None? {
        continue;
      }
      var when := row.date.value;
      if before.Some? && when >= before.value {
        continue;
      }
      if mode.Some? && ModeOf(row) != mode.value {
        continue;
      }
      if latest.None? || when > latest.value {
        latest := Some(when);
      }
    }
    assert rows[..|rows|] == rows;
  }

  // ---- the open book ------------------------------------------------------------------

  /** The names a row leaves open: those it issued, then each name a hold directive adds. */
  function Carried(issued: seq<Ticker>, directives: seq<Directive>): seq<Ticker> {
    if directives == [] then issued
    else
      var before := Carried(issued, directives[..|directives| - 1]);
      var last := directives[|directives| - 1];
      if last.ticker != "" && last.ticker !in before && last.hold then before + [last.ticker] else before
  }

  ghost predicate HeldBy(directives: seq<Directive>, t: Ticker) {
    t != "" && Directive(t, true) in directives
  }

  lemma {:induction false} CarriedMembers(issued: seq<Ticker>, directives: seq<Directive>)
    ensures forall t :: t in Carried(issued, directives) <==> t in issued || HeldBy(directives, t)
    ensures Distinct(issued) ==> Distinct(Carried(issued, directives))
    ensures issued <= Carried(issued, directives)
  {
    if directives == [] {
    } else {
      var n := |directives| - 1;
      CarriedMembers(issued, directives[..n]);
      assert directives == directives[..n] + [directives[n]];
      assert forall t :: HeldBy(directives, t)
                         <==> HeldBy(directives[..n], t) || (t != "" && Directive(t, true) == directives[n]);
    }
  }

  /** `open_book` of what the lookup returned; an ambiguous history has no book. */
  function BookOf(found: Lookup): Result<seq<Ticker>, Lookup> {
    match found
    case Nothing => Ok([])
    case Found(row) => Ok(Carried(row.signals, row.directives))
    case _ => Err(found)
  }

  /** Reading the issued names alone gives the same book exactly when no hold directive
      adds a name to it. */
  lemma {:induction false} IssuedIsTheBookExactlyWhen(row: Row)
    ensures Carried(row.signals, row.directives) == row.signals
            <==> forall t :: HeldBy(row.directives, t) ==> t in row.signals
  {
    CarriedMembers(row.signals, row.directives);
    if forall t :: HeldBy(row.directives, t) ==> t in row.signals {
      NothingToCarry(row.signals, row.directives);
    }
  }

  lemma {:induction false} NothingToCarry(issued: seq<Ticker>, directives: seq<Directive>)
    requires forall t :: HeldBy(directives, t) ==> t in issued
    ensures Carried(issued, directives) == issued
  {
    if directives == [] {
    } else {
      var n := |directives| - 1;
      assert forall t :: HeldBy(directives[..n], t) ==> HeldBy(directives, t);
      NothingToCarry(issued, directives[..n]);
      assert directives[n] in directives;
      if directives[n].ticker != "" && directives[n].hold {
        assert HeldBy(directives, directives[n].ticker);
      }
    }
  }

  class Ledger {
    var files: seq<seq<Line>>

    constructor (lines: seq<seq<Line>>)
      ensures files == lines
    {
      files := lines;
    }

    /** `previous_run`. */
    method PreviousRun(before: Option<Date>, mode: Option<string>) returns (r: Lookup)
      ensures IsPrevious(r, Rows(files), before, mode)
    {
      var rows := Rows(files);
      var latest := LatestEligible(rows, before, mode);
      if latest.None? {
        return Nothing;
      }
      var found := SortBy(Filter(rows, latest.value, mode), Stamp);
      AnswerOfTheDate(rows, before, mode, latest.value);
      if found == [] {
        return Inconsistent;
      }
      if |Identities(found)| > 1 {
        return Ambiguous(latest.value, |found|);
      }
      return Found(found[|found| - 1]);
    }

    /** `open_book`. */
    method OpenBook(before: Option<Date>, mode: Option<string>) returns (book: Result<seq<Ticker>, Lookup>)
      ensures exists found :: IsPrevious(found, Rows(files), before, mode) && book == BookOf(found)
    {
      var found := PreviousRun(before, mode);
      if found.Nothing? {
        return Ok([]);
      }
      if !found.Found? {
        return Err(found);
      }
      var directives := found.row.directives;
      var names := found.row.signals;
      var seen := Elements(names);
      for i := 0 to |directives|
        invariant names == Carried(found.row.signals, directives[..i])
        invariant seen == Elements(names)
      {
        assert directives[..i + 1][..i] == directives[..i];
        var directive := directives[i];
        if directive.ticker == "" || directive.ticker in seen {
          continue;
        }
        if directive.hold {
          names := names + [directive.ticker];
          seen := seen + {directive.ticker};
        }
      }
      assert directives[..|directives|] == directives;
      book := Ok(names);
    }

    /** `conflicting_dates`. */
    method ConflictingDates(mode: Option<string>) returns (out: seq<Date>)
      ensures forall i, j :: 0 <= i < j < |out| ==> out[i] < out[j]
      ensures forall d :: d in out <==> Conflicted(Rows(files), d, mode)
    {
      var rows := Rows(files);
      var byDate := GroupByDate(rows, row => InLineage(row, mode));
      var dates := SortedDates(byDate.Keys);
      forall i | 0 <= i < |dates| ensures dates[i] in byDate {
        assert dates[i] in dates;
      }
      out := KeepAmbiguous(dates, byDate);
      forall d ensures d in out <==> Conflicted(rows, d, mode) {
        GroupedConflict(rows, byDate, mode, d);
      }
    }

    /** `repair_lineage`, with the tally it reports. */
    method RepairLineage(dryRun: bool) returns (quarantined: set<Date>, tally: Tally)
      modifies this
      ensures QuarantineOf(quarantined, old(Rows(files)))
      ensures files == if dryRun then old(files) else StampedFiles(old(files), quarantined)
      ensures tally == TallyOf(old(Rows(files)), quarantined)
      ensures Tallies(tally, old(Rows(files)), old(Rows(files)), |old(Rows(files))|)
      ensures !dryRun ==> AllRepaired(old(Rows(files)), Rows(files))
    {
      var rows := Rows(files);
      var byDay := GroupByDate(rows, row => Observed(row) == Some(LIVE));
      quarantined := set d | d in byDay && |Identities(byDay[d])| > 1;
      forall d ensures d in quarantined <==> Quarantines(rows, d) {
        if d in byDay {
          ManyIdentities(byDay[d]);
        }
        if a, b :| a in rows && b in rows && Disagree(a, b, d) {
          assert d in byDay;
        }
      }
      var out: seq<seq<Line>> := [];
      tally := Tally(0, 0, 0, 0, 0);
      for i := 0 to |files|
        invariant files == old(files)
        invariant out == StampedFiles(files[..i], quarantined)
        invariant tally == TallyOf(Rows(files[..i]), quarantined)
      {
        assert files[..i + 1][..i] == files[..i];
        var lines;
        lines, tally := RepairFile(files[i], quarantined, Rows(files[..i]), tally);
        out := out + [lines];
      }
      assert files[..|files|] == files;
      TallyMeans(rows, rows, quarantined, |rows|);
      assert rows[..|rows|] == rows;
      RepairMeans(files, quarantined);
      if !dryRun {
        files := out;
      }
    }

    method RepairFile(lines: seq<Line>, quarantined: set<Date>, ghost before: seq<Row>, sofar: Tally)
      returns (out: seq<Line>, tally: Tally)
      requires sofar == TallyOf(before, quarantined)
      ensures out == StampedLines(lines, quarantined)
      ensures tally == TallyOf(before + RowsOf(lines), quarantined)
    {
      out, tally := [], sofar;
      assert before + [] == before;
      for i := 0 to |lines|
        invariant out == StampedLines(lines[..i], quarantined)
        invariant tally == TallyOf(before + RowsOf(lines[..i]), quarantined)
      {
        assert lines[..i + 1][..i] == lines[..i];
        if lines[i].Parsed? {
          ghost var rows := before + RowsOf(lines[..i]);
          assert before + RowsOf(lines[..i + 1]) == rows + [lines[i].row];
          assert (rows + [lines[i].row])[..|rows|] == rows;
          tally := tally.Count(lines[i].row, quarantined);
        }
        var line := RepairLine(lines[i], quarantined);
        out := out + [line];
      }
      assert lines[..|lines|] == lines;
    }

    method RepairLine(line: Line, quarantined: set<Date>) returns (out: Line)
      ensures out == StampedLine(line, quarantined)
    {
      if line.Malformed? {
        return line;
      }
      var row := line.row;
      var target := Target(row, quarantined);
      if target.None? || ModeOf(row) == target.value {
        return line;
      }
      var note := REPAIR_NOTE + (if target.value == QUARANTINE then CONFLICT_NOTE else "");
      return Parsed(row.(mode := target.value, modeSource := note));
    }
  }

  datatype Tally = Tally(live: nat, replay: nat, quarantine: nat, correct: nat, undatable: nat)
  {
    function Count(row: Row, quarantined: set<Date>): Tally {
      var target := Target(row, quarantined);
      if target.None? then this.(undatable := undatable + 1)
      else
        var seen := if target.value == LIVE then this.(live := live + 1)
                    else if target.value == REPLAY then this.(replay := replay + 1)
                    else this.(quarantine := quarantine + 1);
        if ModeOf(row) == target.value then seen.(correct := seen.correct + 1) else seen
    }
  }

  function TallyOf(rows: seq<Row>, quarantined: set<Date>): Tally {
    if rows == [] then Tally(0, 0, 0, 0, 0)
    else TallyOf(rows[..|rows| - 1], quarantined).Count(rows[|rows| - 1], quarantined)
  }

  lemma StampedOneMore(rows: seq<Row>, quarantined: set<Date>)
    requires rows != []
    ensures var n := |rows| - 1;
            StampedRows(rows, quarantined) == rows
            <==> StampedRows(rows[..n], quarantined) == rows[..n] && Stamped(rows[n], quarantined) == rows[n]
  {
    var n := |rows| - 1;
    assert StampedRows(rows, quarantined) == StampedRows(rows[..n], quarantined) + [Stamped(rows[n], quarantined)];
    assert rows == rows[..n] + [rows[n]];
    if StampedRows(rows, quarantined) == rows {
      assert StampedRows(rows, quarantined)[..n] == StampedRows(rows[..n], quarantined);
      assert StampedRows(rows, quarantined)[n] == Stamped(rows[n], quarantined);
    }
  }

  lemma CountedOnce(before: Tally, row: Row, quarantined: set<Date>)
    ensures var t := before.Count(row, quarantined);
            && t.live + t.replay + t.quarantine + t.undatable
               == before.live + before.replay + before.quarantine + before.undatable + 1
            && t.correct + t.undatable == before.correct + before.undatable
               + (if Stamped(row, quarantined) == row then 1 else 0)
  {
    RewrittenWhen(row, quarantined);
  }

  /** Every row is counted once, and what is neither correct already nor undatable is
      what the repair rewrites. */
  lemma {:induction false} TallyAddsUp(rows: seq<Row>, quarantined: set<Date>)
    ensures var t := TallyOf(rows, quarantined);
            && t.live + t.replay + t.quarantine + t.undatable == |rows|
            && t.correct + t.undatable <= |rows|
            && (t.correct + t.undatable == |rows| <==> StampedRows(rows, quarantined) == rows)
  {
    if rows == [] {
    } else {
      var n := |rows| - 1;
      TallyAddsUp(rows[..n], quarantined);
      CountedOnce(TallyOf(rows[..n], quarantined), rows[n], quarantined);
      StampedOneMore(rows, quarantined);
    }
  }

  lemma RewrittenWhen(row: Row, quarantined: set<Date>)
    ensures Stamped(row, quarantined) == row
            <==> Target(row, quarantined).None? || ModeOf(row) == Target(row, quarantined).value
  {
    var target := Target(row, quarantined);
    if target.Some? && ModeOf(row) != target.value {
      assert target.value in {LIVE, REPLAY, QUARANTINE};
    }
  }

  lemma {:induction false} FoundRows(rows: seq<Row>, date: Date, mode: Option<string>)
    ensures var found := SortBy(Filter(rows, date, mode), Stamp);
            && |found| == |Filter(rows, date, mode)|
            && (forall r :: r in found <==> r in rows && On(r, date, mode))
            && Ordered(found, Stamp)
  {
    var kept := Filter(rows, date, mode);
    FilterFacts(rows, date, mode);
    SortFacts(kept, Stamp);
  }

  /** What the rows of the latest date answer: an ambiguity, or the newest of them. */
  lemma {:induction false} AnswerOfTheDate(rows: seq<Row>, before: Option<Date>, mode: Option<string>, date: Date)
    requires LatestDate(rows, before, mode, date)
    ensures var found := SortBy(Filter(rows, date, mode), Stamp);
            && found != []
            && IsPrevious(if |Identities(found)| > 1 then Ambiguous(date, |found|) else Found(found[|found| - 1]),
                          rows, before, mode)
  {
    var found := SortBy(Filter(rows, date, mode), Stamp);
    FoundRows(rows, date, mode);
    ConflictIsManyIdentities(rows, found, date, mode);
    if |Identities(found)| <= 1 {
      LastIsNewest(found);
      NewestIsLastOfItsStamp(rows, date, mode);
    }
  }

  // ---- the scans agree ------------------------------------------------------------------

  lemma LatestIsUnique(rows: seq<Row>, before: Option<Date>, mode: Option<string>, d: Date, e: Date)
    requires LatestDate(rows, before, mode, d) && LatestDate(rows, before, mode, e)
    ensures d == e
  {
  }

  /** The lookup is ambiguous exactly when the latest eligible date is one the
      diagnostic lists. */
  lemma {:induction false} AmbiguousExactlyWhen(r: Lookup, rows: seq<Row>, before: Option<Date>, mode: Option<string>)
    requires IsPrevious(r, rows, before, mode)
    ensures r.Ambiguous? <==> exists d :: LatestDate(rows, before, mode, d) && Conflicted(rows, d, mode)
  {
    if r.Found? {
      forall d | LatestDate(rows, before, mode, d) ensures !Conflicted(rows, d, mode) {
        LatestIsUnique(rows, before, mode, d, r.row.date.value);
      }
    }
  }

  lemma {:induction false} ReadableIsUnambiguous(files: seq<seq<Line>>, quarantined: set<Date>,
                                                 r: Lookup, before: Option<Date>)
    requires QuarantineOf(quarantined, Rows(files)) && StraysAgree(Rows(files), quarantined)
    requires IsPrevious(r, Rows(StampedFiles(files, quarantined)), before, Some(LIVE))
    ensures r.Nothing? || r.Found?
  {
    var after := Rows(StampedFiles(files, quarantined));
    ConflictFreeExactlyWhen(files, quarantined);
    assert forall d :: !Conflicted(Rows(StampedFiles(files, quarantined)), d, Some(LIVE));
    AmbiguousExactlyWhen(r, after, before, Some(LIVE));
  }

  /** A conflicted date is met by the lookup of the session after it. */
  lemma {:induction false} ConflictIsMet(rows: seq<Row>, date: Date, mode: Option<string>)
    requires Conflicted(rows, date, mode)
    ensures IsPrevious(Ambiguous(date, |Filter(rows, date, mode)|), rows, Some(date + 1), mode)
  {
    var a, b :| a in rows && b in rows && On(a, date, mode) && On(b, date, mode) && Identity(a) != Identity(b);
    assert Eligible(a, Some(date + 1), mode);
    assert LatestDate(rows, Some(date + 1), mode, date);
  }

  /** After a repair no lookup of live history is ambiguous, whatever session it asks about,
      if and only if the strays agree. */
  lemma {:induction false} RepairMakesLookupTotal(files: seq<seq<Line>>, quarantined: set<Date>)
    requires QuarantineOf(quarantined, Rows(files))
    ensures (forall r, before ::
               IsPrevious(r, Rows(StampedFiles(files, quarantined)), before, Some(LIVE)) ==> !r.Ambiguous?)
            <==> StraysAgree(Rows(files), quarantined)
  {
    var after := Rows(StampedFiles(files, quarantined));
    if StraysAgree(Rows(files), quarantined) {
      forall r, before | IsPrevious(r, after, before, Some(LIVE)) ensures !r.Ambiguous? {
        ReadableIsUnambiguous(files, quarantined, r, before);
      }
    } else {
      ConflictFreeExactlyWhen(files, quarantined);
      var d :| Conflicted(after, d, Some(LIVE));
      ConflictIsMet(after, d, Some(LIVE));
    }
  }

  /** Every question a lookup asks of the rows is about which rows there are. */
  lemma {:induction false} SameRowsSameQuestions(a: seq<Row>, b: seq<Row>, before: Option<Date>,
                                                 mode: Option<string>, d: Date)
    requires forall r :: r in a <==> r in b
    ensures LatestDate(a, before, mode, d) <==> LatestDate(b, before, mode, d)
    ensures Conflicted(a, d, mode) <==> Conflicted(b, d, mode)
  {
  }

  /** With distinct stamps the answer does not depend on the order of the rows. */
  lemma {:induction false} OrderDoesNotMatter(a: seq<Row>, b: seq<Row>, before: Option<Date>, mode: Option<string>,
                                              ra: Lookup, rb: Lookup)
    requires multiset(a) == multiset(b)
    requires forall x, y :: x in a && y in a && x.stamp == y.stamp ==> x == y
    requires IsPrevious(ra, a, before, mode) && IsPrevious(rb, b, before, mode)
    ensures ra == rb
  {
    forall r ensures r in a <==> r in b {
      assert r in multiset(a) <==> r in multiset(b);
    }
    forall d
      ensures LatestDate(a, before, mode, d) <==> LatestDate(b, before, mode, d)
      ensures Conflicted(a, d, mode) <==> Conflicted(b, d, mode)
    {
      SameRowsSameQuestions(a, b, before, mode, d);
    }
    AmbiguousExactlyWhen(ra, a, before, mode);
    AmbiguousExactlyWhen(rb, b, before, mode);
    if ra.Ambiguous? {
      LatestIsUnique(a, before, mode, ra.date, rb.date);
      FilterSize(a, b, ra.date, mode);
    } else if ra.Found? && rb.Found? {
      LatestIsUnique(a, before, mode, ra.row.date.value, rb.row.date.value);
    }
  }

  lemma {:induction false} FilterSize(a: seq<Row>, b: seq<Row>, date: Date, mode: Option<string>)
    requires multiset(a) == multiset(b)
    ensures |Filter(a, date, mode)| == |Filter(b, date, mode)|
    decreases |a|
  {
    if a != [] {
      var n := |a| - 1;
      var x := a[n];
      assert a == a[..n] + [x];
      assert x in multiset(b);
      var i :| 0 <= i < |b| && b[i] == x;
      var rest := b[..i] + b[i + 1..];
      assert b == b[..i] + [x] + b[i + 1..];
      assert multiset(rest) == multiset(b) - multiset{x};
      FilterSize(a[..n], rest, date, mode);
      FilterWithout(b, i, date, mode);
    } else {
      assert multiset(b) == multiset{};
      assert b == [];
    }
  }

  lemma {:induction false} FilterWithout(rows: seq<Row>, i: nat, date: Date, mode: Option<string>)
    requires i < |rows|
    ensures |Filter(rows, date, mode)|
            == |Filter(rows[..i] + rows[i + 1..], date, mode)| + (if On(rows[i], date, mode) then 1 else 0)
    decreases |rows|
  {
    var n := |rows| - 1;
    if i == n {
      assert rows[..i] + rows[i + 1..] == rows[..n];
    } else {
      FilterWithout(rows[..n], i, date, mode);
      var rest := rows[..i] + rows[i + 1..];
      assert rest[..|rest| - 1] == rows[..n][..i] + rows[..n][i + 1..];
    }
  }

  // ---- what the scans read, in terms of the rows alone ------------------------------------

  /** Rows are read file by file and line by line, and a line that does not parse is passed over. */
  lemma {:induction false} RowsOfConcat(a: seq<Line>, b: seq<Line>)
    ensures RowsOf(a + b) == RowsOf(a) + RowsOf(b)
  {
    if b == [] {
      assert a + b == a;
    } else {
      var n := |b| - 1;
      RowsOfConcat(a, b[..n]);
      assert (a + b)[..|a + b| - 1] == a + b[..n];
    }
  }

  lemma {:induction false} RowsConcat(a: seq<seq<Line>>, b: seq<seq<Line>>)
    ensures Rows(a + b) == Rows(a) + Rows(b)
  {
    if b == [] {
      assert a + b == a;
    } else {
      var n := |b| - 1;
      RowsConcat(a, b[..n]);
      assert (a + b)[..|a + b| - 1] == a + b[..n];
    }
  }

  lemma RowsOfOne(line: Line, lines: seq<Line>)
    ensures RowsOf([line]) == if line.Parsed? then [line.row] else []
    ensures Rows([lines]) == RowsOf(lines)
  {
    assert [line][..0] == [];
    assert [lines][..0] == [];
  }

  /** Recorded on the day it scores or the day after. */
  ghost predicate OnTime(row: Row) {
    row.date.Some? && row.loggedDay.Some? && 0 <= row.loggedDay.value - row.date.value <= 1
  }

  ghost predicate Late(row: Row) {
    row.date.Some? && row.loggedDay.Some? && row.loggedDay.value - row.date.value > 1
  }

  /** The names held, in any order, or the names shown, in order, differ. */
  ghost predicate DifferentBooks(a: Row, b: Row) {
    multiset(a.signals) != multiset(b.signals) || a.slate != b.slate
  }

  ghost predicate DayDisagrees(rows: seq<Row>, date: Date) {
    exists a, b :: a in rows && b in rows && a.date == b.date == Some(date) && OnTime(a) && OnTime(b)
                   && DifferentBooks(a, b)
  }

  /** The lineage a row's time stamps prove, if they prove one. */
  ghost function Proven(rows: seq<Row>, row: Row): Option<string> {
    if Late(row) then Some("replay")
    else if !OnTime(row) then None
    else if DayDisagrees(rows, row.date.value) then Some("quarantine")
    else Some("live")
  }

  ghost predicate FiledAs(row: Row, mode: string) {
    if row.mode == "" then mode == "live" else row.mode == mode
  }

  lemma QuarantineMeans(rows: seq<Row>, date: Date)
    ensures Quarantines(rows, date) <==> DayDisagrees(rows, date)
  {
    if a, b :| a in rows && b in rows && Disagree(a, b, date) {
      assert OnTime(a) && OnTime(b) && DifferentBooks(a, b);
    }
    if a, b :| a in rows && b in rows && a.date == b.date == Some(date) && OnTime(a) && OnTime(b)
               && DifferentBooks(a, b) {
      assert Disagree(a, b, date);
    }
  }

  lemma TargetMeans(rows: seq<Row>, quarantined: set<Date>, row: Row)
    requires QuarantineOf(quarantined, rows)
    ensures Target(row, quarantined) == Proven(rows, row)
  {
    if row.date.Some? {
      QuarantineMeans(rows, row.date.value);
    }
  }

  /** A row is rewritten exactly when it proves a lineage it is not filed as, and then only its
      mode and the note that says why. */
  ghost predicate IsRepaired(rows: seq<Row>, row: Row, after: Row) {
    var proven := Proven(rows, row);
    if proven.None? || FiledAs(row, proven.value) then after == row
    else
      && after.mode == proven.value
      && after.modeSource == NoteOf(proven.value)
      && after.date == row.date && after.loggedDay == row.loggedDay && after.stamp == row.stamp
      && after.signals == row.signals && after.slate == row.slate && after.directives == row.directives
      && after.rest == row.rest
  }

  ghost predicate AllRepaired(rows: seq<Row>, after: seq<Row>) {
    |after| == |rows| && forall i :: 0 <= i < |rows| ==> IsRepaired(rows, rows[i], after[i])
  }

  /** What the repair makes of every row. */
  lemma {:induction false} RepairMeans(files: seq<seq<Line>>, quarantined: set<Date>)
    requires QuarantineOf(quarantined, Rows(files))
    ensures AllRepaired(Rows(files), Rows(StampedFiles(files, quarantined)))
  {
    RowsOfStampedFiles(files, quarantined);
    var rows := Rows(files);
    forall i | 0 <= i < |rows| ensures IsRepaired(rows, rows[i], Stamped(rows[i], quarantined)) {
      RowIsRepaired(rows, quarantined, rows[i]);
    }
  }

  lemma RowIsRepaired(rows: seq<Row>, quarantined: set<Date>, row: Row)
    requires QuarantineOf(quarantined, rows)
    ensures IsRepaired(rows, row, Stamped(row, quarantined))
  {
    TargetMeans(rows, quarantined, row);
  }

  ghost function NoteOf(mode: string): string {
    "repair_lineage: logged_at vs date"
    + (if mode == "quarantine" then "; same-day runs disagree about the book" else "")
  }

  /** Every line keeps its file and its place, and one that does not parse its text. */
  lemma LinesKeepTheirPlace(files: seq<seq<Line>>, quarantined: set<Date>)
    ensures var after := StampedFiles(files, quarantined);
            && |after| == |files|
            && forall i, j :: 0 <= i < |files| ==>
                 && |after[i]| == |files[i]|
                 && (0 <= j < |files[i]| && files[i][j].Malformed? ==> after[i][j] == files[i][j])
                 && (0 <= j < |files[i]| && files[i][j].Parsed? ==> after[i][j].Parsed?)
  {
  }

  /** The rows of `rows` before `n` that prove the lineage. */
  ghost function Proving(all: seq<Row>, rows: seq<Row>, n: nat, mode: string): set<nat>
    requires n <= |rows|
  {
    set i: nat | i < n && Proven(all, rows[i]) == Some(mode)
  }

  ghost predicate IsFiledRight(all: seq<Row>, row: Row) {
    Proven(all, row).Some? && FiledAs(row, Proven(all, row).value)
  }

  ghost function FiledRight(all: seq<Row>, rows: seq<Row>, n: nat): set<nat>
    requires n <= |rows|
  {
    set i: nat | i < n && IsFiledRight(all, rows[i])
  }

  ghost function Unproven(all: seq<Row>, rows: seq<Row>, n: nat): set<nat>
    requires n <= |rows|
  {
    set i: nat | i < n && Proven(all, rows[i]).None?
  }

  ghost predicate Tallies(t: Tally, all: seq<Row>, rows: seq<Row>, n: nat)
    requires n <= |rows|
  {
    && t.live == |Proving(all, rows, n, "live")|
    && t.replay == |Proving(all, rows, n, "replay")|
    && t.quarantine == |Proving(all, rows, n, "quarantine")|
    && t.correct == |FiledRight(all, rows, n)|
    && t.undatable == |Unproven(all, rows, n)|
  }

  lemma OneMore(all: seq<Row>, rows: seq<Row>, n: nat, mode: string)
    requires n < |rows|
    ensures |Proving(all, rows, n + 1, mode)| == |Proving(all, rows, n, mode)|
                                                 + (if Proven(all, rows[n]) == Some(mode) then 1 else 0)
  {
    assert Proving(all, rows, n + 1, mode)
           == Proving(all, rows, n, mode) + (if Proven(all, rows[n]) == Some(mode) then {n} else {});
  }

  lemma OneMoreFiled(all: seq<Row>, rows: seq<Row>, n: nat)
    requires n < |rows|
    ensures |FiledRight(all, rows, n + 1)| == |FiledRight(all, rows, n)| + (if IsFiledRight(all, rows[n]) then 1 else 0)
  {
    assert FiledRight(all, rows, n + 1)
           == FiledRight(all, rows, n) + (if IsFiledRight(all, rows[n]) then {n} else {});
  }

  lemma OneMoreUnproven(all: seq<Row>, rows: seq<Row>, n: nat)
    requires n < |rows|
    ensures |Unproven(all, rows, n + 1)| == |Unproven(all, rows, n)| + (if Proven(all, rows[n]).None? then 1 else 0)
  {
    assert Unproven(all, rows, n + 1) == Unproven(all, rows, n) + (if Proven(all, rows[n]).None? then {n} else {});
  }

  /** The tally counts, for each lineage, the rows that prove it, those of them filed so already,
      and the rows that prove none. */
  lemma {:induction false} TallyMeans(all: seq<Row>, rows: seq<Row>, quarantined: set<Date>, n: nat)
    requires QuarantineOf(quarantined, all) && n <= |rows|
    ensures Tallies(TallyOf(rows[..n], quarantined), all, rows, n)
  {
    if n == 0 {
      assert Proving(all, rows, 0, "live") == {} && Proving(all, rows, 0, "replay") == {};
      assert Proving(all, rows, 0, "quarantine") == {};
      assert FiledRight(all, rows, 0) == {} && Unproven(all, rows, 0) == {};
    } else {
      TallyMeans(all, rows, quarantined, n - 1);
      assert rows[..n][..n - 1] == rows[..n - 1];
      TargetMeans(all, quarantined, rows[n - 1]);
      OneMore(all, rows, n - 1, "live");
      OneMore(all, rows, n - 1, "replay");
      OneMore(all, rows, n - 1, "quarantine");
      OneMoreFiled(all, rows, n - 1);
      OneMoreUnproven(all, rows, n - 1);
    }
  }

  /** A run of the date, in the lineage asked for if one is. */
  ghost predicate IsRunOf(row: Row, date: Date, mode: Option<string>) {
    row.date == Some(date) && (mode.Some? ==> FiledAs(row, mode.value))
  }

  lemma ConflictMeans(rows: seq<Row>, date: Date, mode: Option<string>)
    ensures Conflicted(rows, date, mode)
            <==> exists a, b :: a in rows && b in rows && IsRunOf(a, date, mode) && IsRunOf(b, date, mode)
                                && DifferentBooks(a, b)
  {
    assert forall row :: On(row, date, mode) <==> IsRunOf(row, date, mode);
  }

  /** The latest date before the one given on which there is a run of the lineage. */
  ghost predicate IsLatest(rows: seq<Row>, before: Option<Date>, mode: Option<string>, date: Date) {
    && (exists row :: row in rows && IsRunOf(row, date, mode))
    && (before.Some? ==> date < before.value)
    && forall row, e :: row in rows && IsRunOf(row, e, mode) && (before.Some? ==> e < before.value) ==> e <= date
  }

  lemma LatestMeans(rows: seq<Row>, before: Option<Date>, mode: Option<string>, date: Date)
    ensures LatestDate(rows, before, mode, date) <==> IsLatest(rows, before, mode, date)
  {
    assert forall row, e :: Eligible(row, before, mode) && row.date == Some(e)
                            <==> IsRunOf(row, e, mode) && (before.Some? ==> e < before.value);
  }

  ghost function RunsOf(rows: seq<Row>, n: nat, date: Date, mode: Option<string>): set<nat>
    requires n <= |rows|
  {
    set i: nat | i < n && IsRunOf(rows[i], date, mode)
  }

  lemma {:induction false} FilterCounts(rows: seq<Row>, n: nat, date: Date, mode: Option<string>)
    requires n <= |rows|
    ensures |Filter(rows[..n], date, mode)| == |RunsOf(rows, n, date, mode)|
  {
    if n == 0 {
      assert RunsOf(rows, n, date, mode) == {};
    } else {
      FilterCounts(rows, n - 1, date, mode);
      assert rows[..n][..n - 1] == rows[..n - 1];
      var last: set<nat> := if IsRunOf(rows[n - 1], date, mode) then {n - 1} else {};
      assert RunsOf(rows, n, date, mode) == RunsOf(rows, n - 1, date, mode) + last;
      assert On(rows[n - 1], date, mode) <==> IsRunOf(rows[n - 1], date, mode);
    }
  }

  /** What the lookup answers, from the rows alone. */
  lemma {:induction false} PreviousRunMeans(r: Lookup, rows: seq<Row>, before: Option<Date>, mode: Option<string>)
    requires IsPrevious(r, rows, before, mode)
    ensures match r
            case Nothing => forall row, d :: row in rows && IsRunOf(row, d, mode) ==> before.Some? && d >= before.value
            case Found(row) =>
              && row in rows && row.date.Some? && IsRunOf(row, row.date.value, mode)
              && IsLatest(rows, before, mode, row.date.value)
              && (forall other :: other in rows && IsRunOf(other, row.date.value, mode) ==>
                    && !DifferentBooks(other, row)
                    && (other.stamp.0 < row.stamp.0 || (other.stamp.0 == row.stamp.0 && other.stamp.1 <= row.stamp.1)))
              && exists i :: 0 <= i < |rows| && rows[i] == row
                             && forall j :: i < j < |rows| && IsRunOf(rows[j], row.date.value, mode) ==>
                                  rows[j].stamp != row.stamp
            case Ambiguous(date, runs) =>
              && IsLatest(rows, before, mode, date)
              && (exists a, b :: a in rows && b in rows && IsRunOf(a, date, mode) && IsRunOf(b, date, mode)
                                 && DifferentBooks(a, b))
              && runs == |RunsOf(rows, |rows|, date, mode)|
            case Inconsistent => false
  {
    match r
    case Nothing =>
      assert forall row, d :: row in rows && IsRunOf(row, d, mode) && (before.Some? ==> d < before.value) ==>
                                Eligible(row, before, mode);
    case Found(row) =>
      LatestMeans(rows, before, mode, row.date.value);
      ConflictMeans(rows, row.date.value, mode);
      assert forall other :: On(other, row.date.value, mode) <==> IsRunOf(other, row.date.value, mode);
    case Ambiguous(date, _) =>
      LatestMeans(rows, before, mode, date);
      ConflictMeans(rows, date, mode);
      FilterCounts(rows, |rows|, date, mode);
      assert rows[..|rows|] == rows;
    case Inconsistent =>
  }

  /** Directives are read one by one: a hold of a name not yet listed adds it at the end. */
  lemma {:induction false} CarriedStepByStep(issued: seq<Ticker>, a: seq<Directive>, b: seq<Directive>, d: Directive)
    ensures Carried(issued, a + b) == Carried(Carried(issued, a), b)
    ensures Carried(issued, [d])
            == if d.hold && d.ticker != "" && d.ticker !in issued then issued + [d.ticker] else issued
  {
    if b == [] {
      assert a + b == a;
    } else {
      var n := |b| - 1;
      CarriedStepByStep(issued, a, b[..n], d);
      assert (a + b)[..|a + b| - 1] == a + b[..n];
    }
    assert [d][..0] == [];
  }
}
