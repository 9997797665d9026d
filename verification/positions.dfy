/** Positions a run never reached: how each is reviewed (positions.py,
    pipeline.py) and what the next run reads back as its open book. */
module OpenPositions {
  import opened Calendar
  import opened Common
  import opened Ledgers

  /** One stored session of a name; a missing close or volume is `None`. */
  datatype Print = Print(date: Calendar.Date, close: Option<real>, volume: Option<real>)

  predicate Traded(p: Print) {
    p.close.Some? && p.volume.Some? && p.volume.value > 0.0
  }

  ghost predicate InDateOrder(prints: seq<Print>) {
    forall i, j :: 0 <= i < j < |prints| ==> prints[i].date < prints[j].date
  }

  /** The latest traded session among those read. */
  function LastTraded(prints: seq<Print>, from: Calendar.Date, to: Calendar.Date): Option<Calendar.Date> {
    if prints == [] then None
    else
      var last := prints[|prints| - 1];
      if from <= last.date <= to && Traded(last) then Some(last.date)
      else LastTraded(prints[..|prints| - 1], from, to)
  }

  const SUSPENSION_SESSIONS := 5
  const DELISTING_SESSIONS := 30
  const LOOKBACK_SESSIONS := 90

  datatype Event = NoEvent | Reconstitution | Suspension | Delisting

  datatype Action = Hold | HoldAndFlag | ForceExit

  datatype Review = Review(event: Event, action: Action)

  function ReviewPosition(last: Option<Calendar.Date>, asOf: Calendar.Date, inUniverse: bool,
                          sessions: seq<Calendar.Date>, delisted: bool): Review {
    var gap := if last.None? then 0 else CountBetween(sessions, last.value, asOf);
    if delisted || gap >= DELISTING_SESSIONS then Review(Delisting, ForceExit)
    else if gap >= SUSPENSION_SESSIONS then Review(Suspension, HoldAndFlag)
    else if !inUniverse then Review(Reconstitution, HoldAndFlag)
    else Review(NoEvent, Hold)
  }

  /** How many sessions there are no later than `day`. */
  function UpTo(sessions: seq<Calendar.Date>, day: Calendar.Date): (n: nat)
    ensures n <= |sessions|
  {
    if sessions == [] then 0
    else if sessions[|sessions| - 1] <= day then |sessions|
    else UpTo(sessions[..|sessions| - 1], day)
  }

  /** First session of the price history read for the review. */
  function ReadFrom(sessions: seq<Calendar.Date>, asOf: Calendar.Date): Calendar.Date
    requires sessions != []
  {
    var end := UpTo(sessions, asOf);
    sessions[if end == 0 then 0 else MaxInt(0, end - LOOKBACK_SESSIONS)]
  }

  /** Everything the review of one run looks at. */
  datatype Day = Day(
    asOf: Calendar.Date,
    stamp: (int, int),
    slate: seq<Ticker>,
    buys: seq<Ticker>,
    watch: seq<Ticker>,
    universe: set<Ticker>,
    sessions: seq<Calendar.Date>,
    prices: map<Ticker, seq<Print>>)

  function ReviewOf(t: Ticker, day: Day): Review {
    var prints := if t in day.prices then day.prices[t] else [];
    var last := if day.sessions == [] then None
                else LastTraded(prints, ReadFrom(day.sessions, day.asOf), day.asOf);
    ReviewPosition(last, day.asOf, t in day.universe, day.sessions, false)
  }

  function DirectiveFor(t: Ticker, day: Day): Directive {
    Directive(t, ReviewOf(t, day).action != ForceExit)
  }

  /** Names of the book that are neither bought nor watched, each once, in book order. */
  function Orphans(book: seq<Ticker>, day: Day): seq<Ticker> {
    if book == [] then []
    else
      var before := Orphans(book[..|book| - 1], day);
      var last := book[|book| - 1];
      if last in before || last in day.buys || last in day.watch then before else before + [last]
  }

  function Directives(orphans: seq<Ticker>, day: Day): seq<Directive> {
    seq(|orphans|, i requires 0 <= i < |orphans| => DirectiveFor(orphans[i], day))
  }

  lemma {:induction false} OrphanMembers(book: seq<Ticker>, day: Day)
    ensures forall t :: t in Orphans(book, day) <==> t in book && t !in day.buys && t !in day.watch
    ensures Distinct(Orphans(book, day))
  {
    if book == [] {
    } else {
      var n := |book| - 1;
      OrphanMembers(book[..n], day);
      assert book == book[..n] + [book[n]];
    }
  }

  /** Orphans stand in the order of the book, each where it first appears. */
  lemma {:induction false} OrphansInBookOrder(book: seq<Ticker>, t: Ticker, day: Day)
    ensures Orphans([], day) == []
    ensures Orphans(book + [t], day)
            == if t in book || t in day.buys || t in day.watch then Orphans(book, day) else Orphans(book, day) + [t]
  {
    OrphanMembers(book, day);
    assert (book + [t])[..|book|] == book;
  }

  /** `_review_open_positions`: one directive for every orphan, in book order. */
  method ReviewOpenPositions(book: seq<Ticker>, day: Day) returns (out: seq<Directive>)
    ensures out == Directives(Orphans(book, day), day)
  {
    var orphans := [];
    for i := 0 to |book|
      invariant orphans == Orphans(book[..i], day)
    {
      assert book[..i + 1][..i] == book[..i];
      if book[i] !in orphans && book[i] !in day.buys && book[i] !in day.watch {
        orphans := orphans + [book[i]];
      }
    }
    assert book[..|book|] == book;
    out := [];
    for i := 0 to |orphans|
      invariant |out| == i
      invariant forall k :: 0 <= k < i ==> out[k] == DirectiveFor(orphans[k], day)
    {
      out := out + [DirectiveFor(orphans[i], day)];
    }
  }

  // ---- when a silent name is exited -----------------------------------------------------

  /** Session `j` is the last one no later than `day`. */
  ghost predicate LastSession(sessions: seq<Calendar.Date>, j: nat, day: Calendar.Date) {
    && Increasing(sessions) && j < |sessions|
    && sessions[j] <= day && (j + 1 < |sessions| ==> day < sessions[j + 1])
  }

  lemma {:induction false} UpToSession(sessions: seq<Calendar.Date>, j: nat, day: Calendar.Date)
    requires LastSession(sessions, j, day)
    ensures UpTo(sessions, day) == j + 1
  {
    if j < |sessions| - 1 {
      UpToSession(sessions[..|sessions| - 1], j, day);
    }
  }

  /** A close, and a volume above zero. */
  ghost predicate Printed(p: Print) {
    p.close.Some? && p.volume.Some? && p.volume.value > 0.0
  }

  /** The name last traded on the session of print `k`, as far as `asOf` can see. */
  ghost predicate SilentSince(prints: seq<Print>, k: nat, asOf: Calendar.Date) {
    && k < |prints| && Printed(prints[k]) && prints[k].date <= asOf
    && forall later :: k < later < |prints| && prints[later].date <= asOf ==> !Printed(prints[later])
  }

  lemma {:induction false} LastTradedIs(prints: seq<Print>, k: nat, from: Calendar.Date, to: Calendar.Date)
    requires InDateOrder(prints) && SilentSince(prints, k, to)
    ensures LastTraded(prints, from, to) == if from <= prints[k].date then Some(prints[k].date) else None
  {
    var n := |prints| - 1;
    if k < n {
      LastTradedIs(prints[..n], k, from, to);
    } else if prints[k].date < from {
      NothingRead(prints[..n], from, to);
    }
  }

  lemma {:induction false} NothingRead(prints: seq<Print>, from: Calendar.Date, to: Calendar.Date)
    requires forall i :: 0 <= i < |prints| ==> prints[i].date < from
    ensures LastTraded(prints, from, to) == None
  {
    if prints == [] {
    } else {
      NothingRead(prints[..|prints| - 1], from, to);
    }
  }

  /** What a name silent for `silence` sessions is told: exited from the thirtieth session
      on, suspended from the fifth, and only then asked whether it left the universe. Past
      the ninety sessions read there is no print left to measure from, and the silence
      reads as none at all. */
  function ReviewAfter(silence: nat, inUniverse: bool): Review {
    if 30 <= silence < 90 then Review(Delisting, ForceExit)
    else if 5 <= silence < 30 then Review(Suspension, HoldAndFlag)
    else if inUniverse then Review(NoEvent, Hold)
    else Review(Reconstitution, HoldAndFlag)
  }

  /** The review counts the sessions after the last print up to today; a print older than the
      ninety sessions read is not seen. */
  lemma {:induction false} ReviewMeans(t: Ticker, day: Day, k: nat, j: nat)
    requires LastSession(day.sessions, j, day.asOf)
    requires t in day.prices && InDateOrder(day.prices[t]) && SilentSince(day.prices[t], k, day.asOf)
    ensures var last := day.prices[t][k].date;
            var silence := if last < day.sessions[if j < 90 then 0 else j - 89] then 0
                           else |Between(day.sessions, |day.sessions|, last, day.asOf)|;
            ReviewOf(t, day) == if silence >= 30 then Review(Delisting, ForceExit)
                                else if silence >= 5 then Review(Suspension, HoldAndFlag)
                                else if t !in day.universe then Review(Reconstitution, HoldAndFlag)
                                else Review(NoEvent, Hold)
  {
    UpToSession(day.sessions, j, day.asOf);
    var from := ReadFrom(day.sessions, day.asOf);
    LastTradedIs(day.prices[t], k, from, day.asOf);
    CountIsNumber(day.sessions, |day.sessions|, day.prices[t][k].date, day.asOf);
    assert day.sessions[..|day.sessions|] == day.sessions;
  }

  /** The review measures silence on the calendar: session `j` today, session `i` the last
      on which the name traded. */
  lemma {:induction false} ReviewMeasuresSilence(t: Ticker, day: Day, k: nat, i: nat, j: nat)
    requires i <= j && LastSession(day.sessions, j, day.asOf)
    requires t in day.prices && InDateOrder(day.prices[t])
    requires SilentSince(day.prices[t], k, day.asOf) && day.prices[t][k].date == day.sessions[i]
    ensures ReviewOf(t, day) == ReviewAfter(j - i, t in day.universe)
  {
    UpToSession(day.sessions, j, day.asOf);
    var from := ReadFrom(day.sessions, day.asOf);
    LastTradedIs(day.prices[t], k, from, day.asOf);
    CountIsDistance(day.sessions, i, j, day.asOf);
  }

  /** A silent name is exited exactly while its silence is long enough and can still be seen. */
  lemma {:induction false} ExitedExactlyWhen(t: Ticker, day: Day, k: nat, i: nat, j: nat)
    requires i <= j && LastSession(day.sessions, j, day.asOf)
    requires t in day.prices && InDateOrder(day.prices[t])
    requires SilentSince(day.prices[t], k, day.asOf) && day.prices[t][k].date == day.sessions[i]
    ensures ReviewOf(t, day).action == ForceExit <==> 30 <= j - i < 90
  {
    ReviewMeasuresSilence(t, day, k, i, j);
  }

  /** None of the sessions read traded. */
  ghost predicate SilentThroughout(prints: seq<Print>, from: Calendar.Date, to: Calendar.Date) {
    forall i :: 0 <= i < |prints| && from <= prints[i].date <= to ==> !Printed(prints[i])
  }

  lemma {:induction false} NothingTraded(prints: seq<Print>, from: Calendar.Date, to: Calendar.Date)
    ensures LastTraded(prints, from, to).None? <==> SilentThroughout(prints, from, to)
  {
    if prints == [] {
    } else {
      NothingTraded(prints[..|prints| - 1], from, to);
      assert forall i :: 0 <= i < |prints| - 1 ==> prints[..|prints| - 1][i] == prints[i];
    }
  }

  /** A name with no price history, or none of it traded among the sessions read, is reviewed
      as if it had traded today and is never exited. */
  lemma {:induction false} NoHistoryIsHeld(t: Ticker, day: Day)
    requires t in day.prices && day.sessions != [] ==>
               SilentThroughout(day.prices[t], ReadFrom(day.sessions, day.asOf), day.asOf)
    ensures ReviewOf(t, day) == (if t in day.universe then Review(NoEvent, Hold)
                                 else Review(Reconstitution, HoldAndFlag))
  {
    if t in day.prices && day.sessions != [] {
      NothingTraded(day.prices[t], ReadFrom(day.sessions, day.asOf), day.asOf);
    } else if day.sessions != [] {
      NothingTraded([], ReadFrom(day.sessions, day.asOf), day.asOf);
    }
  }

  /** Prices are read from ninety sessions back, today's among them, or from the first session. */
  lemma ReadFromMeans(sessions: seq<Calendar.Date>, j: nat, asOf: Calendar.Date)
    requires LastSession(sessions, j, asOf)
    ensures ReadFrom(sessions, asOf) == sessions[if j < 90 then 0 else j - 89]
  {
    UpToSession(sessions, j, asOf);
  }

  // ---- no position is lost between runs ---------------------------------------------------

  /** The run leaves `t` where it was: no card, no forced exit. */
  ghost predicate LeftOpen(t: Ticker, day: Day) {
    t != "" && t !in day.watch && ReviewOf(t, day).action != ForceExit
  }

  /** The row a run records about its book. */
  function RowFor(day: Day, book: seq<Ticker>): Row {
    Row(Some(day.asOf), Some(day.asOf), day.stamp, LIVE, "", day.buys, day.slate,
        Directives(Orphans(book, day), day), "")
  }

  function NextBook(book: seq<Ticker>, day: Day): seq<Ticker> {
    Carried(day.buys, Directives(Orphans(book, day), day))
  }

  function BookAfter(days: seq<Day>): seq<Ticker> {
    if days == [] then [] else NextBook(BookAfter(days[..|days| - 1]), days[|days| - 1])
  }

  /** One run: bought today, or held already and left open. */
  lemma {:induction false} NextBookMembers(book: seq<Ticker>, day: Day, t: Ticker)
    ensures t in NextBook(book, day) <==> t in day.buys || (t in book && LeftOpen(t, day))
  {
    var orphans := Orphans(book, day);
    var directives := Directives(orphans, day);
    CarriedMembers(day.buys, directives);
    OrphanMembers(book, day);
    if t in orphans {
      var i :| 0 <= i < |orphans| && orphans[i] == t;
      assert directives[i] in directives;
    }
    if Directive(t, true) in directives {
      var i :| 0 <= i < |directives| && directives[i] == Directive(t, true);
      assert orphans[i] == t;
    }
  }

  ghost predicate HeldThrough(t: Ticker, days: seq<Day>, i: nat) {
    && i < |days| && t in days[i].buys
    && forall k :: i < k < |days| ==> t in days[k].buys || LeftOpen(t, days[k])
  }

  lemma {:induction false} HeldOneMore(days: seq<Day>, t: Ticker, i: nat)
    requires days != []
    ensures HeldThrough(t, days, i)
            <==> (i == |days| - 1 && t in days[i].buys)
                 || (HeldThrough(t, days[..|days| - 1], i)
                     && (t in days[|days| - 1].buys || LeftOpen(t, days[|days| - 1])))
  {
    var n := |days| - 1;
    var rest := days[..n];
    if i < n && HeldThrough(t, rest, i) && (t in days[n].buys || LeftOpen(t, days[n])) {
      forall k | i < k < |days| ensures t in days[k].buys || LeftOpen(t, days[k]) {
        assert k < n ==> rest[k] == days[k];
      }
    }
    if i < n && HeldThrough(t, days, i) {
      forall k | i < k < n ensures t in rest[k].buys || LeftOpen(t, rest[k]) {
        assert rest[k] == days[k];
      }
    }
  }

  /** Over any run history a name is in the open book exactly when some run bought it and
      every later run bought it again or left it open: none leaves by omission. */
  lemma {:induction false} HeldExactlyWhen(days: seq<Day>, t: Ticker)
    ensures t in BookAfter(days) <==> exists i: nat :: HeldThrough(t, days, i)
  {
    if days == [] {
    } else {
      var n := |days| - 1;
      var rest := days[..n];
      HeldExactlyWhen(rest, t);
      NextBookMembers(BookAfter(rest), days[n], t);
      forall i: nat
        ensures HeldThrough(t, days, i)
                <==> (i == n && t in days[i].buys)
                     || (HeldThrough(t, rest, i) && (t in days[n].buys || LeftOpen(t, days[n])))
      {
        HeldOneMore(days, t, i);
      }
      assert t in days[n].buys ==> HeldThrough(t, days, n);
    }
  }

  // ---- what the ledger makes of it --------------------------------------------------------

  /** The runs recorded for one session: a run may be repeated, under another stamp. */
  ghost predicate IsSession(runs: seq<Day>) {
    && runs != []
    && (forall i, j :: 0 <= i < |runs| && 0 <= j < |runs| ==> runs[i].asOf == runs[j].asOf)
    && (forall i, j :: 0 <= i < j < |runs| ==> runs[i].stamp != runs[j].stamp)
  }

  /** The runs of a session describe one state. */
  ghost predicate Agree(runs: seq<Day>) {
    forall i, j :: 0 <= i < |runs| && 0 <= j < |runs| ==>
      multiset(runs[i].buys) == multiset(runs[j].buys) && runs[i].slate == runs[j].slate
  }

  /** The run that stands for the session: the one with the latest stamp. */
  function Standing(runs: seq<Day>): (day: Day)
    requires runs != []
    ensures day in runs && forall i :: 0 <= i < |runs| ==> KeyLe(runs[i].stamp, day.stamp)
  {
    var n := |runs| - 1;
    if n == 0 then runs[0]
    else
      var before := Standing(runs[..n]);
      if KeyLe(before.stamp, runs[n].stamp) then runs[n] else before
  }

  ghost predicate Recorded(sessions: seq<seq<Day>>) {
    && (forall k :: 0 <= k < |sessions| ==> IsSession(sessions[k]))
    && (forall k, l :: 0 <= k < l < |sessions| ==> sessions[k][0].asOf < sessions[l][0].asOf)
  }

  function Standings(sessions: seq<seq<Day>>): seq<Day>
    requires forall k :: 0 <= k < |sessions| ==> sessions[k] != []
  {
    seq(|sessions|, k requires 0 <= k < |sessions| => Standing(sessions[k]))
  }

  function RowsOfSession(runs: seq<Day>, book: seq<Ticker>): seq<Row> {
    seq(|runs|, i requires 0 <= i < |runs| => RowFor(runs[i], book))
  }

  /** The rows a history of runs appends to the ledger: every run of a session starts from the
      book that the sessions before it left. */
  function RowsAfter(sessions: seq<seq<Day>>): seq<Row>
    requires forall k :: 0 <= k < |sessions| ==> sessions[k] != []
  {
    if sessions == [] then []
    else
      var n := |sessions| - 1;
      RowsAfter(sessions[..n]) + RowsOfSession(sessions[n], BookAfter(Standings(sessions[..n])))
  }

  /** What a run records is dated its own session and filed as live, by a row that proves it. */
  lemma RecordedRow(day: Day, book: seq<Ticker>)
    ensures var row := RowFor(day, book);
            && OnTime(row) && FiledAs(row, "live") && IsRunOf(row, day.asOf, Some("live"))
            && row.stamp == day.stamp && row.signals == day.buys && row.slate == day.slate
  {
  }

  lemma {:induction false} RowDates(sessions: seq<seq<Day>>, r: Row)
    requires Recorded(sessions) && r in RowsAfter(sessions)
    ensures sessions != [] && r.date.Some? && r.date.value <= sessions[|sessions| - 1][0].asOf
    ensures r.date.value == sessions[|sessions| - 1][0].asOf ==>
              r in RowsOfSession(sessions[|sessions| - 1], BookAfter(Standings(sessions[..|sessions| - 1])))
  {
    var n := |sessions| - 1;
    if r in RowsAfter(sessions[..n]) {
      RowDates(sessions[..n], r);
    }
  }

  /** The rows of the last session are the rows of the latest eligible date. */
  lemma {:induction false} LastSessionIsLatest(sessions: seq<seq<Day>>, before: Option<Calendar.Date>)
    requires Recorded(sessions) && sessions != []
    requires before.Some? ==> sessions[|sessions| - 1][0].asOf < before.value
    ensures var n := |sessions| - 1;
            var date := sessions[n][0].asOf;
            && LatestDate(RowsAfter(sessions), before, Some(LIVE), date)
            && forall r :: r in RowsAfter(sessions) && On(r, date, Some(LIVE))
                           <==> r in RowsOfSession(sessions[n], BookAfter(Standings(sessions[..n])))
  {
    var n := |sessions| - 1;
    var date := sessions[n][0].asOf;
    var rows, last := RowsAfter(sessions), RowsOfSession(sessions[n], BookAfter(Standings(sessions[..n])));
    forall r | r in rows ensures r.date.Some? && r.date.value <= date && (r.date.value == date ==> r in last) {
      RowDates(sessions, r);
    }
    forall i | 0 <= i < |last| ensures On(last[i], date, Some(LIVE)) && last[i] in rows {
      assert last[i] in last;
    }
    assert last[0] in rows && Eligible(last[0], before, Some(LIVE));
  }

  lemma {:induction false} DisagreementConflicts(runs: seq<Day>, book: seq<Ticker>, rows: seq<Row>, date: Calendar.Date)
    requires IsSession(runs)
    requires forall r :: r in rows && On(r, date, Some(LIVE)) <==> r in RowsOfSession(runs, book)
    ensures Conflicted(rows, date, Some(LIVE)) <==> !Agree(runs)
  {
    var last := RowsOfSession(runs, book);
    forall i | 0 <= i < |runs| ensures last[i] in rows && On(last[i], date, Some(LIVE)) {
      assert last[i] in last;
    }
    if !Agree(runs) {
      var i, j :| 0 <= i < |runs| && 0 <= j < |runs|
                  && !(multiset(runs[i].buys) == multiset(runs[j].buys) && runs[i].slate == runs[j].slate);
      assert Identity(last[i]) != Identity(last[j]);
    }
  }

  lemma {:induction false} NewestIsStanding(runs: seq<Day>, book: seq<Ticker>, row: Row)
    requires IsSession(runs) && row in RowsOfSession(runs, book)
    requires forall r :: r in RowsOfSession(runs, book) ==> KeyLe(r.stamp, row.stamp)
    ensures row == RowFor(Standing(runs), book)
  {
    var last := RowsOfSession(runs, book);
    var i :| 0 <= i < |runs| && last[i] == row;
    var j :| 0 <= j < |runs| && runs[j] == Standing(runs);
    assert last[j] in last && last[j].stamp == runs[j].stamp && row.stamp == runs[i].stamp;
    assert KeyLe(last[j].stamp, row.stamp);
    assert KeyLe(runs[i].stamp, Standing(runs).stamp);
    KeysMeet(runs[i].stamp, runs[j].stamp);
    assert i == j;
  }

  lemma {:induction false} NewestRowIsFound(rows: seq<Row>, runs: seq<Day>, book: seq<Ticker>, date: Calendar.Date,
                                            before: Option<Calendar.Date>, found: Lookup)
    requires IsSession(runs) && LatestDate(rows, before, Some(LIVE), date)
    requires forall r :: r in rows && On(r, date, Some(LIVE)) <==> r in RowsOfSession(runs, book)
    requires IsPrevious(found, rows, before, Some(LIVE))
    ensures if Agree(runs) then found == Found(RowFor(Standing(runs), book))
            else found.Ambiguous? && found.date == date
  {
    DisagreementConflicts(runs, book, rows, date);
    forall d | LatestDate(rows, before, Some(LIVE), d) ensures d == date {
      LatestIsUnique(rows, before, Some(LIVE), d, date);
    }
    AmbiguousExactlyWhen(found, rows, before, Some(LIVE));
    if Agree(runs) {
      NewestIsStanding(runs, book, found.row);
    }
  }

  /** What the next run reads from the ledger: the book the history carried, as the newest run
      of each session left it; or an ambiguity, exactly when the runs of the last session
      disagree, and then no run follows. */
  lemma {:induction false} LedgerCarriesTheBook(sessions: seq<seq<Day>>, before: Option<Calendar.Date>, found: Lookup)
    requires Recorded(sessions)
    requires before.Some? && sessions != [] ==> sessions[|sessions| - 1][0].asOf < before.value
    requires IsPrevious(found, RowsAfter(sessions), before, Some(LIVE))
    ensures if sessions == [] || Agree(sessions[|sessions| - 1])
            then BookOf(found) == Ok(BookAfter(Standings(sessions)))
            else found.Ambiguous? && found.date == sessions[|sessions| - 1][0].asOf && BookOf(found) == Err(found)
  {
    if sessions == [] {
      assert found.Nothing?;
    } else {
      var n := |sessions| - 1;
      var book := BookAfter(Standings(sessions[..n]));
      LastSessionIsLatest(sessions, before);
      NewestRowIsFound(RowsAfter(sessions), sessions[n], book, sessions[n][0].asOf, before, found);
      CarriedByTheStanding(sessions);
    }
  }

  /** The row of the standing run carries the book that the history leaves. */
  lemma CarriedByTheStanding(sessions: seq<seq<Day>>)
    requires sessions != [] && forall k :: 0 <= k < |sessions| ==> sessions[k] != []
    ensures var n := |sessions| - 1;
            BookOf(Found(RowFor(Standing(sessions[n]), BookAfter(Standings(sessions[..n])))))
            == Ok(BookAfter(Standings(sessions)))
  {
    var n := |sessions| - 1;
    assert Standings(sessions)[..n] == Standings(sessions[..n]);
  }
}
