/** The PEP status reconciler (`pep`): for every row of the numerical index, compare the
    status the detail page declares with the statuses its index code allows, count the
    declared statuses, and report the counts and the number of rows. */
module Pep {
  import opened Common
  import opened Constants

  /** One row of the numerical index, reduced to what the reconciler uses: the text of its
      first cell, and the value of the `Status` field on its detail page (`None` when the
      page has no `Status` field). */
  datatype PepRow = PepRow(cellText: string, declared: Option<string>)

  /** The diagnostics the reconciler logs, each naming the index row (counted from 0). */
  datatype Event =
    | UnknownCode(row: nat, code: string)
    | Mismatch(row: nat, declared: string, expected: seq<string>)
    | MissingStatus(row: nat)

  const Header: Row := [Str("Статус"), Str("Количество")]

  function TotalRow(total: int): Row
  {
    [Str("Total"), Int(total)]
  }

  function CountRow(status: string, count: int): Row
  {
    [Str(status), Int(count)]
  }

  /** The status code of a row: its first cell's text without the leading type letter. */
  function StatusCode(cellText: string): string
  {
    if cellText == [] then [] else cellText[1..]
  }

  /** The statuses a code allows: its entry in the table, or none for an unknown code. */
  function ExpectedFor(code: string): seq<string>
  {
    if code in ExpectedStatus then ExpectedStatus[code] else []
  }

  /** The events logged while processing row `index`, in the order they are logged. */
  function RowEvents(index: nat, row: PepRow): seq<Event>
  {
    var code := StatusCode(row.cellText);
    var expected := ExpectedFor(code);
    (if code in ExpectedStatus then [] else [UnknownCode(index, code)]) +
      match row.declared
      case None => [MissingStatus(index)]
      case Some(s) => if s in expected then [] else [Mismatch(index, s, expected)]
  }

  /** The reconciler's counting state after some rows: the row counter, the declared
      statuses in the order they were first seen, and their counts. */
  datatype Tally = Tally(total: nat, order: seq<string>, counts: map<string, nat>)

  /** The order lists each counted status exactly once. */
  ghost predicate WellFormed(t: Tally)
  {
    && (forall s :: s in t.order <==> s in t.counts)
    && (forall a, b :: 0 <= a < b < |t.order| ==> t.order[a] != t.order[b])
  }

  /** What one iteration of the loop over the index rows does to the counting state. */
  function Step(t: Tally, row: PepRow): Tally
  {
    match row.declared
    case None => t.(total := t.total + 1)
    case Some(s) =>
      if s in t.counts then t.(total := t.total + 1, counts := t.counts[s := t.counts[s] + 1])
      else t.(total := t.total + 1, order := t.order + [s], counts := t.counts[s := 1])
  }

  /** The counting state after all the rows. */
  function Reconcile(rows: seq<PepRow>): Tally
    decreases |rows|
  {
    if rows == [] then Tally(0, [], map[])
    else Step(Reconcile(rows[..|rows| - 1]), rows[|rows| - 1])
  }

  /** The log after all the rows: the events of each row, row after row. */
  function Log(rows: seq<PepRow>): seq<Event>
    decreases |rows|
  {
    if rows == [] then []
    else Log(rows[..|rows| - 1]) + RowEvents(|rows| - 1, rows[|rows| - 1])
  }

  /** The table: header, one row per status in first-seen order, then the total. */
  function Report(t: Tally): seq<Row>
    requires WellFormed(t)
  {
    [Header] + seq(|t.order|, k requires 0 <= k < |t.order| => CountRow(t.order[k], t.counts[t.order[k]]))
      + [TotalRow(t.total)]
  }

  /** The table `pep` returns. */
  function PepTable(rows: seq<PepRow>): seq<Row>
  {
    ReconcileWellFormed(rows);
    Report(Reconcile(rows))
  }

  /** The reconciler counts every row, and lists each counted status exactly once. */
  lemma {:induction false} ReconcileWellFormed(rows: seq<PepRow>)
    ensures WellFormed(Reconcile(rows))
    ensures Reconcile(rows).total == |rows|
    decreases |rows|
  {
    if rows != [] {
      ReconcileWellFormed(rows[..|rows| - 1]);
      StepWellFormed(Reconcile(rows[..|rows| - 1]), rows[|rows| - 1]);
    }
  }

  /** One row keeps every counted status listed exactly once. */
  lemma StepWellFormed(t: Tally, row: PepRow)
    requires WellFormed(t)
    ensures WellFormed(Step(t, row))
    ensures Step(t, row).total == t.total + 1
  {
  }

  /** `pep` over the index rows and their detail pages: one pass that counts every row,
      looks its code up, logs anomalies and mismatches and counts declared statuses in an
      insertion-ordered dictionary (its key order and its map), then the table. */
  method Pep(rows: seq<PepRow>) returns (results: seq<Row>, log: seq<Event>)
    ensures results == PepTable(rows)
    ensures log == Log(rows)
  {
    var pepCount := 0;
    var statusOrder: seq<string> := [];
    var statusCount: map<string, nat> := map[];
    log := [];
    results := [Header];
    for i := 0 to |rows|
      invariant pepCount == i
      invariant statusOrder == Reconcile(rows[..i]).order
      invariant statusCount == Reconcile(rows[..i]).counts
      invariant log == Log(rows[..i])
    {
      ghost var after := Step(Reconcile(rows[..i]), rows[i]);
      PrefixStep(rows, i);
      pepCount := pepCount + 1;
      var statusShort := StatusCode(rows[i].cellText);
      var statusLong: seq<string>;
      if statusShort in ExpectedStatus {
        statusLong := ExpectedStatus[statusShort];
      } else {
        statusLong := [];
        log := log + [UnknownCode(i, statusShort)];
      }
      assert statusLong == ExpectedFor(statusShort);
      match rows[i].declared {
        case Some(statusPage) =>
          if statusPage !in statusLong {
            log := log + [Mismatch(i, statusPage, statusLong)];
          }
          assert log == Log(rows[..i + 1]);
          if statusPage in statusCount {
            statusCount := statusCount[statusPage := statusCount[statusPage] + 1];
          } else {
            statusCount := statusCount[statusPage := 1];
            statusOrder := statusOrder + [statusPage];
          }
          assert statusCount == after.counts && statusOrder == after.order;
        case None =>
          log := log + [MissingStatus(i)];
          assert log == Log(rows[..i + 1]);
          continue;
      }
    }
    assert rows[..|rows|] == rows;
    ReconcileWellFormed(rows);
    results := results + seq(|statusOrder|, k requires 0 <= k < |statusOrder| =>
                               CountRow(statusOrder[k], statusCount[statusOrder[k]]));
    results := results + [TotalRow(pepCount)];
  }

  // ---------------------------------------------------------------------------------
  // Reference definitions, independent of the loop

  /** How many rows declare status `s` on their detail page. */
  function Occurrences(rows: seq<PepRow>, s: string): nat
    decreases |rows|
  {
    if rows == [] then 0
    else Occurrences(rows[..|rows| - 1], s) + (if rows[|rows| - 1].declared == Some(s) then 1 else 0)
  }

  /** How many rows have a `Status` field at all. */
  function WithStatus(rows: seq<PepRow>): (n: nat)
    ensures n <= |rows|
    decreases |rows|
  {
    if rows == [] then 0
    else WithStatus(rows[..|rows| - 1]) + (if rows[|rows| - 1].declared.Some? then 1 else 0)
  }

  /** Some row declares status `s`. */
  predicate Declares(rows: seq<PepRow>, s: string)
  {
    exists i :: 0 <= i < |rows| && rows[i].declared == Some(s)
  }

  /** The index of the first row that declares `s`. */
  function FirstDeclaring(rows: seq<PepRow>, s: string): (i: nat)
    requires Declares(rows, s)
    ensures i < |rows| && rows[i].declared == Some(s)
    ensures forall j :: 0 <= j < i ==> rows[j].declared != Some(s)
    decreases |rows|
  {
    if rows[0].declared == Some(s) then 0
    else
      assert Declares(rows[1..], s) by {
        var i :| 0 <= i < |rows| && rows[i].declared == Some(s);
        assert rows[1..][i - 1] == rows[i];
      }
      1 + FirstDeclaring(rows[1..], s)
  }

  /** The sum of the counts, over the statuses in `order`. */
  function SumCounts(order: seq<string>, counts: map<string, nat>): nat
    requires forall s :: s in order ==> s in counts
    decreases |order|
  {
    if order == [] then 0
    else SumCounts(order[..|order| - 1], counts) + counts[order[|order| - 1]]
  }

  // ---------------------------------------------------------------------------------
  // Properties

  /** The table is the header, one row per counted status, and last the number of index
      rows, whether or not their status could be resolved. */
  lemma TableShape(rows: seq<PepRow>)
    ensures WellFormed(Reconcile(rows))
    ensures var t := Reconcile(rows);
            && |PepTable(rows)| == |t.order| + 2
            && PepTable(rows)[0] == Header
            && PepTable(rows)[|PepTable(rows)| - 1] == TotalRow(|rows|)
            && forall k :: 0 <= k < |t.order| ==> PepTable(rows)[k + 1] == CountRow(t.order[k], t.counts[t.order[k]])
  {
    ReconcileWellFormed(rows);
    var t := Reconcile(rows);
    var counted := seq(|t.order|, k requires 0 <= k < |t.order| => CountRow(t.order[k], t.counts[t.order[k]]));
    assert PepTable(rows) == [Header] + counted + [TotalRow(t.total)];
  }

  /** Rows appended one at a time: what the last row does to the state. */
  lemma ReconcileLast(rows: seq<PepRow>, r: PepRow)
    ensures Reconcile(rows + [r]) == Step(Reconcile(rows), r)
  {
    assert (rows + [r])[..|rows|] == rows;
  }

  /** The loop's view of the same: the prefix one row longer. */
  lemma PrefixStep(rows: seq<PepRow>, i: nat)
    requires i < |rows|
    ensures Reconcile(rows[..i + 1]) == Step(Reconcile(rows[..i]), rows[i])
    ensures Log(rows[..i + 1]) == Log(rows[..i]) + RowEvents(i, rows[i])
  {
    assert rows[..i + 1][..i] == rows[..i];
  }

  /** Rows appended one at a time: what the last row adds to the log. */
  lemma LogLast(rows: seq<PepRow>, r: PepRow)
    ensures Log(rows + [r]) == Log(rows) + RowEvents(|rows|, r)
  {
    assert (rows + [r])[..|rows|] == rows;
  }

  /** A row whose page has no `Status` field changes no count and no order; it only adds
      to the total and logs the missing field. */
  lemma MissingStatusCountsNothing(rows: seq<PepRow>, cellText: string)
    ensures var before := Reconcile(rows);
            var after := Reconcile(rows + [PepRow(cellText, None)]);
            && after.order == before.order && after.counts == before.counts
            && after.total == before.total + 1
            && MissingStatus(|rows|) in Log(rows + [PepRow(cellText, None)])
  {
    ReconcileLast(rows, PepRow(cellText, None));
  }

  /** `s` is counted exactly when some row declares it, and its count is the number of rows
      that declare it, whether or not they match their code. */
  lemma {:induction false} CountsAreOccurrences(rows: seq<PepRow>)
    ensures forall s :: s in Reconcile(rows).counts <==> Declares(rows, s)
    ensures forall s :: s in Reconcile(rows).counts ==> Reconcile(rows).counts[s] == Occurrences(rows, s)
    ensures forall s :: s !in Reconcile(rows).counts ==> Occurrences(rows, s) == 0
    decreases |rows|
  {
    if rows != [] {
      var init := rows[..|rows| - 1];
      var last := rows[|rows| - 1];
      assert rows == init + [last];
      CountsAreOccurrences(init);
      forall s ensures Declares(rows, s) <==> Declares(init, s) || last.declared == Some(s) {
        if Declares(rows, s) {
          var i :| 0 <= i < |rows| && rows[i].declared == Some(s);
          if i < |init| {
            assert init[i] == rows[i];
          }
        }
        if Declares(init, s) {
          var i :| 0 <= i < |init| && init[i].declared == Some(s);
          assert rows[i] == init[i];
        }
      }
    }
  }

  /** Adding one to a listed status adds one to the sum. */
  lemma {:induction false} SumCountsIncrement(order: seq<string>, counts: map<string, nat>, s: string)
    requires forall x :: x in order ==> x in counts
    requires forall a, b :: 0 <= a < b < |order| ==> order[a] != order[b]
    requires s in counts
    ensures SumCounts(order, counts[s := counts[s] + 1]) == SumCounts(order, counts) + (if s in order then 1 else 0)
    decreases |order|
  {
    if order != [] {
      var init := order[..|order| - 1];
      assert forall x :: x in init ==> x in order;
      SumCountsIncrement(init, counts, s);
      if order[|order| - 1] == s {
        assert s !in init;
      }
    }
  }

  /** Setting a status not listed leaves the sum unchanged. */
  lemma {:induction false} SumCountsUnlisted(order: seq<string>, counts: map<string, nat>, s: string, c: nat)
    requires forall x :: x in order ==> x in counts
    requires s !in order
    ensures SumCounts(order, counts[s := c]) == SumCounts(order, counts)
    decreases |order|
  {
    if order != [] {
      var init := order[..|order| - 1];
      assert forall x :: x in init ==> x in order;
      SumCountsUnlisted(init, counts, s, c);
    }
  }

  /** One row adds one to the sum of the counts if its page has a `Status` field, and
      nothing otherwise. */
  lemma SumCountsStep(t: Tally, row: PepRow)
    requires WellFormed(t)
    ensures WellFormed(Step(t, row))
    ensures SumCounts(Step(t, row).order, Step(t, row).counts) ==
              SumCounts(t.order, t.counts) + (if row.declared.Some? then 1 else 0)
  {
    StepWellFormed(t, row);
    var t' := Step(t, row);
    match row.declared {
      case None =>
        assert t'.order == t.order && t'.counts == t.counts;
      case Some(s) =>
        if s in t.counts {
          assert t'.order == t.order && t'.counts == t.counts[s := t.counts[s] + 1];
          SumCountsIncrement(t.order, t.counts, s);
        } else {
          assert t'.order == t.order + [s] && t'.counts == t.counts[s := 1];
          SumCountsUnlisted(t.order, t.counts, s, 1);
          assert t'.order[..|t.order|] == t.order;
        }
    }
  }

  /** The counts add up to the number of rows with a `Status` field. */
  lemma {:induction false} SumOfCounts(rows: seq<PepRow>)
    ensures WellFormed(Reconcile(rows))
    ensures SumCounts(Reconcile(rows).order, Reconcile(rows).counts) == WithStatus(rows)
    decreases |rows|
  {
    ReconcileWellFormed(rows);
    if rows != [] {
      var init := rows[..|rows| - 1];
      SumOfCounts(init);
      SumCountsStep(Reconcile(init), rows[|init|]);
      assert Reconcile(rows) == Step(Reconcile(init), rows[|init|]);
      assert WithStatus(rows) == WithStatus(init) + (if rows[|init|].declared.Some? then 1 else 0);
    }
  }

  /** Every detail page has a `Status` field. */
  predicate AllHaveStatus(rows: seq<PepRow>)
  {
    forall i :: 0 <= i < |rows| ==> rows[i].declared.Some?
  }

  /** When every page has a `Status` field, every row is counted as having one. */
  lemma {:induction false} AllWithStatus(rows: seq<PepRow>)
    requires AllHaveStatus(rows)
    ensures WithStatus(rows) == |rows|
    decreases |rows|
  {
    if rows != [] {
      var init := rows[..|rows| - 1];
      assert AllHaveStatus(init) by {
        assert forall i :: 0 <= i < |init| ==> init[i] == rows[i];
      }
      AllWithStatus(init);
    }
  }

  /** Hence the counts add up to at most the total, and to exactly the total when every
      page has a `Status` field. */
  lemma CountsAddUpToTotal(rows: seq<PepRow>)
    ensures WellFormed(Reconcile(rows))
    ensures SumCounts(Reconcile(rows).order, Reconcile(rows).counts) <= Reconcile(rows).total
    ensures AllHaveStatus(rows) ==>
              SumCounts(Reconcile(rows).order, Reconcile(rows).counts) == Reconcile(rows).total
  {
    SumOfCounts(rows);
    ReconcileWellFormed(rows);
    if AllHaveStatus(rows) {
      AllWithStatus(rows);
    }
  }

  /** The first row declaring `s` stays the first when rows are appended. */
  lemma FirstDeclaringAppend(rows: seq<PepRow>, r: PepRow, s: string)
    requires Declares(rows, s)
    ensures Declares(rows + [r], s)
    ensures FirstDeclaring(rows + [r], s) == FirstDeclaring(rows, s)
  {
    var i := FirstDeclaring(rows, s);
    assert (rows + [r])[i] == rows[i];
  }

  /** Statuses are listed in the order of the rows that first declare them. */
  lemma {:induction false} OrderIsFirstDeclaration(rows: seq<PepRow>)
    ensures forall s :: s in Reconcile(rows).order ==> Declares(rows, s)
    ensures forall a, b :: 0 <= a < b < |Reconcile(rows).order| ==>
              FirstDeclaring(rows, Reconcile(rows).order[a]) < FirstDeclaring(rows, Reconcile(rows).order[b])
    decreases |rows|
  {
    CountsAreOccurrences(rows);
    if rows != [] {
      var init := rows[..|rows| - 1];
      var last := rows[|rows| - 1];
      assert rows == init + [last];
      var t := Reconcile(init);
      var order := Reconcile(rows).order;
      OrderIsFirstDeclaration(init);
      CountsAreOccurrences(init);
      forall s | s in t.order ensures FirstDeclaring(rows, s) == FirstDeclaring(init, s) {
        FirstDeclaringAppend(init, last, s);
      }
      if last.declared.Some? && last.declared.value !in t.counts {
        var s := last.declared.value;
        assert order == t.order + [s];
        assert !Declares(init, s);
        assert FirstDeclaring(rows, s) == |init|;
        forall a | 0 <= a < |t.order| ensures FirstDeclaring(rows, order[a]) < |init| {
          assert order[a] == t.order[a];
        }
      }
    }
  }

  /** Every logged event belongs to one row: an event is in the log exactly when it is one
      of the events of the row it names. */
  lemma {:induction false} LogIsRowEvents(rows: seq<PepRow>)
    ensures forall ev :: ev in Log(rows) <==> ev.row < |rows| && ev in RowEvents(ev.row, rows[ev.row])
    decreases |rows|
  {
    if rows != [] {
      var init := rows[..|rows| - 1];
      LogIsRowEvents(init);
      forall ev | ev in RowEvents(|init|, rows[|init|]) ensures ev.row == |init| {
        RowEventsContents(|init|, rows[|init|], ev);
      }
      assert forall i :: 0 <= i < |init| ==> init[i] == rows[i];
    }
  }

  /** What one row logs: an unknown code when its code is not in the table, then either a
      missing `Status` field, or a mismatch when the declared status is not allowed. */
  lemma RowEventsContents(index: nat, row: PepRow, ev: Event)
    ensures ev in RowEvents(index, row) ==> ev.row == index
    ensures ev.UnknownCode? ==>
              (ev in RowEvents(index, row) <==>
                 ev.row == index && ev.code == StatusCode(row.cellText) && ev.code !in ExpectedStatus)
    ensures ev.Mismatch? ==>
              (ev in RowEvents(index, row) <==>
                 && ev.row == index && row.declared == Some(ev.declared)
                 && ev.expected == ExpectedFor(StatusCode(row.cellText)) && ev.declared !in ev.expected)
    ensures ev.MissingStatus? ==>
              (ev in RowEvents(index, row) <==> ev.row == index && row.declared.None?)
  {
    var code := StatusCode(row.cellText);
    var first: seq<Event> := if code in ExpectedStatus then [] else [UnknownCode(index, code)];
    var second: seq<Event> :=
      match row.declared
      case None => [MissingStatus(index)]
      case Some(s) => if s in ExpectedFor(code) then [] else [Mismatch(index, s, ExpectedFor(code))];
    assert RowEvents(index, row) == first + second;
    assert ev in RowEvents(index, row) <==> ev in first || ev in second;
  }

  /** An unknown code is logged exactly for the rows whose code is not in the table; the row
      is still processed. */
  lemma UnknownCodeLogged(rows: seq<PepRow>, i: nat, code: string)
    ensures UnknownCode(i, code) in Log(rows) <==>
              i < |rows| && code == StatusCode(rows[i].cellText) && code !in ExpectedStatus
  {
    LogIsRowEvents(rows);
    if i < |rows| {
      RowEventsContents(i, rows[i], UnknownCode(i, code));
    }
  }

  /** A mismatch is logged exactly for a row whose page declares a status outside the set its
      code allows, naming that status and that set. */
  lemma MismatchLogged(rows: seq<PepRow>, i: nat, s: string, expected: seq<string>)
    ensures Mismatch(i, s, expected) in Log(rows) <==>
              && i < |rows| && rows[i].declared == Some(s)
              && expected == ExpectedFor(StatusCode(rows[i].cellText))
              && s !in expected
  {
    LogIsRowEvents(rows);
    if i < |rows| {
      RowEventsContents(i, rows[i], Mismatch(i, s, expected));
    }
  }

  /** A missing `Status` field is logged exactly for the rows whose page lacks it. */
  lemma MissingStatusLogged(rows: seq<PepRow>, i: nat)
    ensures MissingStatus(i) in Log(rows) <==> i < |rows| && rows[i].declared.None?
  {
    LogIsRowEvents(rows);
    if i < |rows| {
      RowEventsContents(i, rows[i], MissingStatus(i));
    }
  }

  /** A row with an unknown code and a `Status` field always logs both the unknown code and
      a mismatch against the empty set, and is counted all the same. */
  lemma UnknownCodeAlwaysMismatches(rows: seq<PepRow>, i: nat, s: string)
    requires i < |rows| && rows[i].declared == Some(s)
    requires StatusCode(rows[i].cellText) !in ExpectedStatus
    ensures UnknownCode(i, StatusCode(rows[i].cellText)) in Log(rows)
    ensures Mismatch(i, s, []) in Log(rows)
    ensures s in Reconcile(rows).counts
  {
    assert Declares(rows, s);
    UnknownCodeLogged(rows, i, StatusCode(rows[i].cellText));
    MismatchLogged(rows, i, s, []);
    CountsAreOccurrences(rows);
  }

  /** The status code is the cell text without its first character; an empty cell gives the
      empty code, and any code longer than one character is unknown. */
  lemma StatusCodeDropsFirst(cellText: string)
    ensures cellText == [] ==> StatusCode(cellText) == []
    ensures cellText != [] ==> [cellText[0]] + StatusCode(cellText) == cellText
    ensures |StatusCode(cellText)| > 1 ==> ExpectedFor(StatusCode(cellText)) == []
  {
    ExpectedStatusCodes();
  }

  /** Three index rows with codes A, X (unknown) and A, whose pages declare Active, Active and
      Final: Active is counted twice, Final once, and three rows in all. */
  lemma ThreeRowTable()
    ensures PepTable([PepRow("IA", Some("Active")), PepRow("PX", Some("Active")), PepRow("SA", Some("Final"))]) ==
              [Header, CountRow("Active", 2), CountRow("Final", 1), TotalRow(3)]
  {
    var r0, r1, r2 := PepRow("IA", Some("Active")), PepRow("PX", Some("Active")), PepRow("SA", Some("Final"));
    ReconcileLast([], r0);
    assert [] + [r0] == [r0];
    assert Reconcile([r0]) == Tally(1, ["Active"], map["Active" := 1]);
    ReconcileLast([r0], r1);
    assert [r0] + [r1] == [r0, r1];
    assert Reconcile([r0, r1]) == Tally(2, ["Active"], map["Active" := 2]);
    ReconcileLast([r0, r1], r2);
    assert [r0, r1] + [r2] == [r0, r1, r2];
    var t := Reconcile([r0, r1, r2]);
    assert t == Tally(3, ["Active", "Final"], map["Active" := 2, "Final" := 1]);
    ReconcileWellFormed([r0, r1, r2]);
    assert PepTable([r0, r1, r2]) == [Header] + [CountRow("Active", 2), CountRow("Final", 1)] + [TotalRow(3)];
  }

  /** The same rows log the unknown code X, and two mismatches: the second row's Active
      against the empty set, and the third row's Final against A's statuses. */
  lemma ThreeRowLog()
    ensures Log([PepRow("IA", Some("Active")), PepRow("PX", Some("Active")), PepRow("SA", Some("Final"))]) ==
              [UnknownCode(1, "X"), Mismatch(1, "Active", []), Mismatch(2, "Final", ["Active", "Accepted"])]
  {
    var r0, r1, r2 := PepRow("IA", Some("Active")), PepRow("PX", Some("Active")), PepRow("SA", Some("Final"));
    assert StatusCode("IA") == "A" && StatusCode("PX") == "X" && StatusCode("SA") == "A";
    assert RowEvents(0, r0) == [];
    assert RowEvents(1, r1) == [UnknownCode(1, "X"), Mismatch(1, "Active", [])];
    assert RowEvents(2, r2) == [Mismatch(2, "Final", ["Active", "Accepted"])];
    LogLast([], r0);
    assert [] + [r0] == [r0];
    LogLast([r0], r1);
    assert [r0] + [r1] == [r0, r1];
    LogLast([r0, r1], r2);
    assert [r0, r1] + [r2] == [r0, r1, r2];
  }
}
