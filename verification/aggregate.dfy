/** `parse_results`: the fold over every `row` element of a DMARC aggregate
    report that tallies, per source IP, the counts of rows whose DKIM or SPF
    evaluation passed and of rows where neither did. Alongside the fold sits
    an independent reference definition of what each tally must hold. */
module Aggregate {
  import opened Wrappers
  import opened Xml
  import opened Tallies

  /** A tally key is a source IP, or None for a row without a `source_ip` text. */
  type Source = Option<string>

  type Tally = map<Source, int>

  /** What one row contributes: its count, its source, and the DKIM and SPF verdicts. */
  datatype RowData = RowData(count: int, source: Source, dkim: bool, spf: bool) {
    /** A row passes when either mechanism passed. */
    predicate Passes() {
      dkim || spf
    }
  }

  /** `int(elem.text)` raised: the text is missing or not an integer literal. */
  datatype AggregateError = UnreadableCount

  /** The two tallies `parse_results` returns. */
  datatype Results = Results(passes: Tally, failures: Tally)

  /** `int(e.text)`, with the integer-literal reader supplied as toInt:
      None where Python raises (no text at all, or text toInt rejects). */
  function CountValue(e: Element, toInt: string -> Option<int>): (r: Option<int>)
    ensures e.text.None? ==> r.None?
    ensures e.text.Some? ==> r == toInt(e.text.value)
  {
    if e.text.None? then None else toInt(e.text.value)
  }

  /** Every `count` child among cs can be read as an integer. */
  predicate CountsReadable(cs: seq<Element>, toInt: string -> Option<int>) {
    forall i :: 0 <= i < |cs| && cs[i].tag == "count" ==> CountValue(cs[i], toInt).Some?
  }

  /** The count a row ends with: that of its last `count` child, 0 without one. */
  function LastCount(cs: seq<Element>, toInt: string -> Option<int>): int
    requires CountsReadable(cs, toInt)
  {
    match LastTagged(cs, "count")
    case None => 0
    case Some(c) => CountValue(c, toInt).value
  }

  /** The source a row ends with: the text of its last `source_ip` child,
      None without one (or when that child has no text). */
  function LastSource(cs: seq<Element>): Source {
    match LastTagged(cs, "source_ip")
    case None => None
    case Some(s) => s.text
  }

  /** The elements the DKIM/SPF scan visits: `iter()` of every direct
      `policy_evaluated` child, in document order. */
  function PolicyScope(cs: seq<Element>): seq<Element> {
    if |cs| == 0 then []
    else
      var last := cs[|cs| - 1];
      PolicyScope(cs[..|cs| - 1]) + (if last.tag == "policy_evaluated" then Iter(last) else [])
  }

  /** A verdict element says "pass"; an absent element or one without text does not. */
  function Verdict(e: Option<Element>): bool {
    e.Some? && e.value.text == Some("pass")
  }

  /** Reference definition of the fields read from the children cs of a
      row, each by its last occurrence. */
  function FieldsOf(cs: seq<Element>, toInt: string -> Option<int>): RowData
    requires CountsReadable(cs, toInt)
  {
    var scope := PolicyScope(cs);
    RowData(LastCount(cs, toInt), LastSource(cs),
            Verdict(LastTagged(scope, "dkim")), Verdict(LastTagged(scope, "spf")))
  }

  /** What a row contributes, by the reference definition. */
  function RowOf(row: Element, toInt: string -> Option<int>): RowData
    requires CountsReadable(row.children, toInt)
  {
    FieldsOf(row.children, toInt)
  }

  /** One child more: the row's fields after it, stated by last occurrence. */
  lemma RowFieldsSnoc(cs: seq<Element>, e: Element, toInt: string -> Option<int>)
    requires CountsReadable(cs, toInt)
    ensures CountsReadable(cs + [e], toInt) <==> e.tag != "count" || CountValue(e, toInt).Some?
    ensures CountsReadable(cs + [e], toInt) ==>
      LastCount(cs + [e], toInt) == if e.tag == "count" then CountValue(e, toInt).value else LastCount(cs, toInt)
    ensures LastSource(cs + [e]) == if e.tag == "source_ip" then e.text else LastSource(cs)
    ensures PolicyScope(cs + [e]) == PolicyScope(cs) + (if e.tag == "policy_evaluated" then Iter(e) else [])
  {
    var cs' := cs + [e];
    assert cs'[..|cs|] == cs;
    assert forall i :: 0 <= i < |cs| ==> cs'[i] == cs[i];
    LastTaggedSnoc(cs, e, "count");
    LastTaggedSnoc(cs, e, "source_ip");
  }

  /** The inner `for policy in elem.iter()` loop: every `dkim` or `spf`
      element visited overwrites the verdict held so far. */
  method ScanPolicy(visit: seq<Element>, dkim0: bool, spf0: bool) returns (dkim: bool, spf: bool)
    ensures dkim == if LastTagged(visit, "dkim").Some? then Verdict(LastTagged(visit, "dkim")) else dkim0
    ensures spf == if LastTagged(visit, "spf").Some? then Verdict(LastTagged(visit, "spf")) else spf0
  {
    dkim, spf := dkim0, spf0;
    var k := 0;
    while k < |visit|
      invariant 0 <= k <= |visit|
      invariant dkim == if LastTagged(visit[..k], "dkim").Some? then Verdict(LastTagged(visit[..k], "dkim")) else dkim0
      invariant spf == if LastTagged(visit[..k], "spf").Some? then Verdict(LastTagged(visit[..k], "spf")) else spf0
    {
      var policy := visit[k];
      assert visit[..k + 1] == visit[..k] + [policy];
      LastTaggedSnoc(visit[..k], policy, "dkim");
      LastTaggedSnoc(visit[..k], policy, "spf");
      if policy.tag == "dkim" {
        dkim := policy.text == Some("pass");
      } else if policy.tag == "spf" {
        spf := policy.text == Some("pass");
      }
      k := k + 1;
    }
    assert visit[..k] == visit;
  }

  /** One iteration of `for elem in row`: the fields held after the children
      seen so far, updated by the next child elem. */
  method ReadChild(seen: seq<Element>, elem: Element, acc: RowData, toInt: string -> Option<int>)
    returns (r: Result<RowData, AggregateError>)
    requires CountsReadable(seen, toInt)
    requires acc == FieldsOf(seen, toInt)
    ensures r.Failure? <==> !CountsReadable(seen + [elem], toInt)
    ensures r.Success? ==> CountsReadable(seen + [elem], toInt) && r.value == FieldsOf(seen + [elem], toInt)
  {
    RowFieldsSnoc(seen, elem, toInt);
    var scope := PolicyScope(seen);
    if elem.tag == "count" {
      var n := CountValue(elem, toInt);
      if n.None? {
        return Failure(UnreadableCount);
      }
      assert PolicyScope(seen + [elem]) == scope + [] == scope;
      return Success(acc.(count := n.value));
    } else if elem.tag == "source_ip" {
      assert PolicyScope(seen + [elem]) == scope + [] == scope;
      return Success(acc.(source := elem.text));
    } else if elem.tag == "policy_evaluated" {
      var visit := Iter(elem);
      LastTaggedAppend(scope, visit, "dkim");
      LastTaggedAppend(scope, visit, "spf");
      var dkim, spf := ScanPolicy(visit, acc.dkim, acc.spf);
      return Success(acc.(dkim := dkim, spf := spf));
    } else {
      assert PolicyScope(seen + [elem]) == scope + [] == scope;
      return Success(acc);
    }
  }

  /** The body of the row loop of `parse_results`: one pass over the direct
      children of the row, overwriting a field on every child that sets it. */
  method ReadRow(row: Element, toInt: string -> Option<int>) returns (r: Result<RowData, AggregateError>)
    ensures r.Failure? <==> !CountsReadable(row.children, toInt)
    ensures r.Success? ==> r.value == RowOf(row, toInt)
    ensures |row.children| == 0 ==> r == Success(RowData(0, None, false, false))
  {
    var cs := row.children;
    var acc := RowData(0, None, false, false);
    var i := 0;
    while i < |cs|
      invariant 0 <= i <= |cs|
      invariant CountsReadable(cs[..i], toInt)
      invariant acc == FieldsOf(cs[..i], toInt)
    {
      assert cs[..i + 1] == cs[..i] + [cs[i]];
      var next := ReadChild(cs[..i], cs[i], acc, toInt);
      if next.Failure? {
        assert !CountsReadable(cs, toInt) by {
          var j :| 0 <= j < i + 1 && cs[..i + 1][j].tag == "count" && CountValue(cs[..i + 1][j], toInt).None?;
          assert cs[j] == cs[..i + 1][j];
        }
        return Failure(next.error);
      }
      acc := next.value;
      i := i + 1;
    }
    assert cs[..i] == cs;
    return Success(acc);
  }

  /** The `row` elements of the report, in document order (`report.iter("row")`). */
  function Rows(report: Element): (rows: seq<Element>)
    ensures forall x :: x in rows <==> Descendant(report, x) && x.tag == "row"
    ensures forall x: Element :: x.tag == "row" ==> multiset(rows)[x] == multiset(Iter(report))[x]
  {
    IterTag(report, "row")
  }

  /** No row holds a `count` child that `int()` would reject. */
  predicate Readable(rows: seq<Element>, toInt: string -> Option<int>) {
    forall i :: 0 <= i < |rows| ==> CountsReadable(rows[i].children, toInt)
  }

  /** The data of every row, in order. */
  function RowsOf(rows: seq<Element>, toInt: string -> Option<int>): seq<RowData>
    requires Readable(rows, toInt)
  {
    seq(|rows|, i requires 0 <= i < |rows| => RowOf(rows[i], toInt))
  }

  /** One row more on the prefix of rows read so far. */
  lemma RowsOfSnoc(rows: seq<Element>, i: nat, toInt: string -> Option<int>)
    requires i < |rows|
    requires Readable(rows[..i], toInt)
    requires CountsReadable(rows[i].children, toInt)
    ensures Readable(rows[..i + 1], toInt)
    ensures RowsOf(rows[..i + 1], toInt) == RowsOf(rows[..i], toInt) + [RowOf(rows[i], toInt)]
  {
    assert rows[..i + 1] == rows[..i] + [rows[i]];
  }

  /** The sources that have at least one row in the given class. */
  function SourcesOf(data: seq<RowData>, passing: bool): set<Source> {
    set i | 0 <= i < |data| && data[i].Passes() == passing :: data[i].source
  }

  /** The sum of the counts of the rows in the given class whose source is k. */
  function KeyTotal(data: seq<RowData>, passing: bool, k: Source): int {
    if |data| == 0 then 0
    else
      var last := data[|data| - 1];
      KeyTotal(data[..|data| - 1], passing, k) + (if last.Passes() == passing && last.source == k then last.count else 0)
  }

  /** The tally a class of rows must produce: one entry for every source with
      a row in the class, holding the sum of those rows' counts. */
  function TallyRef(data: seq<RowData>, passing: bool): Tally {
    map k | k in SourcesOf(data, passing) :: KeyTotal(data, passing, k)
  }

  /** The sum of the counts of all rows. */
  function SumCounts(data: seq<RowData>): int {
    if |data| == 0 then 0 else SumCounts(data[..|data| - 1]) + data[|data| - 1].count
  }

  /** The sum of the counts of all rows whose source is k, whatever their class. */
  function SourceTotal(data: seq<RowData>, k: Source): int {
    if |data| == 0 then 0
    else
      var last := data[|data| - 1];
      SourceTotal(data[..|data| - 1], k) + (if last.source == k then last.count else 0)
  }

  /** Some row fails both DKIM and SPF. */
  predicate HasFailingRow(data: seq<RowData>) {
    exists i :: 0 <= i < |data| && !data[i].Passes()
  }

  /** A source without rows in a class has nothing to add up in that class. */
  lemma {:induction false} KeyTotalAbsent(data: seq<RowData>, passing: bool, k: Source)
    requires k !in SourcesOf(data, passing)
    ensures KeyTotal(data, passing, k) == 0
    decreases |data|
  {
    if |data| > 0 {
      var init := data[..|data| - 1];
      assert SourcesOf(init, passing) <= SourcesOf(data, passing) by {
        forall x | x in SourcesOf(init, passing)
          ensures x in SourcesOf(data, passing)
        {
          var i :| 0 <= i < |init| && init[i].Passes() == passing && init[i].source == x;
          assert data[i] == init[i];
        }
      }
      KeyTotalAbsent(init, passing, k);
      assert data[|data| - 1].Passes() == passing ==> data[|data| - 1].source in SourcesOf(data, passing);
    }
  }

  /** What each tally entry means: a key is present exactly when some row of
      the class has that source (so a row without source_ip gives the key
      None, distinct from every IP), its value is the sum of those rows'
      counts, and a source absent from the tally has no row of the class. */
  lemma {:induction false} TallyMeaning(data: seq<RowData>, passing: bool, k: Source)
    ensures k in TallyRef(data, passing) <==> exists i :: 0 <= i < |data| && data[i].Passes() == passing && data[i].source == k
    ensures k in TallyRef(data, passing) ==> TallyRef(data, passing)[k] == KeyTotal(data, passing, k)
    ensures k !in TallyRef(data, passing) ==> KeyTotal(data, passing, k) == 0
  {
    if k !in TallyRef(data, passing) {
      KeyTotalAbsent(data, passing, k);
    }
  }

  /** One row more: the tally of its class gains its count under its source
      (the key is created even for a zero count); the other tally is unchanged. */
  lemma TallyRefSnoc(data: seq<RowData>, d: RowData, passing: bool)
    ensures TallyRef(data + [d], passing) ==
      if d.Passes() == passing then Add(TallyRef(data, passing), d.source, d.count) else TallyRef(data, passing)
  {
    var data' := data + [d];
    assert data'[..|data|] == data;
    assert forall i :: 0 <= i < |data| ==> data'[i] == data[i];
    var before := TallyRef(data, passing);
    var after := TallyRef(data', passing);
    if d.Passes() == passing {
      assert SourcesOf(data', passing) == SourcesOf(data, passing) + {d.source} by {
        forall x | x in SourcesOf(data', passing)
          ensures x in SourcesOf(data, passing) + {d.source}
        {
          var i :| 0 <= i < |data'| && data'[i].Passes() == passing && data'[i].source == x;
          if i < |data| {
            assert data[i] == data'[i];
          }
        }
        assert data'[|data|] == d;
      }
      if d.source !in before {
        KeyTotalAbsent(data, passing, d.source);
      }
    } else {
      assert SourcesOf(data', passing) == SourcesOf(data, passing) by {
        forall x | x in SourcesOf(data', passing)
          ensures x in SourcesOf(data, passing)
        {
          var i :| 0 <= i < |data'| && data'[i].Passes() == passing && data'[i].source == x;
          assert i < |data|;
          assert data[i] == data'[i];
        }
      }
    }
  }

  /** Conservation of counts: every row's count lands in exactly one of the
      two tallies, so their totals add up to the sum of all row counts. */
  lemma {:induction false} TallyConservation(data: seq<RowData>)
    ensures Total(TallyRef(data, true)) + Total(TallyRef(data, false)) == SumCounts(data)
    decreases |data|
  {
    if |data| == 0 {
      assert TallyRef(data, true) == map[];
      assert TallyRef(data, false) == map[];
    } else {
      var init := data[..|data| - 1];
      var d := data[|data| - 1];
      assert data == init + [d];
      TallyConservation(init);
      TallyRefSnoc(init, d, true);
      TallyRefSnoc(init, d, false);
      if d.Passes() {
        TotalAdd(TallyRef(init, true), d.source, d.count);
      } else {
        TotalAdd(TallyRef(init, false), d.source, d.count);
      }
    }
  }

  /** Exclusive classification, key by key: for every source, its passing
      and failing sums together are the sum of all its rows' counts. */
  lemma {:induction false} KeyConservation(data: seq<RowData>, k: Source)
    ensures KeyTotal(data, true, k) + KeyTotal(data, false, k) == SourceTotal(data, k)
    decreases |data|
  {
    if |data| > 0 {
      KeyConservation(data[..|data| - 1], k);
    }
  }

  /** The failure tally is non-empty exactly when some row fails, whatever
      its count (a failing row with count 0 still creates its key). */
  lemma FailuresNonEmpty(data: seq<RowData>)
    ensures |TallyRef(data, false)| > 0 <==> HasFailingRow(data)
  {
    var f := TallyRef(data, false);
    if HasFailingRow(data) {
      var i :| 0 <= i < |data| && !data[i].Passes();
      assert data[i].source in f;
    } else {
      assert SourcesOf(data, false) == {};
      assert f == map[];
    }
  }

  /** `if dkim or spf: passes[source] += count else: failures[source] += count`:
      the tallies of the rows read so far become those of one row more. */
  method TallyRow(data: seq<RowData>, d: RowData, passes0: Tally, failures0: Tally)
    returns (passes: Tally, failures: Tally)
    requires passes0 == TallyRef(data, true) && failures0 == TallyRef(data, false)
    ensures passes == TallyRef(data + [d], true)
    ensures failures == TallyRef(data + [d], false)
  {
    TallyRefSnoc(data, d, true);
    TallyRefSnoc(data, d, false);
    if d.Passes() {
      passes, failures := Add(passes0, d.source, d.count), failures0;
    } else {
      passes, failures := passes0, Add(failures0, d.source, d.count);
    }
  }

  /** `parse_results`: read every `row` element and add its count to the
      passing or the failing tally under its source; an unreadable count
      makes the whole call fail, as the `int()` exception does. */
  method ParseResults(report: Element, toInt: string -> Option<int>) returns (r: Result<Results, AggregateError>)
    ensures r.Failure? <==> !Readable(Rows(report), toInt)
    ensures |Rows(report)| == 0 ==> r == Success(Results(map[], map[]))
    ensures report.tag != "row" && report.children == [] ==> r == Success(Results(map[], map[]))
    ensures r.Success? ==> r.value.passes == TallyRef(RowsOf(Rows(report), toInt), true)
    ensures r.Success? ==> r.value.failures == TallyRef(RowsOf(Rows(report), toInt), false)
    ensures r.Success? ==> Total(r.value.passes) + Total(r.value.failures) == SumCounts(RowsOf(Rows(report), toInt))
  {
    if report.tag != "row" && report.children == [] {
      assert Iter(report) == [report];
      assert report !in Rows(report);
    }
    var rows := Rows(report);
    var passes: Tally := map[];
    var failures: Tally := map[];
    var i := 0;
    while i < |rows|
      invariant 0 <= i <= |rows|
      invariant Readable(rows[..i], toInt)
      invariant passes == TallyRef(RowsOf(rows[..i], toInt), true)
      invariant failures == TallyRef(RowsOf(rows[..i], toInt), false)
    {
      var row := ReadRow(rows[i], toInt);
      if row.Failure? {
        assert !CountsReadable(rows[i].children, toInt);
        return Failure(row.error);
      }
      RowsOfSnoc(rows, i, toInt);
      passes, failures := TallyRow(RowsOf(rows[..i], toInt), row.value, passes, failures);
      i := i + 1;
    }
    assert rows[..i] == rows;
    TallyConservation(RowsOf(rows, toInt));
    return Success(Results(passes, failures));
  }
}
