/** The top of the script: obtaining the report from the message
    (`get_report`), the forwarding rule of `main`, and the address patching
    used for the sender and the recipient of the forwarded copy. */
module Forwarder {
  import opened Wrappers
  import opened Email
  import opened Xml
  import opened Aggregate

  /** Why a zip part could not be turned into a report; in the script each
      of these is an exception that ends the process. */
  datatype ExtractError =
    | NotAnArchive   // the decoded payload is not a ZIP archive
    | EmptyArchive   // `namelist()[0]` on an archive without entries
    | MalformedXml   // the first entry does not parse as XML

  /** What `get_report` comes back with. */
  datatype Extraction =
    | NoZipPart                      // returns None: nothing to do
    | Broken(error: ExtractError)    // raises
    | Report(root: Element)          // the parsed report

  /** The outcome of one run of `main`. */
  datatype RunOutcome =
    | NoReport                                   // "does not contain a zip file", exit status 1
    | ExtractionFailed(error: ExtractError)
    | AggregationFailed(reason: AggregateError)
    | Forwarded(sender: string, recipient: string, passes: Tally, failures: Tally)
    | Withheld                                   // "Not forwarding report with only passes."

  /** `get_report`: locate the zip part, list its archive (entryNames stands
      for decoding the payload and opening it with the zip library, None when
      that fails), and parse the FIRST listed entry (parseEntry stands for
      the XML parser, None for malformed XML). No entry name is ever checked. */
  function GetReport(msg: Part, entryNames: Part -> Option<seq<string>>,
                     parseEntry: (Part, string) -> Option<Element>): (r: Extraction)
    ensures r.NoZipPart? <==> GetZipPart(msg).None?
    ensures r == Broken(NotAnArchive) <==> GetZipPart(msg).Some? && entryNames(GetZipPart(msg).value).None?
    ensures r == Broken(EmptyArchive) <==> GetZipPart(msg).Some? && entryNames(GetZipPart(msg).value) == Some([])
    ensures r == Broken(MalformedXml) <==>
      && GetZipPart(msg).Some?
      && var names := entryNames(GetZipPart(msg).value);
      && names.Some? && |names.value| > 0
      && parseEntry(GetZipPart(msg).value, names.value[0]).None?
    ensures r.Report? <==>
      && GetZipPart(msg).Some?
      && var names := entryNames(GetZipPart(msg).value);
      && names.Some? && |names.value| > 0
      && parseEntry(GetZipPart(msg).value, names.value[0]).Some?
    ensures r.Report? ==>
      parseEntry(GetZipPart(msg).value, entryNames(GetZipPart(msg).value).value[0]) == Some(r.root)
  {
    match GetZipPart(msg)
    case None => NoZipPart
    case Some(part) =>
      match entryNames(part)
      case None => Broken(NotAnArchive)
      case Some(names) =>
        if |names| == 0 then Broken(EmptyArchive)
        else
          match parseEntry(part, names[0])
          case None => Broken(MalformedXml)
          case Some(root) => Report(root)
  }

  /** `if failed or args.forward_passing`: a non-empty failure tally or the flag. */
  function ShouldForward(failures: Tally, forwardPassing: bool): (r: bool)
    ensures !r <==> !forwardPassing && failures == map[]
  {
    assert failures != map[] ==> |failures| > 0 by {
      if failures != map[] {
        var k :| k in failures;
      }
    }
    |failures| > 0 || forwardPassing
  }

  /** The forwarding rule applied to the tallies of a set of rows: forward
      exactly when the flag is set or some row failed both checks, even a
      failing row with count 0. */
  lemma ForwardIffFailingRow(data: seq<RowData>, forwardPassing: bool)
    ensures ShouldForward(TallyRef(data, false), forwardPassing) <==> forwardPassing || HasFailingRow(data)
  {
    FailuresNonEmpty(data);
  }

  /** A `row` element as a DMARC aggregate report writes it: count,
      source_ip, and the evaluated DKIM and SPF results. */
  function ReportRow(count: string, source: string, dkim: string, spf: string): Element {
    Element("row", None, [
      Element("source_ip", Some(source), []),
      Element("count", Some(count), []),
      PolicyEvaluated(dkim, spf)])
  }

  /** The `policy_evaluated` element of such a row. */
  function PolicyEvaluated(dkim: string, spf: string): Element {
    Element("policy_evaluated", None, [
      Element("disposition", Some("none"), []),
      Element("dkim", Some(dkim), []),
      Element("spf", Some(spf), [])])
  }

  /** The only `count` child of such a row is its count. */
  lemma ReportRowReadable(count: string, source: string, dkim: string, spf: string, toInt: string -> Option<int>)
    requires toInt(count).Some?
    ensures CountsReadable(ReportRow(count, source, dkim, spf).children, toInt)
  {
    var cs := ReportRow(count, source, dkim, spf).children;
    assert cs[0].tag != "count" by { assert |cs[0].tag| == 9; }
    assert cs[2].tag != "count" by { assert |cs[2].tag| == 16; }
    assert CountValue(cs[1], toInt).Some?;
  }

  /** `iter()` of the policy element visits it and then its three leaves. */
  lemma PolicyEvaluatedIter(dkim: string, spf: string)
    ensures var pol := PolicyEvaluated(dkim, spf);
      Iter(pol) == [pol] + pol.children
  {
    var ch := PolicyEvaluated(dkim, spf).children;
    assert Iter(ch[0]) == [ch[0]] && Iter(ch[1]) == [ch[1]] && Iter(ch[2]) == [ch[2]];
    assert IterAll(ch[3..]) == [];
    assert IterAll(ch[2..]) == [ch[2]];
    assert IterAll(ch[1..]) == [ch[1], ch[2]];
  }

  /** The scan of such a row visits exactly its `policy_evaluated` element's tree. */
  lemma ReportRowScope(count: string, source: string, dkim: string, spf: string)
    ensures PolicyScope(ReportRow(count, source, dkim, spf).children) == Iter(PolicyEvaluated(dkim, spf))
  {
    var cs := ReportRow(count, source, dkim, spf).children;
    assert cs[..2] == [cs[0], cs[1]] && cs[..1] == [cs[0]] && cs[..0] == [];
    assert cs[0].tag != "policy_evaluated" by { assert |cs[0].tag| == 9; }
    assert cs[1].tag != "policy_evaluated" by { assert |cs[1].tag| == 5; }
    assert PolicyScope(cs[..1]) == [];
    assert PolicyScope(cs[..2]) == [];
  }

  /** The last match in a sequence whose final element does not match is
      the match of its third element, when that one does. */
  lemma LastTaggedThirdOfFour(a: Element, b: Element, c: Element, d: Element, tag: string)
    requires c.tag == tag && d.tag != tag
    ensures LastTagged([a, b, c, d], tag) == Some(c)
  {
    assert [a, b, c, d] == [a, b, c] + [d];
    LastTaggedSnoc([a, b, c], d, tag);
    assert [a, b, c] == [a, b] + [c];
    LastTaggedSnoc([a, b], c, tag);
  }

  /** The elements the scan of such a row visits. */
  lemma ReportRowVisit(count: string, source: string, dkim: string, spf: string)
    ensures var pol := PolicyEvaluated(dkim, spf);
      PolicyScope(ReportRow(count, source, dkim, spf).children) == [pol, pol.children[0], pol.children[1], pol.children[2]]
  {
    ReportRowScope(count, source, dkim, spf);
    PolicyEvaluatedIter(dkim, spf);
  }

  /** The SPF element of such a row is the last one the scan finds. */
  lemma ReportRowSpf(count: string, source: string, dkim: string, spf: string)
    ensures LastTagged(PolicyScope(ReportRow(count, source, dkim, spf).children), "spf") ==
      Some(Element("spf", Some(spf), []))
  {
    ReportRowVisit(count, source, dkim, spf);
    var pol := PolicyEvaluated(dkim, spf);
    var ch := pol.children;
    assert [pol, ch[0], ch[1], ch[2]] == [pol, ch[0], ch[1]] + [ch[2]];
    LastTaggedSnoc([pol, ch[0], ch[1]], ch[2], "spf");
  }

  /** The DKIM element of such a row is the last one the scan finds. */
  lemma ReportRowDkim(count: string, source: string, dkim: string, spf: string)
    ensures LastTagged(PolicyScope(ReportRow(count, source, dkim, spf).children), "dkim") ==
      Some(Element("dkim", Some(dkim), []))
  {
    ReportRowVisit(count, source, dkim, spf);
    var pol := PolicyEvaluated(dkim, spf);
    var ch := pol.children;
    assert ch[2].tag != "dkim" by {
      assert ch[2].tag[0] == 's';
    }
    LastTaggedThirdOfFour(pol, ch[0], ch[1], ch[2], "dkim");
  }

  /** The row data read from such a row element. */
  lemma ReportRowFields(count: string, source: string, dkim: string, spf: string, toInt: string -> Option<int>)
    requires toInt(count).Some?
    ensures CountsReadable(ReportRow(count, source, dkim, spf).children, toInt)
    ensures RowOf(ReportRow(count, source, dkim, spf), toInt) ==
      RowData(toInt(count).value, Some(source), dkim == "pass", spf == "pass")
  {
    ReportRowReadable(count, source, dkim, spf, toInt);
    ReportRowDkim(count, source, dkim, spf);
    ReportRowSpf(count, source, dkim, spf);
    var cs := ReportRow(count, source, dkim, spf).children;
    assert cs == cs[..2] + [cs[2]] && cs[..2] == [cs[0]] + [cs[1]];
    assert cs[2].tag != "count" && cs[2].tag != "source_ip" by { assert |cs[2].tag| == 16; }
    assert cs[1].tag != "source_ip" by { assert |cs[1].tag| == 5; }
    LastTaggedSnoc(cs[..2], cs[2], "count");
    LastTaggedSnoc(cs[..2], cs[2], "source_ip");
    LastTaggedSnoc([cs[0]], cs[1], "count");
    LastTaggedSnoc([cs[0]], cs[1], "source_ip");
    LastTaggedSnoc([], cs[0], "source_ip");
    assert [cs[0]] == [] + [cs[0]];
  }

  /** The tallies of a passing row of 5 from 10.0.0.1 and a failing row of 2 from 10.0.0.2. */
  lemma TwoRowTallies(data: seq<RowData>)
    requires |data| == 2
    requires data[0] == RowData(5, Some("10.0.0.1"), true, false)
    requires data[1] == RowData(2, Some("10.0.0.2"), false, false)
    ensures TallyRef(data, true) == map[Some("10.0.0.1") := 5]
    ensures TallyRef(data, false) == map[Some("10.0.0.2") := 2]
  {
    var a, b := data[0], data[1];
    assert data == [a] + [b];
    assert [a] == [] + [a];
    TallyRefSnoc([], a, true);
    TallyRefSnoc([], a, false);
    TallyRefSnoc([a], b, true);
    TallyRefSnoc([a], b, false);
    assert TallyRef([], true) == map[];
    assert TallyRef([], false) == map[];
  }

  /** The first row of the example: 5 mails from 10.0.0.1, DKIM passed. The
      count text is any text that `int()` reads as 5. */
  lemma PassingRow(five: string, toInt: string -> Option<int>)
    requires toInt(five) == Some(5)
    ensures CountsReadable(ReportRow(five, "10.0.0.1", "pass", "fail").children, toInt)
    ensures RowOf(ReportRow(five, "10.0.0.1", "pass", "fail"), toInt) == RowData(5, Some("10.0.0.1"), true, false)
  {
    assert "fail" != "pass" by {
      assert "fail"[0] == 'f';
    }
    ReportRowFields(five, "10.0.0.1", "pass", "fail", toInt);
  }

  /** The second row of the example: 2 mails from 10.0.0.2, both checks failed. */
  lemma FailingRow(two: string, toInt: string -> Option<int>)
    requires toInt(two) == Some(2)
    ensures CountsReadable(ReportRow(two, "10.0.0.2", "fail", "fail").children, toInt)
    ensures RowOf(ReportRow(two, "10.0.0.2", "fail", "fail"), toInt) == RowData(2, Some("10.0.0.2"), false, false)
  {
    assert "fail" != "pass" by {
      assert "fail"[0] == 'f';
    }
    ReportRowFields(two, "10.0.0.2", "fail", "fail", toInt);
  }

  /** The rows of the example report: 5 mails from 10.0.0.1 passed DKIM,
      2 mails from 10.0.0.2 failed both checks. */
  function ExampleRows(five: string, two: string): seq<Element> {
    [ReportRow(five, "10.0.0.1", "pass", "fail"), ReportRow(two, "10.0.0.2", "fail", "fail")]
  }

  /** The data read from the example rows. */
  lemma ExampleRowData(five: string, two: string, toInt: string -> Option<int>)
    requires toInt(five) == Some(5) && toInt(two) == Some(2)
    ensures Readable(ExampleRows(five, two), toInt)
    ensures |RowsOf(ExampleRows(five, two), toInt)| == 2
    ensures RowsOf(ExampleRows(five, two), toInt)[0] == RowData(5, Some("10.0.0.1"), true, false)
    ensures RowsOf(ExampleRows(five, two), toInt)[1] == RowData(2, Some("10.0.0.2"), false, false)
  {
    var rows := ExampleRows(five, two);
    var ra, rb := rows[0], rows[1];
    PassingRow(five, toInt);
    FailingRow(two, toInt);
    ReadableOfTwo(rows, toInt);
    var data := RowsOf(rows, toInt);
    assert data[0] == RowOf(ra, toInt);
    assert data[1] == RowOf(rb, toInt);
  }

  /** Two rows whose counts are readable make a readable list. */
  lemma ReadableOfTwo(rows: seq<Element>, toInt: string -> Option<int>)
    requires |rows| == 2
    requires CountsReadable(rows[0].children, toInt) && CountsReadable(rows[1].children, toInt)
    ensures Readable(rows, toInt)
  {
  }

  /** The example report tallies 5 passes for 10.0.0.1 and 2 failures for
      10.0.0.2, and is forwarded without `--forward-passing`. */
  lemma TwoRowReport(five: string, two: string, toInt: string -> Option<int>)
    requires toInt(five) == Some(5) && toInt(two) == Some(2)
    ensures Readable(ExampleRows(five, two), toInt)
    ensures TallyRef(RowsOf(ExampleRows(five, two), toInt), true) == map[Some("10.0.0.1") := 5]
    ensures TallyRef(RowsOf(ExampleRows(five, two), toInt), false) == map[Some("10.0.0.2") := 2]
    ensures ShouldForward(TallyRef(RowsOf(ExampleRows(five, two), toInt), false), false)
  {
    ExampleRowData(five, two, toInt);
    var data := RowsOf(ExampleRows(five, two), toInt);
    TwoRowTallies(data);
    assert Some("10.0.0.2") in TallyRef(data, false);
  }

  /** `patch_email`: an address without '@' gets "@" and the local host name
      appended (hostname stands for `socket.gethostname()`); an address that
      has one is kept as it is. */
  function PatchEmail(addr: string, hostname: string): (r: string)
    ensures '@' in r
    ensures addr <= r
    ensures r == addr <==> '@' in addr
    ensures '@' !in addr ==> r[|addr|..] == "@" + hostname
  {
    if '@' !in addr then
      var r := addr + "@" + hostname;
      assert r[|addr|] == '@';
      r
    else addr
  }

  /** Patching twice is patching once. */
  lemma PatchEmailIdempotent(addr: string, hostname: string)
    ensures PatchEmail(PatchEmail(addr, hostname), hostname) == PatchEmail(addr, hostname)
  {
  }

  const SenderName: string := "dmarc-forwarder"

  /** `main`, given the parsed message and the collaborators that stand for
      the zip library, the XML parser, `int()` and the local host name. */
  method Run(msg: Part, entryNames: Part -> Option<seq<string>>,
             parseEntry: (Part, string) -> Option<Element>, toInt: string -> Option<int>,
             forwardPassing: bool, destination: string, hostname: string)
    returns (outcome: RunOutcome)
    ensures outcome == NoReport <==> GetZipPart(msg).None?
    ensures outcome.ExtractionFailed? <==> GetReport(msg, entryNames, parseEntry).Broken?
    ensures outcome.AggregationFailed? <==>
      var e := GetReport(msg, entryNames, parseEntry);
      e.Report? && !Readable(Rows(e.root), toInt)
    ensures outcome.Forwarded? <==>
      var e := GetReport(msg, entryNames, parseEntry);
      && e.Report? && Readable(Rows(e.root), toInt)
      && (forwardPassing || HasFailingRow(RowsOf(Rows(e.root), toInt)))
    ensures outcome.Forwarded? ==>
      var e := GetReport(msg, entryNames, parseEntry);
      && e.Report? && Readable(Rows(e.root), toInt)
      && outcome.sender == PatchEmail(SenderName, hostname)
      && outcome.recipient == PatchEmail(destination, hostname)
      && outcome.passes == TallyRef(RowsOf(Rows(e.root), toInt), true)
      && outcome.failures == TallyRef(RowsOf(Rows(e.root), toInt), false)
  {
    var extraction := GetReport(msg, entryNames, parseEntry);
    match extraction {
      case NoZipPart =>
        return NoReport;
      case Broken(error) =>
        return ExtractionFailed(error);
      case Report(root) =>
        var results := ParseResults(root, toInt);
        if results.Failure? {
          return AggregationFailed(results.error);
        }
        var data := RowsOf(Rows(root), toInt);
        ForwardIffFailingRow(data, forwardPassing);
        if ShouldForward(results.value.failures, forwardPassing) {
          return Forwarded(PatchEmail(SenderName, hostname), PatchEmail(destination, hostname),
                           results.value.passes, results.value.failures);
        }
        return Withheld;
    }
  }
}
