# dmarc-forwarder, modelled in Dafny

`dmarcforwarder.py` reads one email and looks for a zipped DMARC aggregate
report in it. The report format is defined in Appendix C of RFC 7489. The
script tallies the report's rows per source IP into passing and failing
counts, and decides whether to forward a summary to an administrator.

This project models the decision pipeline of that script as pure Dafny over
abstract email and XML trees:

- `wrappers.dfy` (`Wrappers`): `Option` and `Result`.
- `tallies.dfy` (`Tallies`): the `defaultdict(int)` counters. `Add` is the
  get-or-zero-then-add update. `Total` is `sum(m.values())`, defined
  independently of key order.
- `email.dfy` (`Email`): a message is a tree of `Part`s. Each part has a
  content type, an `isMultipart` flag and its sub-parts. `Walk` is
  `Message.walk()` (pre-order, descending only into multipart parts).
  `GetZipPart` is `get_zippart`.
- `xml.dfy` (`Xml`): an ElementTree `Element` (tag, optional text,
  children). `Iter` is `Element.iter()`, proved to visit every descendant.
  `Tagged`/`IterTag` is `iter(tag)`, proved to keep every matching element
  as often as it occurs. `LastTagged` is "the last element with this tag".
- `aggregate.dfy` (`Aggregate`): `parse_results`. `ReadRow` and
  `ParseResults` are loops that mirror the script's loops. They are proved
  equal to an independent reference: `RowOf` states each field by last
  occurrence, and `TallyRef` builds one entry per source, holding the sum of
  that source's row counts.
- `forwarder.dfy` (`Forwarder`): `get_report` (`GetReport`), the rule
  `failed or args.forward_passing` (`ShouldForward`), `patch_email`
  (`PatchEmail`) and `main` (`Run`).

Several foreign calls are injected as function parameters instead of being
modelled:

- `toInt` stands for Python's `int()` on a string. It is `None` where
  `int()` raises.
- `entryNames` stands for decoding the zip part's payload and listing the
  archive. It is `None` when the payload is not a ZIP archive.
- `parseEntry` stands for `ET.parse` of one archive entry. It is `None` for
  malformed XML.
- `hostname` stands for `socket.gethostname()`.

A part's `contentType` is the value `get_content_type()` already returned,
after its lower-casing and defaulting.

Behaviour of the script worth noting:

- `get_zippart` returns the message itself whenever its own content type is
  `application/zip`, before it checks `is_multipart()`, whether or not the
  message is multipart.
- A `count` child whose text is missing or is not an integer makes
  `int(elem.text)` raise, and the whole aggregation fails.
  `ParseResults` returns `Failure(UnreadableCount)` and `Run` returns
  `AggregationFailed`. Only a row with NO `count` child contributes 0.
- Counts are whatever `int()` returns, so they may be negative. Tally
  values are `int`, not `nat`.
- The DKIM/SPF scan of a `policy_evaluated` child visits all of that
  child's descendants, not only its direct children. Several
  `policy_evaluated` children are scanned in document order, and the last
  `dkim` (or `spf`) element seen decides.

`ParseResults` has no hidden state. Its `ensures` fix both tallies as
functions of the tree (`TallyRef` of the rows), so two runs over the same
tree give identical maps.

## Model

| member | source | states |
|---|---|---|
| `Tallies.Add` | dmarcforwarder.py:84-86 | `m[k] += n` on a `defaultdict(int)`. The key is always present afterwards. It holds the old value plus n, or n when the key was new. Every other key keeps its value. |
| `Tallies.TotalAdd` | dmarcforwarder.py:84-86 | Adding n under any key raises the sum of all values by exactly n, whichever key it is. |
| `Email.Walk` | dmarcforwarder.py:54 | `msg.walk()` is never empty and yields the message itself first. |
| `Email.WalkCoversTree` | dmarcforwarder.py:54 | A part occurs in the walk of a message exactly when it is a part of the message's nested tree. Non-multipart parts are not descended into. |
| `Email.FirstZip` | dmarcforwarder.py:54-56 | The scan returns the first `application/zip` part in sequence order, with none before it. It returns None exactly when no part has that type. |
| `Email.GetZipPart` | dmarcforwarder.py:49-58 | A message of type `application/zip` returns itself. In every case the result is the first zip part of the message's walk, or None when the walk has none. This includes the non-multipart, non-zip message, whose walk is the message alone. |
| `Email.GetZipPartSearchesTree` | dmarcforwarder.py:53-58 | A returned part has type `application/zip` and lies in the message's tree. The result is None exactly when no part anywhere in the nested tree has that type. |
| `Xml.Iter` | dmarcforwarder.py:77 | `elem.iter()` yields the element itself first. |
| `Xml.IterCoversTree` | dmarcforwarder.py:77 | `elem.iter()` visits an element exactly when it is the element itself or one of its descendants at any depth. |
| `Xml.Tagged` | dmarcforwarder.py:65 | Filtering by tag keeps every element with the tag exactly as many times as it occurs, and no other element. Two identical `row` elements stay two rows. |
| `Xml.IterTag` | dmarcforwarder.py:65 | `report.iter(tag)` yields exactly the elements of the tree, at any depth, that carry the tag, each as many times as `iter()` visits it. |
| `Xml.LastTagged` | dmarcforwarder.py:71-81 | The value a loop that overwrites on every match ends with: the element at the last index carrying the tag, with no later match. It is None exactly when no element carries the tag. |
| `Xml.LastTaggedAppend` | dmarcforwarder.py:76-81 | In a concatenation, a match in the later part overrides every earlier one. An earlier match survives only when the later part has none. |
| `Aggregate.CountValue` | dmarcforwarder.py:73 | `int(elem.text)`: an element without text is unreadable whatever the integer reader. Otherwise the result is the reader's verdict on the text. |
| `Aggregate.RowFieldsSnoc` | dmarcforwarder.py:71-75 | One more child updates the count only if it is a `count` child, and fails if that count is unreadable. It updates the source only if it is a `source_ip` child, and extends the policy scope only if it is a `policy_evaluated` child. |
| `Aggregate.ReadChild` | dmarcforwarder.py:71-81 | One iteration over a row's children fails exactly when the new child is a `count` child that `int()` rejects. Otherwise the fields it yields are the last-occurrence fields of the children seen so far plus the new child. |
| `Aggregate.ScanPolicy` | dmarcforwarder.py:77-81 | After the scan, each verdict comes from the last `dkim` (or `spf`) element visited: true exactly when its text is `pass`. When no such element occurs, the verdict is the one held before the scan. |
| `Aggregate.ReadRow` | dmarcforwarder.py:66-81 | A row fails exactly when one of its direct `count` children cannot be read by `int()`. Otherwise its data is the reference `RowOf`: count from the last `count` child (0 without one), source from the last `source_ip` child (None without one), DKIM and SPF true only when the last such element under a `policy_evaluated` child says `pass`. |
| `Aggregate.Rows` | dmarcforwarder.py:65 | The rows aggregated are exactly the `row` elements anywhere in the report, the root included, each as many times as `iter()` visits it. |
| `Aggregate.KeyTotalAbsent` | dmarcforwarder.py:62-63 | A source with no row in a class sums to zero in that class, which is the defaultdict's implicit initial value. |
| `Aggregate.TallyMeaning` | dmarcforwarder.py:83-88 | A key is in a tally exactly when some row of that class has that source. This includes the key None for rows without `source_ip`, which never merges with a real IP. The key's value is the sum of those rows' counts. A key absent from the tally has no contributing rows. |
| `Aggregate.TallyRefSnoc` | dmarcforwarder.py:83-86 | One more row adds its count under its source to the tally of its class, creating the key even for a zero count. The other tally is left unchanged. |
| `Aggregate.TallyConservation` | dmarcforwarder.py:83-86 | The totals of the passing and failing tallies add up to the sum of all row counts: no count is lost or counted twice. |
| `Aggregate.KeyConservation` | dmarcforwarder.py:83-86 | For every source, its passing sum plus its failing sum is the sum of all its rows' counts. Each row is classified into exactly one tally. |
| `Aggregate.FailuresNonEmpty` | dmarcforwarder.py:86 | The failure tally is non-empty exactly when some row passes neither DKIM nor SPF, whatever that row's count. |
| `Aggregate.TallyRow` | dmarcforwarder.py:83-86 | One loop iteration takes the tallies of the rows read so far to the tallies of those rows plus the new one. |
| `Aggregate.ParseResults` | dmarcforwarder.py:61-88 | The aggregation fails exactly when some `row` element has an unreadable count. Otherwise the two tallies equal the reference tallies of all `row` elements at any depth, and their totals add up to the sum of the row counts. A report without `row` elements gives two empty tallies. |
| `Forwarder.GetReport` | dmarcforwarder.py:35-46 | Each outcome holds exactly when its cause does. "No zip part" means `get_zippart` finds none. "Not an archive" means the payload does not open as a ZIP archive. "Empty archive" means the archive lists no entry. "Malformed XML" means the first listed entry does not parse. Otherwise the result is a report, and that report is the parse of the FIRST listed entry. |
| `Forwarder.ShouldForward` | dmarcforwarder.py:136 | Not forwarding happens exactly when the flag is off and the failure tally is empty. |
| `Forwarder.ForwardIffFailingRow` | dmarcforwarder.py:136-139 | Over the tallies of any rows, forwarding happens exactly when `--forward-passing` is set or some row failed both checks, including a failing row with count 0. |
| `Forwarder.ReportRowFields` | dmarcforwarder.py:66-81 | A `row` element with `source_ip`, `count` and a `policy_evaluated` holding `disposition`, `dkim` and `spf` reads as that count, source and the two `pass` verdicts. |
| `Forwarder.TwoRowReport` | dmarcforwarder.py:65-88 | Worked example over XML rows: a row of 5 from 10.0.0.1 with DKIM `pass` and a row of 2 from 10.0.0.2 failing both give passes {10.0.0.1: 5} and failures {10.0.0.2: 2}, and the report is forwarded with default flags. |
| `Forwarder.PatchEmail` | dmarcforwarder.py:91-95 | The result always contains `@` and starts with the given address. It equals the address exactly when the address already has an `@`. Otherwise what follows the address is `@` and the host name. |
| `Forwarder.PatchEmailIdempotent` | dmarcforwarder.py:91-95 | Patching an already patched address changes nothing. |
| `Forwarder.Run` | dmarcforwarder.py:126-139 | A run ends with "no report" (exit status 1) exactly when the message has no zip part. Extraction or aggregation errors end the run exactly when they occur. Otherwise the run forwards exactly when the flag is set or some row failed. A forwarded copy carries the patched sender and destination and the reference tallies. |

## Left out

- Transfer decoding of the part payload, ZIP decompression and XML parsing (dmarcforwarder.py:42-46) are foreign library calls. They are the injected `entryNames` and `parseEntry`. Only the choice of the first listed entry, and the failure on an empty listing, are modelled.
- Python's integer-literal grammar for `int(elem.text)` (dmarcforwarder.py:73) is the injected `toInt`. The two exceptions `int()` can raise, `TypeError` for missing text and `ValueError` for a bad literal, are one error, `UnreadableCount`.
- Parsing the content-type header (lower-casing, defaults) inside `get_content_type()` is not modelled. `Part.contentType` is its result.
- Argument parsing (dmarcforwarder.py:23-32), reading the message (dmarcforwarder.py:128), stderr output (dmarcforwarder.py:17-20) and `exit(1)` (dmarcforwarder.py:132) are I/O. `Run` returns the distinguishable outcome instead.
- `send_report` (dmarcforwarder.py:98-123) builds MIME, re-encodes the attachment, looks up reverse DNS and delivers over SMTP. All of that is network I/O and text formatting and is left out. Only its two `patch_email` calls (dmarcforwarder.py:100-101) appear, as the addresses in `Forwarded`.
- `socket.gethostname()` is the `hostname` parameter.
