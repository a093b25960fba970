# UBC tennis court notifications: availability extraction and change detection

UbcTennisNotifications watches the UBC tennis courts' booking pages. It tells
subscribers by e-mail when slots appear that were not there before. The
repository ships two variants of one pipeline:

- `index.mjs` is a scheduled serverless handler. One invocation reads every
  court's page. It compares what it found with the snapshot cached in a
  key-value table. It mails the new slots as an HTML table. After a send, it
  overwrites the cache with the full snapshot.
- `index.js` is a long-running loop. It compares each run with the previous
  run's snapshot, held in memory. Then it waits a minute and calls itself
  again with the new snapshot.

The model covers the logic both variants share and the parts where they
differ:

- **Reading a court's page** (module `GridDecoder`):
  - the day headers are bound to the fixed column offsets
    `2px, 124px, 245px, 367px, 488px`;
  - the spans whose text contains "Book Now" are kept;
  - each kept span gets the date of the column whose offset is nearest to
    the `style.left` of its grid cell, by `parseInt` and a `reduce` that
    keeps the earliest of equally near columns.
- **Collecting a run** (module `Collector`): the courts are read in order.
  The first court that fails ends the run, leaving only what was stored
  before it.
- **Deciding what is new:**
  - the handler compares bookings on all of (time, date, court URL), per
    court of the current run (module `LambdaHandler`);
  - the loop compares the text `${time}-${date}` and lists only the courts
    that have something new (module `PollingLoop`).
- **Building the e-mail** (module `Report`): `areAllCourtsEmpty` decides
  whether to send. `formatMessage` builds the HTML table: one row per
  booking, courts in `for...in` order (ascending court number), `null` and
  `undefined` rendered as JavaScript template literals render them.
- **One invocation or one run, end to end:**
  - the handler's cache read and write (a one-item table class), the send,
    the responses, and what an exception leaves behind;
  - the loop's hand-over of its snapshot to the next run.

JavaScript semantics the model writes out:

- `parseInt(s, 10)` (module `JsText`), with `NaN` as `None`;
- comparisons with `NaN`, which are always false;
- the key `"undefined"` that `gridSpacing[i]` yields past the end of the
  offsets;
- `${}` interpolation of `null` and `undefined`.

The browser, e-mail service, table service and clock are not modelled as
code. Their results are parameters:

- each court's page outcome is a `Visit`;
- whether the cache read, the send and the cache write succeed are booleans.

Behaviour of the code worth knowing:

- **More day headers than offsets.** There is no fail-fast: the extra
  headers are written under the key `"undefined"`, and later ones overwrite
  earlier ones (`GridDecoder.DayMapping`).
- **Partial snapshots in the loop.** The loop hands on the partial snapshot
  of a run that stopped part way. The next run compares against it, so
  courts it lacks that have bookings are listed whole (`PollingLoop.PartialRunRemails`).
- **Missing cache in the handler.** A missing or unreadable cache is not
  treated as empty: `oldBookings[court]` throws, so the run sends nothing
  and writes nothing (`LambdaHandler.MissingCacheIsSilent`; see Findings).
- **What the loop compares by.** The loop ignores the court URL, and its
  text key can make different bookings collide
  (`PollingLoop.UrlIgnored`, `PollingLoop.TextsCollide`).
- **Courts with nothing new.** The loop leaves them out of the delta; the
  handler keeps them with an empty list.
- **A failed send in the loop.** The loop still hands on the run's snapshot,
  so bookings whose mail failed are not mailed again while consecutive
  complete runs still show them (`PollingLoop.RepeatIsQuiet`). A later
  partial run can bring them back (`PollingLoop.PartialRunRemails`).
- **A failed send in the handler.** The handler throws and writes nothing,
  so the next run retries them.

## Model

| member | source | states |
|---|---|---|
| JsText.TrimStart | index.mjs:115 | `parseInt` skips exactly the leading white space: the result is a suffix of the input that does not start with a space |
| JsText.ParseInt | index.mjs:115-117 | `parseInt(s, 10)` is `NaN` exactly when no digit follows the leading white space and an optional sign; without a `-` sign the number is non-negative |
| JsText.DecimalText | index.mjs:219 | `${court}` of a court number is a non-empty run of decimal digits |
| JsText.DecimalTextValue | index.mjs:219 | the decimal text of a court number denotes that number |
| JsText.ParseIntOfDecimal | index.mjs:115-118 | `parseInt("<n>px", 10)` is `n`: the decimal text of any number followed by a suffix that does not start with a digit parses to that number |
| JsText.IncludesIffOccurs | index.mjs:105 | `text.includes("Book Now")` holds exactly when the marker occurs at some position of the text |
| Seqs.FilterMembers | index.mjs:241-247 | `filter` keeps exactly the elements its callback accepts |
| Seqs.FilterCounts | index.mjs:241-247 | `filter` keeps each accepted element as often as it occurs, and drops the others entirely |
| Seqs.FilterIsSubsequence | index.mjs:241-247 | `filter` keeps the original order |
| Seqs.FilterIdempotent | index.mjs:104-105 | filtering twice with the same callback is filtering once |
| GridDecoder.ClosestIndex | index.mjs:116-121 | the `reduce` returns an index of the table, and leaves the first entry only for one strictly nearer than it (never when either distance is `NaN`) |
| GridDecoder.ClosestSpacing | index.mjs:114-122 | `findClosestSpacing` always returns an entry of the offset table |
| GridDecoder.ClosestIsEarliestNearest | index.mjs:116-121 | for a parsed `left`, the chosen offset is at least as near as every offset and strictly nearer than every earlier one: ties go to the leftmost column |
| GridDecoder.ClosestOfNaN | index.mjs:115-121 | an unparseable `left` (`NaN`) makes every comparison false, so the first offset is chosen |
| GridDecoder.DayMapping | index.mjs:96-99 | every bound value is a day header read from the page, and the last header read owns its key |
| GridDecoder.BuildDayMapping | index.mjs:95-99 | the day loop builds `cellToDayMapping`, with later writes to a key overriding earlier ones |
| GridDecoder.DayMappingBinds | index.mjs:97-99 | offset `i` is bound exactly when header `i` was read, and then to that header; every other key is `"undefined"` |
| GridDecoder.GridSpacingDistinct | index.mjs:95 | the five offsets are distinct and none is the text `"undefined"` |
| GridDecoder.TableOfDecimals | index.mjs:117 | a table whose entries are decimal numbers followed by `px` parses entry by entry to those numbers |
| GridDecoder.GridSpacingParses | index.mjs:95-117 | the offsets `"2px"`, `"124px"`, `"245px"`, `"367px"`, `"488px"` parse to 2, 124, 245, 367 and 488, so none is `NaN` |
| GridDecoder.GridSpacingNearest | index.mjs:95-122 | on the programs' own table, a parsed `left` lands in the column whose pixel value is nearest, the leftmost one on a tie |
| GridDecoder.SecondColumn | index.mjs:95-122 | a `left` from 64 to 184 pixels lands in the `"124px"` column (63 ties with `"2px"`, which wins) |
| GridDecoder.SecondColumnDate | index.mjs:95-110 | with at least two headers read, such a cell's date is the second header (a `130px` cell under "Mon", "Tue", … is dated "Tue") |
| GridDecoder.NearestOf130 | index.mjs:114-122 | `findClosestSpacing(gridSpacing, "130px")` is `"124px"` |
| GridDecoder.DateOfSpan | index.mjs:110 | a span's date is the header of the nearest column when that many headers were read, `undefined` otherwise |
| GridDecoder.DecodeSpans | index.mjs:104-112 | on success, one record per "Book Now" span, in page order, each with the span's `title` as its time, the court's URL, and as its date the mapping's entry for the offset nearest the span's grid cell |
| GridDecoder.DecodeFailsIff | index.mjs:104-112 | extraction throws exactly when some "Book Now" span lies outside any grid cell |
| GridDecoder.DecodeIgnoresUnbookable | index.mjs:104-105 | spans without the marker never affect the result, whatever their cell |
| Collector.CollectBookings | index.mjs:81-133 | the court loop yields the snapshot and the completion flag of the collection function `Collected` |
| Collector.FailureIsFinal | index.mjs:81-133 | once a court has failed, the later courts change nothing |
| Collector.CompleteIff | index.mjs:81-133 | the loop runs through every court exactly when every court's page yields its bookings |
| Collector.CompleteKeys | index.mjs:132 | a complete run stores exactly the tracked courts' numbers |
| Collector.CompleteValues | index.mjs:132 | with distinct court numbers, each court's decoded bookings are stored under its number |
| Collector.FirstFailure | index.js:57-112 | when court `k` is the first to fail, the snapshot is exactly what the courts before it stored |
| Report.SortedKeys | index.mjs:213 | `for...in` over court numbers visits each key once, in strictly increasing order |
| Report.AppendRows | index.mjs:216-225 | `forEach` appends one row per booking of the court, in list order |
| Report.AppendCourts | index.mjs:213-227 | the court loop appends the rows of every listed court, skipping empty ones |
| Report.FormatMessage | index.mjs:198-231 | `formatMessage` returns header, rows and footer as the message function `Message` defines them |
| Report.CourtEntriesMember | index.mjs:216-224 | a court's rows are that court paired with each of its bookings |
| Report.EntriesMember | index.mjs:213-227 | the table has a row for every booking of every court and no other |
| Report.EntriesOrdered | index.mjs:213 | rows come court by court in increasing court number |
| Report.EntriesOfCourt | index.mjs:213-226 | the rows of one court are exactly its bookings, each once, in list order |
| Report.JoinedRowsEmpty | index.mjs:217-224 | no row is empty text, so the rows are empty exactly when there are no entries |
| Report.AllCourtsEmpty | index.mjs:293-295 | `Object.values(courts).every(b => b.length === 0)` holds exactly when every court's list is empty |
| Report.AllCourtsEmptyIff | index.mjs:293-295 | `areAllCourtsEmpty` holds exactly when the table would have no row |
| Report.MessageBareIff | index.mjs:198-231 | the message is the bare table exactly when every court's list is empty |
| LambdaHandler.NewBookings | index.mjs:233-253 | the diff throws exactly when the cache is missing and some court was read; otherwise it has one entry per court of the run |
| LambdaHandler.GetNewBookings | index.mjs:233-253 | the `for...in` loop computes `NewBookings` whatever order it visits the courts in |
| LambdaHandler.DeltaContents | index.mjs:241-247 | a court's new bookings are its current bookings absent from its cached list (same time, date and URL), each as often as it occurs, in page order |
| LambdaHandler.DeltaOfSelf | index.mjs:233-253 | comparing a snapshot with itself finds nothing new in any court |
| LambdaHandler.NotifyIff | index.mjs:138-140 | there is something to mail exactly when some current booking is not in the cache |
| LambdaHandler.BookingsTable.GetBookings | index.mjs:272-291 | the read returns the stored item, or `undefined` when there is none or the read fails |
| LambdaHandler.BookingsTable.PutBookings | index.mjs:255-270 | a successful write replaces the item; a failed one is swallowed and leaves it unchanged |
| LambdaHandler.Handler | index.mjs:53-196 | one invocation yields the response, e-mail and cache of the run function `HandlerRun` |
| LambdaHandler.CacheFollowsMail | index.mjs:163-165 | the cache is overwritten exactly when an e-mail went out and the write succeeds, and then holds the full snapshot, not the delta; otherwise it is unchanged |
| LambdaHandler.FailedCollectionIsSilent | index.mjs:81-185 | a court whose page cannot be read or decoded ends the invocation with no response, no e-mail and no write |
| LambdaHandler.MissingCacheIsSilent | index.mjs:137-138 | with no cached item or a failed read, any run that read a court sends nothing, returns nothing and writes nothing |
| LambdaHandler.RerunIsQuiet | index.mjs:137-183 | after a run that mailed and wrote, a run over the same pages whose cache read succeeds answers "No new court bookings found." and leaves the cache alone |
| LambdaHandler.MailIff | index.mjs:137-175 | with a readable cache, a complete run mails exactly when some booking is not cached and the send succeeds, and the mail lists the new bookings |
| LambdaHandler.NewBookingsOrEmpty | index.mjs:238 | corrected diff: a missing cache compares like an empty one; one entry per court of the run |
| LambdaHandler.OrEmptyAgrees | index.mjs:233-253 | wherever the diff as written does not throw, the corrected diff gives the same result |
| LambdaHandler.OrEmptyListsAll | index.mjs:238 | with the correction, a run without a cache lists every booking, so it has something to mail exactly when some court has bookings |
| PollingLoop.GetNewBookings | index.js:195-226 | the loop's diff is `Delta`: each court of the new run with a booking whose text is new, listed with those bookings |
| PollingLoop.TwoStageFilter | index.js:212-221 | filtering the new texts and then the bookings carrying one of them keeps exactly the bookings whose text is new |
| PollingLoop.NewTextsIff | index.js:212-217 | there are new texts exactly when some booking's text is new |
| PollingLoop.DeltaKeys | index.js:198-223 | a court is listed exactly when one of its bookings has a text none of its previous bookings had; no listed court is empty |
| PollingLoop.DeltaContents | index.js:219-221 | a listed court's bookings are its current bookings with new texts, each as often as it occurs, in page order |
| PollingLoop.DeltaOfSelf | index.js:195-226 | comparing a snapshot with itself lists no court |
| PollingLoop.EmptyIffNoCourts | index.js:191-193 | the loop's delta has nothing to mail exactly when it lists no court |
| PollingLoop.NewCourtListedWhole | index.js:200 | a court the previous snapshot lacks that has bookings is listed with all its bookings |
| PollingLoop.TextsCollide | index.js:202 | two different bookings can share one text (a time containing `-`); a booking whose text matches a different booking of the previous run is then not reported |
| PollingLoop.UrlIgnored | index.js:201-209 | for any two snapshots, a booking whose time and date match one of its court's previous bookings is not listed, whatever court URL either run recorded |
| PollingLoop.PublishAvailableTennisCourts | index.js:55-151 | one run yields the snapshot it hands on and the e-mail it sends, as the step function `PublishStep` defines them |
| PollingLoop.Poll | index.js:53 | the recursion, started from `{}`, sends the e-mails of the run sequence function `Mails` |
| PollingLoop.HandsOnCollection | index.js:144-150 | the snapshot handed on is this run's collection, mailed or not, even when it stopped part way; a partial run mails nothing |
| PollingLoop.RepeatIsQuiet | index.js:114-150 | a run that sees the same pages as the run before mails nothing, even when the earlier send failed |
| PollingLoop.FirstRunListsAll | index.js:53 | the first run, from `{}`, lists every court with bookings, with all of them |
| PollingLoop.PartialRunRemails | index.js:144-150 | after a partial run, the next run lists every court the partial snapshot lacks that has bookings, with all its bookings |

## Left out

- Browser automation: launching Chromium, navigation, `waitForSelector` with its timeouts, reading `textContent`, `closest('[role="gridcell"]')` and `style.left`. A court's page is a `Visit` whose outcome is given; any failure of these steps is `Unreachable`.
- E-mail delivery and recipient discovery (`fetchVerifiedEmailAddresses`, `sendEmail`): their success is the `sendOk` flag. The e-mail subject with its timestamp is not modelled. Recipients are not modelled either. In `index.mjs`, the `filter` with an `async` callback keeps every identity.
- Table service I/O: the cache is an `Option<Snapshot>` in a one-item class, and the `readOk`/`writeOk` flags say whether the read and the write succeed. The `JSON.stringify`/`JSON.parse` round trip is taken as the identity. This holds for snapshots: court numbers become string keys that `for...in` and indexing use alike, `null` survives as `null`, and a dropped `undefined` date reads back as `undefined`.
- The handler's response body is modelled as its fields, not its JSON text. The handler's `event` argument is unused. Logging, the `finally` that closes the browser and the module-level AWS configuration are not modelled.
- Clocks and the 60-second sleep. The loop's unbounded self-recursion is modelled as a finite sequence of runs (`PollingLoop.Mails`).
- The court list: both programs track courts 1-8 and 10 with fixed URLs. The model takes any sequence of courts.
- JsText.ParseInt: models decimal `parseInt` for the inputs it can meet here (no exponent, no radix prefix). `NaN` and numbers are kept apart, but `-0` and precision loss beyond 2^53 are not modelled. The Unicode space separators U+1680, U+2000 to U+200A, U+202F, U+205F and U+3000 are not recognised as leading white space.
- Report.SortedKeys: `for...in` visits integer-like keys in ascending order only up to 2^32 - 2. Larger court numbers would come later in insertion order, which the model does not capture.
- Collector, GridDecoder and the run functions take the offset table as a parameter `grid`. The methods `Handler` and `Poll` pass the programs' own table `GridSpacing`. `GridSpacingParses`, `GridSpacingNearest` and `SecondColumnDate` state the table lemmas for `GridSpacing` itself.
- HTML escaping: neither program escapes booking text or URLs. The model renders them verbatim, and that is all it does.

## Findings

| source | as written | input that shows it | evidently intended | confidence | as-written member | corrected member |
|---|---|---|---|---|---|---|
| index.mjs:238 | The `[]` fallback on `oldBookings[court]` covers a missing court, but `oldBookings` itself is `undefined` when the table has no item or the read fails, so the diff throws. The run sends no e-mail and never writes the cache. | A fresh table (no item) and any run that reads at least one court. Every later run finds the table still empty, so no e-mail is ever sent. | A missing cache compares like an empty one, so the first run mails every booking and seeds the cache. | high; not executed | LambdaHandler.MissingCacheIsSilent | LambdaHandler.OrEmptyListsAll |

`LambdaHandler.HandlerRun` keeps the behaviour as written. The corrected
comparison is `LambdaHandler.NewBookingsOrEmpty`. It agrees with the code
wherever the code does not throw (`LambdaHandler.OrEmptyAgrees`).
