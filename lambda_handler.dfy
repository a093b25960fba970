/** The scheduled handler of the serverless variant: collect every court's
    bookings, read the cached snapshot, keep the bookings the cache does not
    hold, mail them if there are any, and only then overwrite the cache with
    the full snapshot of this run. Any exception ends the run with no
    response. */
module LambdaHandler {
  import opened JsText
  import opened Bookings
  import opened Seqs
  import opened GridDecoder
  import opened Collector
  import opened Report

  /** The filter callback: `current` matches no cached booking on all three
      of time, date and court URL. */
  function NotCached(previous: seq<Booking>): Booking -> bool {
    (b: Booking) => b !in previous
  }

  /** The bookings of `current` that are not in `previous`, in order. */
  function Unseen(current: seq<Booking>, previous: seq<Booking>): seq<Booking> {
    Filter(current, NotCached(previous))
  }

  /** `getNewBookings(allBookings, oldBookings)`: one entry per court of
      `allBookings`. A missing cache (`undefined`) makes `oldBookings[court]`
      throw as soon as there is a court to look up (`None`). */
  function NewBookings(all: Snapshot, cached: Option<Snapshot>): (r: Option<Snapshot>)
    ensures r.None? <==> cached.None? && all != map[]
    ensures r.Some? ==> r.value.Keys == all.Keys
  {
    if cached.None? && all != map[] then None
    else
      var previous := if cached.Some? then cached.value else map[];
      Some(map c | c in all :: Unseen(all[c], PrevOf(previous, c)))
  }

  /** The `for...in` loop of `getNewBookings`; the order the courts are
      visited in does not change the result. */
  method GetNewBookings(all: Snapshot, cached: Option<Snapshot>) returns (r: Option<Snapshot>)
    ensures r == NewBookings(all, cached)
  {
    ghost var previous := if cached.Some? then cached.value else map[];
    var newBookings: Snapshot := map[];
    var remaining := all.Keys;
    while remaining != {}
      invariant remaining <= all.Keys
      invariant cached.None? ==> remaining == all.Keys
      invariant newBookings == map c | c in all.Keys - remaining :: Unseen(all[c], PrevOf(previous, c))
      decreases |remaining|
    {
      var court :| court in remaining;
      if cached.None? {
        return None;
      }
      var current := all[court];
      var previousBookings := PrevOf(cached.value, court);
      var diff := Unseen(current, previousBookings);
      newBookings := newBookings[court := if |diff| > 0 then diff else []];
      remaining := remaining - {court};
    }
    assert all.Keys - remaining == all.Keys;
    r := Some(newBookings);
  }

  /** Each court's new bookings are the court's current bookings the cache
      does not hold, each as often as it occurs now, in page order. */
  lemma DeltaContents(all: Snapshot, cached: Snapshot, court: nat)
    requires court in all
    ensures var d := NewBookings(all, Some(cached)).value[court];
      && IsSubsequence(d, all[court])
      && (forall b :: b in d <==> b in all[court] && b !in PrevOf(cached, court))
      && (forall b :: multiset(d)[b] == if b in PrevOf(cached, court) then 0 else multiset(all[court])[b])
  {
    FilterCounts(all[court], NotCached(PrevOf(cached, court)));
    FilterMembers(all[court], NotCached(PrevOf(cached, court)));
    FilterIsSubsequence(all[court], NotCached(PrevOf(cached, court)));
  }

  /** Comparing a snapshot with itself finds nothing new. */
  lemma DeltaOfSelf(s: Snapshot)
    ensures NewBookings(s, Some(s)).Some?
    ensures forall c :: c in s ==> NewBookings(s, Some(s)).value[c] == []
    ensures AllCourtsEmpty(NewBookings(s, Some(s)).value)
  {
    forall c | c in s ensures Unseen(s[c], PrevOf(s, c)) == [] {
      FilterNothing(s[c], NotCached(s[c]));
    }
  }

  /** There is something to mail exactly when some current booking is not
      in the cache. */
  lemma NotifyIff(all: Snapshot, cached: Snapshot)
    ensures !AllCourtsEmpty(NewBookings(all, Some(cached)).value)
        <==> exists c, b :: c in all && b in all[c] && b !in PrevOf(cached, c)
  {
    var d := NewBookings(all, Some(cached)).value;
    if !AllCourtsEmpty(d) {
      var c :| c in d && |d[c]| != 0;
      DeltaContents(all, cached, c);
      assert d[c][0] in d[c];
    }
    if exists c, b :: c in all && b in all[c] && b !in PrevOf(cached, c) {
      var c, b :| c in all && b in all[c] && b !in PrevOf(cached, c);
      DeltaContents(all, cached, c);
      assert b in d[c];
    }
  }

  /** The one item of the cache table: the last snapshot written, `None`
      before the first write. */
  class BookingsTable {
    var item: Option<Snapshot>

    constructor(item: Option<Snapshot>)
      ensures this.item == item
    {
      this.item := item;
    }

    /** `getBookings`: the stored snapshot, or `undefined` when there is no
        item or the read fails (the error is logged and swallowed). */
    method GetBookings(readOk: bool) returns (r: Option<Snapshot>)
      ensures r == if readOk then item else None
    {
      r := if readOk then item else None;
    }

    /** `putBookings`: store the snapshot; a failed write is logged and
        swallowed, leaving the table as it was. */
    method PutBookings(s: Snapshot, writeOk: bool)
      modifies this
      ensures item == if writeOk then Some(s) else old(item)
    {
      if writeOk {
        item := Some(s);
      }
    }
  }

  const SentMessage: string := "Successfully sent email for court bookings."
  const QuietMessage: string := "No new court bookings found."

  /** The handler's return value: status code, message, and the new
      bookings when an e-mail went out. */
  datatype Response = Response(statusCode: nat, message: string, bookings: Option<Snapshot>)

  /** What one invocation yields: its response (`None` when an exception
      ended it), the body of the e-mail it sent, and the cache afterwards. */
  datatype Outcome = Outcome(response: Option<Response>, mail: Option<string>, stored: Option<Snapshot>)

  /** One invocation. `readOk`, `sendOk` and `writeOk` say whether the
      cache read, the e-mail send (with the recipient lookup) and the cache
      write succeed. */
  function HandlerRun(grid: seq<string>, stored: Option<Snapshot>, visits: seq<Visit>,
                      readOk: bool, sendOk: bool, writeOk: bool): Outcome
    requires |grid| > 0
  {
    var collected := Collected(grid, visits);
    if !collected.complete then Outcome(None, None, stored)
    else
      var cached := if readOk then stored else None;
      match NewBookings(collected.snapshot, cached)
      case None => Outcome(None, None, stored)
      case Some(delta) =>
        if AllCourtsEmpty(delta) then Outcome(Some(Response(200, QuietMessage, None)), None, stored)
        else if !sendOk then Outcome(None, None, stored)
        else Outcome(Some(Response(200, SentMessage, Some(delta))), Some(Message(delta)),
                     if writeOk then Some(collected.snapshot) else stored)
  }

  /** The handler: collect, read the cache, diff, mail, then write the full
      snapshot. */
  method Handler(table: BookingsTable, visits: seq<Visit>, readOk: bool, sendOk: bool, writeOk: bool)
    returns (response: Option<Response>, mail: Option<string>)
    modifies table
    ensures Outcome(response, mail, table.item) == HandlerRun(GridSpacing, old(table.item), visits, readOk, sendOk, writeOk)
  {
    response, mail := None, None;
    var allBookings, complete := CollectBookings(GridSpacing, visits);
    if !complete {
      return;
    }
    var cachedBookings := table.GetBookings(readOk);
    var newBookings := GetNewBookings(allBookings, cachedBookings);
    if newBookings.None? {
      return;
    }
    if !AllCourtsEmpty(newBookings.value) {
      if !sendOk {
        return;
      }
      var body := FormatMessage(newBookings.value);
      mail := Some(body);
      table.PutBookings(allBookings, writeOk);
      response := Some(Response(200, SentMessage, Some(newBookings.value)));
    } else {
      response := Some(Response(200, QuietMessage, None));
    }
  }

  /** The cache is overwritten exactly when an e-mail went out and the
      write succeeds, and then it holds the full snapshot of the run, not
      just the new bookings; otherwise it is left as it was. */
  lemma CacheFollowsMail(grid: seq<string>, stored: Option<Snapshot>, visits: seq<Visit>, readOk: bool, sendOk: bool, writeOk: bool)
    requires |grid| > 0
    ensures var o := HandlerRun(grid, stored, visits, readOk, sendOk, writeOk);
      o.stored == if o.mail.Some? && writeOk then Some(Collected(grid, visits).snapshot) else stored
  {
  }

  /** A court whose page cannot be read or decoded throws inside the
      handler's `try`: no response, no e-mail, no write. */
  lemma FailedCollectionIsSilent(grid: seq<string>, stored: Option<Snapshot>, visits: seq<Visit>, readOk: bool, sendOk: bool, writeOk: bool)
    requires |grid| > 0 && !Collected(grid, visits).complete
    ensures HandlerRun(grid, stored, visits, readOk, sendOk, writeOk) == Outcome(None, None, stored)
  {
  }

  /** Without a cached snapshot (no item yet, or a failed read), a run that
      found any court throws in the diff: no e-mail, no response, no write. */
  lemma MissingCacheIsSilent(grid: seq<string>, stored: Option<Snapshot>, visits: seq<Visit>, readOk: bool, sendOk: bool, writeOk: bool)
    requires |grid| > 0
    requires stored.None? || !readOk
    requires |visits| > 0
    ensures HandlerRun(grid, stored, visits, readOk, sendOk, writeOk) == Outcome(None, None, stored)
  {
    var collected := Collected(grid, visits);
    if collected.complete {
      CompleteKeys(grid, visits);
      assert visits[0].court.number in collected.snapshot;
    }
  }

  /** A run that mailed and wrote the cache, followed by another over the
      same pages whose cache read succeeds, finds nothing new: the second
      run sends no e-mail and leaves the cache as the first left it. */
  lemma RerunIsQuiet(grid: seq<string>, stored: Option<Snapshot>, visits: seq<Visit>, readOk: bool, sendOk: bool,
                     sendOk2: bool, writeOk2: bool)
    requires |grid| > 0
    requires HandlerRun(grid, stored, visits, readOk, sendOk, true).mail.Some?
    ensures var first := HandlerRun(grid, stored, visits, readOk, sendOk, true);
      HandlerRun(grid, first.stored, visits, true, sendOk2, writeOk2)
        == Outcome(Some(Response(200, QuietMessage, None)), None, first.stored)
  {
    var collected := Collected(grid, visits);
    var first := HandlerRun(grid, stored, visits, readOk, sendOk, true);
    assert collected.complete;
    assert first.stored == Some(collected.snapshot);
    DeltaOfSelf(collected.snapshot);
  }

  /** With a readable cache and a run through every court, an e-mail goes
      out exactly when some booking on the pages is not in the cache and
      the send succeeds; it lists the new bookings. */
  lemma MailIff(grid: seq<string>, stored: Snapshot, visits: seq<Visit>, sendOk: bool, writeOk: bool)
    requires |grid| > 0 && Collected(grid, visits).complete
    ensures var all := Collected(grid, visits).snapshot;
      var o := HandlerRun(grid, Some(stored), visits, true, sendOk, writeOk);
      && (o.mail.Some? <==> sendOk && exists c, b :: c in all && b in all[c] && b !in PrevOf(stored, c))
      && (o.mail.Some? ==> o.mail == Some(Message(NewBookings(all, Some(stored)).value)))
  {
    NotifyIff(Collected(grid, visits).snapshot, stored);
  }

  /** `getNewBookings` with a missing cache compared like an empty one, as
      the `|| []` fallback for a missing court suggests was meant. */
  function NewBookingsOrEmpty(all: Snapshot, cached: Option<Snapshot>): (r: Snapshot)
    ensures r.Keys == all.Keys
  {
    var previous := if cached.Some? then cached.value else map[];
    map c | c in all :: Unseen(all[c], PrevOf(previous, c))
  }

  /** Wherever the program as written does not throw, the corrected
      comparison gives the same result. */
  lemma OrEmptyAgrees(all: Snapshot, cached: Option<Snapshot>)
    requires cached.Some? || all == map[]
    ensures NewBookings(all, cached) == Some(NewBookingsOrEmpty(all, cached))
  {
  }

  /** With the correction, a run without a cache lists every booking it
      found, so the first run after deployment mails whenever some court
      has bookings. */
  lemma {:induction false} OrEmptyListsAll(all: Snapshot)
    ensures forall c :: c in all ==> NewBookingsOrEmpty(all, None)[c] == all[c]
    ensures AllCourtsEmpty(NewBookingsOrEmpty(all, None)) <==> AllCourtsEmpty(all)
  {
    forall c | c in all ensures Unseen(all[c], []) == all[c] {
      KeepsAllWhenNothingCached(all[c]);
    }
  }

  lemma {:induction false} KeepsAllWhenNothingCached(s: seq<Booking>)
    ensures Unseen(s, []) == s
  {
    if |s| > 0 {
      KeepsAllWhenNothingCached(s[1..]);
    }
  }
}
