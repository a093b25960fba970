/** The long-running variant: every minute, collect every court's bookings,
    mail the bookings whose `time-date` text was not on the previous run's
    pages, and hand this run's snapshot to the next run, whether or not
    anything was mailed and even when the collection stopped part way. */
module PollingLoop {
  import opened JsText
  import opened Bookings
  import opened Seqs
  import opened GridDecoder
  import opened Collector
  import opened Report

  /** `${booking.time}-${booking.date}`: the text a booking is compared by.
      The court URL plays no part. */
  function DetailKey(b: Booking): string {
    NullableText(b.time) + "-" + OptionalText(b.date)
  }

  /** `bookings.map(booking => `${booking.time}-${booking.date}`)`. */
  function DetailKeys(bs: seq<Booking>): (r: seq<string>)
    ensures |r| == |bs|
  {
    seq(|bs|, i requires 0 <= i < |bs| => DetailKey(bs[i]))
  }

  /** The callback keeping the texts not among `known`. */
  function NotAmong(known: seq<string>): string -> bool {
    (d: string) => d !in known
  }

  /** The callback keeping the bookings whose text is among `newTexts`. */
  function KeyAmong(newTexts: seq<string>): Booking -> bool {
    (b: Booking) => DetailKey(b) in newTexts
  }

  /** The callback keeping the bookings whose text is not among `known`. */
  function KeyNotAmong(known: seq<string>): Booking -> bool {
    (b: Booking) => DetailKey(b) !in known
  }

  /** The bookings of `next` whose text was not among the texts of
      `previous`, in page order. */
  function FreshBookings(previous: seq<Booking>, next: seq<Booking>): seq<Booking> {
    Filter(next, KeyNotAmong(DetailKeys(previous)))
  }

  /** `getNewBookings(courts, nextCourts)`: a court of `next` is listed
      exactly when some of its bookings has a new text, and then with those
      bookings. */
  function Delta(prev: Snapshot, next: Snapshot): Snapshot {
    DeltaOver(prev, next, next.Keys)
  }

  /** `Delta` restricted to the courts in `courts`. */
  function DeltaOver(prev: Snapshot, next: Snapshot, courts: set<nat>): Snapshot {
    map c | c in courts && c in next && |FreshBookings(PrevOf(prev, c), next[c])| > 0 :: FreshBookings(PrevOf(prev, c), next[c])
  }

  /** Taking one more court into account adds it when it has fresh bookings. */
  lemma DeltaOverStep(prev: Snapshot, next: Snapshot, courts: set<nat>, court: nat)
    requires court in next
    ensures var f := FreshBookings(PrevOf(prev, court), next[court]);
      DeltaOver(prev, next, courts + {court})
        == if |f| > 0 then DeltaOver(prev, next, courts)[court := f] else DeltaOver(prev, next, courts)
  {
  }

  /** The loop body's two filters (new texts, then the bookings carrying
      one of them) keep exactly the fresh bookings. */
  lemma TwoStageFilter(previous: seq<Booking>, next: seq<Booking>)
    ensures Filter(next, KeyAmong(Filter(DetailKeys(next), NotAmong(DetailKeys(previous)))))
         == FreshBookings(previous, next)
  {
    var known := DetailKeys(previous);
    var keys := DetailKeys(next);
    var newTexts := Filter(keys, NotAmong(known));
    FilterMembers(keys, NotAmong(known));
    forall i | 0 <= i < |next| ensures KeyAmong(newTexts)(next[i]) == KeyNotAmong(known)(next[i]) {
      assert keys[i] == DetailKey(next[i]);
    }
    FilterCongruent(next, KeyAmong(newTexts), KeyNotAmong(known));
  }

  /** There are new texts exactly when some booking is fresh. */
  lemma NewTextsIff(previous: seq<Booking>, next: seq<Booking>)
    ensures |Filter(DetailKeys(next), NotAmong(DetailKeys(previous)))| > 0 <==> |FreshBookings(previous, next)| > 0
  {
    var known := DetailKeys(previous);
    var keys := DetailKeys(next);
    var newTexts := Filter(keys, NotAmong(known));
    FilterMembers(keys, NotAmong(known));
    FilterMembers(next, KeyNotAmong(known));
    if |newTexts| > 0 {
      assert newTexts[0] in keys;
      var i :| 0 <= i < |keys| && keys[i] == newTexts[0];
      assert next[i] in FreshBookings(previous, next);
    }
    if |FreshBookings(previous, next)| > 0 {
      var b := FreshBookings(previous, next)[0];
      assert b in next;
      var i :| 0 <= i < |next| && next[i] == b;
      assert keys[i] in newTexts;
    }
  }

  /** The `for...in` loop of `getNewBookings` over the courts of `next`,
      inserting a court only when it has bookings with a new text. */
  method GetNewBookings(prev: Snapshot, next: Snapshot) returns (r: Snapshot)
    ensures r == Delta(prev, next)
  {
    var newBookings: Snapshot := map[];
    var remaining := next.Keys;
    while remaining != {}
      invariant remaining <= next.Keys
      invariant newBookings == DeltaOver(prev, next, next.Keys - remaining)
      decreases |remaining|
    {
      var court :| court in remaining;
      var currentBookings := PrevOf(prev, court);
      var currentDetails := DetailKeys(currentBookings);
      var nextBookings := next[court];
      var nextDetails := DetailKeys(nextBookings);
      var newDetails := Filter(nextDetails, NotAmong(currentDetails));
      TwoStageFilter(currentBookings, nextBookings);
      NewTextsIff(currentBookings, nextBookings);
      DeltaOverStep(prev, next, next.Keys - remaining, court);
      assert next.Keys - (remaining - {court}) == (next.Keys - remaining) + {court};
      if |newDetails| > 0 {
        newBookings := newBookings[court := Filter(nextBookings, KeyAmong(newDetails))];
      }
      remaining := remaining - {court};
    }
    assert next.Keys - remaining == next.Keys;
    r := newBookings;
  }

  /** A court is listed exactly when one of its current bookings has a text
      that none of its previous bookings had; no listed court is empty. */
  lemma DeltaKeys(prev: Snapshot, next: Snapshot)
    ensures forall c :: c in Delta(prev, next) <==>
      c in next && exists b :: b in next[c] && DetailKey(b) !in DetailKeys(PrevOf(prev, c))
    ensures forall c :: c in Delta(prev, next) ==> |Delta(prev, next)[c]| > 0
  {
    forall c | c in next
      ensures |FreshBookings(PrevOf(prev, c), next[c])| > 0
          <==> exists b :: b in next[c] && DetailKey(b) !in DetailKeys(PrevOf(prev, c))
    {
      var f := FreshBookings(PrevOf(prev, c), next[c]);
      FilterMembers(next[c], KeyNotAmong(DetailKeys(PrevOf(prev, c))));
      if |f| > 0 {
        assert f[0] in f;
      }
    }
  }

  /** A listed court's bookings are its current bookings whose text is
      new, each as often as it occurs, in page order; bookings that differ
      only in their court URL, or whose texts coincide, count as the same. */
  lemma DeltaContents(prev: Snapshot, next: Snapshot, court: nat)
    requires court in Delta(prev, next)
    ensures var d := Delta(prev, next)[court];
      && IsSubsequence(d, next[court])
      && (forall b :: b in d <==> b in next[court] && DetailKey(b) !in DetailKeys(PrevOf(prev, court)))
      && (forall b :: multiset(d)[b] == if DetailKey(b) in DetailKeys(PrevOf(prev, court)) then 0 else multiset(next[court])[b])
  {
    FilterCounts(next[court], KeyNotAmong(DetailKeys(PrevOf(prev, court))));
    FilterMembers(next[court], KeyNotAmong(DetailKeys(PrevOf(prev, court))));
    FilterIsSubsequence(next[court], KeyNotAmong(DetailKeys(PrevOf(prev, court))));
  }

  /** Comparing a snapshot with itself lists no court. */
  lemma DeltaOfSelf(s: Snapshot)
    ensures Delta(s, s) == map[]
  {
    forall c | c in s ensures FreshBookings(s[c], s[c]) == [] {
      var known := DetailKeys(s[c]);
      forall i | 0 <= i < |s[c]| ensures DetailKey(s[c][i]) in known {
        assert known[i] == DetailKey(s[c][i]);
      }
      FilterNothing(s[c], KeyNotAmong(known));
    }
  }

  /** Since no listed court is empty, the delta has nothing to mail exactly
      when it lists no court. */
  lemma EmptyIffNoCourts(prev: Snapshot, next: Snapshot)
    ensures AllCourtsEmpty(Delta(prev, next)) <==> Delta(prev, next) == map[]
  {
    DeltaKeys(prev, next);
  }

  /** A court the previous snapshot does not hold is listed with all its
      bookings, as long as it has any. */
  lemma NewCourtListedWhole(prev: Snapshot, next: Snapshot, court: nat)
    requires court !in prev && court in next && |next[court]| > 0
    ensures court in Delta(prev, next) && Delta(prev, next)[court] == next[court]
  {
    assert DetailKeys([]) == [];
    FilterCongruent(next[court], KeyNotAmong([]), (b: Booking) => true);
    AllKept(next[court]);
  }

  lemma {:induction false} AllKept(s: seq<Booking>)
    ensures Filter(s, (b: Booking) => true) == s
  {
    if |s| > 0 {
      AllKept(s[1..]);
    }
  }

  /** Two different bookings whose texts coincide: a time that contains
      the separator shifts it. */
  lemma TextsCollide()
    ensures var a := Booking(Some("9:00-10"), Some("Mon"), "u");
      var b := Booking(Some("9:00"), Some("10-Mon"), "u");
      a != b && Delta(map[1 := [a]], map[1 := [b]]) == map[]
  {
    var a := Booking(Some("9:00-10"), Some("Mon"), "u");
    var b := Booking(Some("9:00"), Some("10-Mon"), "u");
    assert DetailKey(a) == DetailKey(b);
    assert DetailKeys([a]) == [DetailKey(a)];
    assert FreshBookings([a], [b]) == [];
  }

  /** A booking whose time and date were among the court's bookings on the
      previous run is not new, whatever court URL either run recorded. */
  lemma UrlIgnored(prev: Snapshot, next: Snapshot, court: nat, b: Booking, b0: Booking)
    requires court in next && b in next[court] && b0 in PrevOf(prev, court)
    requires b0.time == b.time && b0.date == b.date
    ensures court !in Delta(prev, next) || b !in Delta(prev, next)[court]
  {
    var known := DetailKeys(PrevOf(prev, court));
    var i :| 0 <= i < |PrevOf(prev, court)| && PrevOf(prev, court)[i] == b0;
    assert known[i] == DetailKey(b);
    if court in Delta(prev, next) {
      DeltaContents(prev, next, court);
    }
  }

  /** What one run hands on: the snapshot the next run compares against,
      and the body of the e-mail this run sent. */
  datatype Step = Step(next: Snapshot, mail: Option<string>)

  /** `publishAvailableTennisCourts(prev)` up to its recursive call.
      `sendOk` says whether the recipient lookup and the send succeed. */
  function PublishStep(grid: seq<string>, prev: Snapshot, visits: seq<Visit>, sendOk: bool): Step
    requires |grid| > 0
  {
    var collected := Collected(grid, visits);
    var delta := Delta(prev, collected.snapshot);
    if collected.complete && !AllCourtsEmpty(delta) && sendOk then Step(collected.snapshot, Some(Message(delta)))
    else Step(collected.snapshot, None)
  }

  /** One run: collect, diff against the previous run, mail if anything is
      new, and hand on `allBookings` however far the collection got. */
  method PublishAvailableTennisCourts(grid: seq<string>, prev: Snapshot, visits: seq<Visit>, sendOk: bool)
    returns (allBookings: Snapshot, mail: Option<string>)
    requires |grid| > 0
    ensures Step(allBookings, mail) == PublishStep(grid, prev, visits, sendOk)
  {
    mail := None;
    var complete;
    allBookings, complete := CollectBookings(grid, visits);
    if complete {
      var newBookings := GetNewBookings(prev, allBookings);
      if !AllCourtsEmpty(newBookings) && sendOk {
        var body := FormatMessage(newBookings);
        mail := Some(body);
      }
    }
  }

  /** One scheduled run: the pages it sees and whether its send succeeds. */
  datatype Run = Run(visits: seq<Visit>, sendOk: bool)

  /** The e-mails of consecutive runs, each run starting from the snapshot
      the one before it handed on. */
  function Mails(grid: seq<string>, prev: Snapshot, runs: seq<Run>): seq<Option<string>>
    requires |grid| > 0
    decreases |runs|
  {
    if |runs| == 0 then []
    else
      var step := PublishStep(grid, prev, runs[0].visits, runs[0].sendOk);
      [step.mail] + Mails(grid, step.next, runs[1..])
  }

  /** The self-recursive schedule, for a finite number of runs: the first
      run starts from `{}`, every later one from what its predecessor
      handed on. */
  method Poll(runs: seq<Run>) returns (mails: seq<Option<string>>)
    ensures mails == Mails(GridSpacing, map[], runs)
  {
    mails := [];
    var prev: Snapshot := map[];
    for i := 0 to |runs|
      invariant mails + Mails(GridSpacing, prev, runs[i..]) == Mails(GridSpacing, map[], runs)
    {
      assert runs[i..][1..] == runs[i + 1..];
      var next, mail := PublishAvailableTennisCourts(GridSpacing, prev, runs[i].visits, runs[i].sendOk);
      mails := mails + [mail];
      prev := next;
    }
  }

  /** The snapshot handed on is this run's collection, mailed or not, and
      even when the collection stopped at a failing court. */
  lemma HandsOnCollection(grid: seq<string>, prev: Snapshot, visits: seq<Visit>, sendOk: bool)
    requires |grid| > 0
    ensures PublishStep(grid, prev, visits, sendOk).next == Collected(grid, visits).snapshot
    ensures !Collected(grid, visits).complete ==> PublishStep(grid, prev, visits, sendOk).mail.None?
  {
  }

  /** A run that saw the same pages as the run before it mails nothing,
      even when the earlier run's send failed: those bookings are not
      mailed again while consecutive complete runs still show them. */
  lemma RepeatIsQuiet(grid: seq<string>, prev: Snapshot, visits: seq<Visit>, sendOk: bool, sendOk2: bool)
    requires |grid| > 0
    ensures var first := PublishStep(grid, prev, visits, sendOk);
      PublishStep(grid, first.next, visits, sendOk2) == Step(first.next, None)
  {
    var s := Collected(grid, visits).snapshot;
    DeltaOfSelf(s);
  }

  /** The first run, from `{}`, mails every court with bookings, each with
      all of them. */
  lemma FirstRunListsAll(s: Snapshot)
    ensures forall c :: c in s && |s[c]| > 0 ==> c in Delta(map[], s) && Delta(map[], s)[c] == s[c]
  {
    forall c | c in s && |s[c]| > 0 ensures c in Delta(map[], s) && Delta(map[], s)[c] == s[c] {
      NewCourtListedWhole(map[], s, c);
    }
  }

  /** After a run that stopped part way, the next complete run lists every
      court the partial snapshot lacks that has bookings, with all of them,
      though they may have been mailed before. */
  lemma PartialRunRemails(grid: seq<string>, prev: Snapshot, visits1: seq<Visit>, sendOk1: bool,
                          visits2: seq<Visit>, court: nat)
    requires |grid| > 0
    requires court !in Collected(grid, visits1).snapshot
    requires court in Collected(grid, visits2).snapshot && |Collected(grid, visits2).snapshot[court]| > 0
    ensures var handed := PublishStep(grid, prev, visits1, sendOk1).next;
      var all := Collected(grid, visits2).snapshot;
      court in Delta(handed, all) && Delta(handed, all)[court] == all[court]
  {
    NewCourtListedWhole(Collected(grid, visits1).snapshot, Collected(grid, visits2).snapshot, court);
  }
}
