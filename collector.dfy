/** The court-by-court collection of one run: every tracked court's page is
    read in order and its decoded bookings are stored under the court's
    number. The first court whose page cannot be read or decoded throws,
    which ends the collection; what was stored before it is all there is. */
module Collector {
  import opened JsText
  import opened Bookings
  import opened GridDecoder

  /** The bookings one court's page yields, `None` when the page could not
      be read or a bookable span could not be placed. `grid` is the column
      offset table (`GridSpacing` in both programs). */
  function CourtBookings(grid: seq<string>, v: Visit): Option<seq<Booking>>
    requires |grid| > 0
  {
    match v.page
    case Unreachable => None
    case Rendered(days, spans) =>
      DecodeSpans(spans, grid, DayMapping(grid, days), v.court.url)
  }

  /** The state of `allBookings` when the court loop stops, and whether it
      ran through every court. */
  datatype Collection = Collection(snapshot: Snapshot, complete: bool)

  /** The court loop over `visits`: each court's bookings are assigned to
      `allBookings[court.number]`; a failure stops the loop. */
  function Collected(grid: seq<string>, visits: seq<Visit>): Collection
    requires |grid| > 0
  {
    if |visits| == 0 then Collection(map[], true)
    else
      var c := Collected(grid, visits[..|visits| - 1]);
      var v := visits[|visits| - 1];
      if !c.complete then c
      else match CourtBookings(grid, v)
        case None => Collection(c.snapshot, false)
        case Some(b) => Collection(c.snapshot[v.court.number := b], true)
  }

  /** The court loop as the handler runs it: build the day mapping, decode
      the spans, store the result, and stop at the first failure. */
  method CollectBookings(grid: seq<string>, visits: seq<Visit>) returns (all: Snapshot, complete: bool)
    requires |grid| > 0
    ensures Collection(all, complete) == Collected(grid, visits)
  {
    all := map[];
    complete := true;
    var i := 0;
    while i < |visits| && complete
      invariant 0 <= i <= |visits|
      invariant Collection(all, complete) == Collected(grid, visits[..i])
    {
      assert visits[..i + 1][..i] == visits[..i];
      var v := visits[i];
      match v.page {
        case Unreachable =>
          complete := false;
        case Rendered(days, spans) =>
          var mapping := BuildDayMapping(grid, days);
          var found := DecodeSpans(spans, grid, mapping, v.court.url);
          if found.None? {
            complete := false;
          } else {
            all := all[v.court.number := found.value];
          }
      }
      i := i + 1;
    }
    if !complete {
      FailureIsFinal(grid, visits, i);
    }
    assert i == |visits| ==> visits[..i] == visits;
  }

  /** Once a court has failed, the later courts change nothing. */
  lemma {:induction false} FailureIsFinal(grid: seq<string>, visits: seq<Visit>, k: nat)
    requires |grid| > 0 && k <= |visits| && !Collected(grid, visits[..k]).complete
    ensures Collected(grid, visits) == Collected(grid, visits[..k])
    decreases |visits| - k
  {
    if k < |visits| {
      assert visits[..k + 1][..k] == visits[..k];
      FailureIsFinal(grid, visits, k + 1);
    } else {
      assert visits[..k] == visits;
    }
  }

  /** The loop runs through every court exactly when every court's page
      yields its bookings. */
  lemma {:induction false} CompleteIff(grid: seq<string>, visits: seq<Visit>)
    requires |grid| > 0
    ensures Collected(grid, visits).complete <==> forall i :: 0 <= i < |visits| ==> CourtBookings(grid, visits[i]).Some?
  {
    if |visits| > 0 {
      var p := visits[..|visits| - 1];
      CompleteIff(grid, p);
      assert forall i :: 0 <= i < |p| ==> p[i] == visits[i];
    }
  }

  /** A run through every court stores exactly the court numbers of the
      tracked courts. */
  lemma {:induction false} CompleteKeys(grid: seq<string>, visits: seq<Visit>)
    requires |grid| > 0 && Collected(grid, visits).complete
    ensures Collected(grid, visits).snapshot.Keys == set i | 0 <= i < |visits| :: visits[i].court.number
  {
    if |visits| > 0 {
      var p := visits[..|visits| - 1];
      CompleteKeys(grid, p);
      assert forall i :: 0 <= i < |p| ==> p[i] == visits[i];
      assert (set i | 0 <= i < |visits| :: visits[i].court.number)
          == (set i | 0 <= i < |p| :: p[i].court.number) + {visits[|visits| - 1].court.number};
    }
  }

  /** With distinct court numbers, a run through every court stores each
      court's decoded bookings under its number. */
  lemma {:induction false} CompleteValues(grid: seq<string>, visits: seq<Visit>)
    requires |grid| > 0 && Collected(grid, visits).complete
    requires forall i, j :: 0 <= i < j < |visits| ==> visits[i].court.number != visits[j].court.number
    ensures forall i :: 0 <= i < |visits| ==>
      visits[i].court.number in Collected(grid, visits).snapshot
      && CourtBookings(grid, visits[i]) == Some(Collected(grid, visits).snapshot[visits[i].court.number])
  {
    if |visits| > 0 {
      var p := visits[..|visits| - 1];
      CompleteValues(grid, p);
      CompleteIff(grid, visits);
      assert forall i :: 0 <= i < |p| ==> p[i] == visits[i];
    }
  }

  /** When court `k` is the first to fail, the loop stops with exactly what
      the courts before it stored. */
  lemma FirstFailure(grid: seq<string>, visits: seq<Visit>, k: nat)
    requires |grid| > 0 && k < |visits| && CourtBookings(grid, visits[k]).None?
    requires forall i :: 0 <= i < k ==> CourtBookings(grid, visits[i]).Some?
    ensures Collected(grid, visits[..k]).complete
    ensures Collected(grid, visits) == Collection(Collected(grid, visits[..k]).snapshot, false)
  {
    var p := visits[..k];
    assert forall i :: 0 <= i < k ==> p[i] == visits[i];
    CompleteIff(grid, p);
    FailedStep(grid, visits, k);
    FailureIsFinal(grid, visits, k + 1);
  }

  /** A court whose page fails leaves the snapshot as it was and marks the
      collection incomplete. */
  lemma FailedStep(grid: seq<string>, visits: seq<Visit>, k: nat)
    requires |grid| > 0 && k < |visits| && CourtBookings(grid, visits[k]).None?
    ensures Collected(grid, visits[..k + 1]) == Collection(Collected(grid, visits[..k]).snapshot, false)
  {
    var q := visits[..k + 1];
    assert q[..k] == visits[..k] && q[k] == visits[k];
  }
}
