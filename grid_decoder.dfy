/** The grid decoder: turns the spans of one court's booking page into
    booking records. The page lays its day columns out at fixed pixel
    offsets; a bookable span is placed in the column whose offset is nearest
    to the `style.left` of its grid cell, and gets that column's day header
    as its date. */
module GridDecoder {
  import opened JsText
  import opened Bookings
  import opened Seqs

  /** The column offsets of the booking grid, left to right. */
  const GridSpacing: seq<string> := ["2px", "124px", "245px", "367px", "488px"]

  /** The marker text of a bookable span. */
  const BookNow: string := "Book Now"

  function Abs(x: int): nat {
    if x < 0 then -x else x
  }

  /** `Math.abs(a - b)`, `NaN` (None) when either side is `NaN`. */
  function Distance(a: Option<int>, b: Option<int>): Option<nat> {
    if a.Some? && b.Some? then Some(Abs(a.value - b.value)) else None
  }

  /** JavaScript `x < y` on numbers: false whenever either side is `NaN`. */
  predicate Below(x: Option<nat>, y: Option<nat>) {
    x.Some? && y.Some? && x.value < y.value
  }

  /** `parseInt(entry, 10)` of every grid entry. */
  function Parsed(grid: seq<string>): (v: seq<Option<int>>)
    ensures |v| == |grid|
    ensures forall j :: 0 <= j < |grid| ==> v[j] == ParseInt(grid[j])
  {
    seq(|grid|, j requires 0 <= j < |grid| => ParseInt(grid[j]))
  }

  /** Index of the entry `findClosestSpacing` returns, given the parsed
      entries: the `reduce` that starts from the first entry and moves to a
      later one only when that one is strictly closer to `offset`. */
  function ClosestIndex(values: seq<Option<int>>, offset: Option<int>): (i: nat)
    requires |values| > 0
    ensures i < |values|
    ensures i == 0 || Below(Distance(values[i], offset), Distance(values[0], offset))
  {
    if |values| == 1 then 0
    else
      var c := ClosestIndex(values[..|values| - 1], offset);
      var last := |values| - 1;
      if Below(Distance(values[last], offset), Distance(values[c], offset)) then last else c
  }

  /** `findClosestSpacing(grid, left)`: the grid entry nearest to the parsed
      `left`; `reduce` without an initial value needs a non-empty grid. */
  function ClosestSpacing(grid: seq<string>, left: string): (r: string)
    requires |grid| > 0
    ensures r in grid
  {
    grid[ClosestIndex(Parsed(grid), ParseInt(left))]
  }

  /** Every entry parsed to a number. */
  predicate AllNumbers(values: seq<Option<int>>) {
    forall j :: 0 <= j < |values| ==> values[j].Some?
  }

  /** Distance from entry `j` to `x`, when every entry is a number. */
  function Gap(values: seq<Option<int>>, j: int, x: int): nat
    requires AllNumbers(values) && 0 <= j < |values|
  {
    Abs(values[j].value - x)
  }

  /** An unparseable offset (`NaN`) makes every comparison false, so the
      `reduce` keeps its first entry. */
  lemma {:induction false} ClosestOfNaN(values: seq<Option<int>>)
    requires |values| > 0
    ensures ClosestIndex(values, None) == 0
  {
    if |values| > 1 {
      ClosestOfNaN(values[..|values| - 1]);
    }
  }

  /** For a parsed offset `x`, the chosen entry is at least as close to `x`
      as every entry, and strictly closer than every entry before it: ties
      go to the earliest entry. */
  lemma {:induction false} ClosestIsEarliestNearest(values: seq<Option<int>>, x: int)
    requires |values| > 0 && AllNumbers(values)
    ensures forall j :: 0 <= j < |values| ==> Gap(values, ClosestIndex(values, Some(x)), x) <= Gap(values, j, x)
    ensures forall j :: 0 <= j < ClosestIndex(values, Some(x)) ==> Gap(values, ClosestIndex(values, Some(x)), x) < Gap(values, j, x)
  {
    if |values| > 1 {
      var p := values[..|values| - 1];
      ClosestIsEarliestNearest(p, x);
      forall j | 0 <= j < |p| ensures Gap(p, j, x) == Gap(values, j, x) { }
    }
  }

  /** The key `cellToDayMapping[gridSpacing[i]] = …` writes: past the end of
      the grid, `gridSpacing[i]` is `undefined` and the key is its text. */
  function DayKey(grid: seq<string>, i: nat): string {
    if i < |grid| then grid[i] else "undefined"
  }

  /** The mapping the day loop leaves behind after binding the first
      `|days|` keys, later writes to a key overriding earlier ones. */
  function DayMapping(grid: seq<string>, days: seq<string>): (m: map<string, string>)
    ensures forall key :: key in m ==> m[key] in days
    ensures |days| > 0 ==> DayKey(grid, |days| - 1) in m && m[DayKey(grid, |days| - 1)] == days[|days| - 1]
  {
    if days == [] then map[]
    else DayMapping(grid, days[..|days| - 1])[DayKey(grid, |days| - 1) := days[|days| - 1]]
  }

  /** The `cellToDayMapping` loop: bind the i-th grid offset to the i-th
      day header, for every header read from the page. */
  method BuildDayMapping(grid: seq<string>, days: seq<string>) returns (m: map<string, string>)
    ensures m == DayMapping(grid, days)
  {
    m := map[];
    var i := 0;
    while i < |days|
      invariant 0 <= i <= |days|
      invariant m == DayMapping(grid, days[..i])
    {
      assert days[..i + 1][..i] == days[..i];
      m := m[DayKey(grid, i) := days[i]];
      i := i + 1;
    }
    assert days[..|days|] == days;
  }

  /** For a grid of distinct offsets none of which is the text
      "undefined", offset `i` is bound exactly when a header `i` was read,
      and then to that header; no other key is ever bound except
      "undefined" (headers beyond the grid). */
  lemma {:induction false} DayMappingBinds(grid: seq<string>, days: seq<string>)
    requires DistinctOffsets(grid)
    ensures forall i :: 0 <= i < |grid| ==> (grid[i] in DayMapping(grid, days) <==> i < |days|)
    ensures forall i :: 0 <= i < |grid| && i < |days| ==> DayMapping(grid, days)[grid[i]] == days[i]
    ensures forall key :: key in DayMapping(grid, days) ==> key == "undefined" || key in grid
  {
    if days != [] {
      var n := |days| - 1;
      var p := days[..n];
      DayMappingBinds(grid, p);
      var m0 := DayMapping(grid, p);
      assert DayMapping(grid, days) == m0[DayKey(grid, n) := days[n]];
      forall i | 0 <= i < |grid| && i != n ensures grid[i] != DayKey(grid, n) {
        if n < |grid| {
          assert i < n || n < i;
        }
      }
      forall i | 0 <= i < |grid| && i < n ensures p[i] == days[i] { }
    }
  }

  /** `cellToDayMapping[key]`, `undefined` when the key is not bound. */
  function DayOf(mapping: map<string, string>, key: string): Option<string> {
    if key in mapping then Some(mapping[key]) else None
  }

  /** The offsets of `grid` are distinct and none is the text "undefined". */
  predicate DistinctOffsets(grid: seq<string>) {
    && (forall i, j :: 0 <= i < j < |grid| ==> grid[i] != grid[j])
    && (forall i :: 0 <= i < |grid| ==> grid[i] != "undefined")
  }

  lemma GridSpacingDistinct()
    ensures DistinctOffsets(GridSpacing)
  {
  }

  /** The pixel values of the column offsets, left to right. */
  const ColumnPixels: seq<int> := [2, 124, 245, 367, 488]

  /** A table whose entries are decimal numbers followed by "px" parses
      entry by entry to those numbers. */
  lemma TableOfDecimals(grid: seq<string>, ns: seq<nat>)
    requires |grid| == |ns|
    requires forall j :: 0 <= j < |grid| ==> grid[j] == DecimalText(ns[j]) + "px"
    ensures forall j :: 0 <= j < |grid| ==> Parsed(grid)[j] == Some(ns[j])
  {
    forall j | 0 <= j < |grid| ensures Parsed(grid)[j] == Some(ns[j]) {
      ParseIntOfDecimal(ns[j], "px");
    }
  }

  /** `parseInt(gridSpacing[j], 10)` is the j-th column's pixel value, so
      every offset of the programs' own table is a number. */
  lemma GridSpacingParses()
    ensures forall j :: 0 <= j < |GridSpacing| ==> Parsed(GridSpacing)[j] == Some(ColumnPixels[j])
    ensures AllNumbers(Parsed(GridSpacing))
  {
    assert DecimalText(2) == "2";
    assert DecimalText(12) == "12";
    assert DecimalText(124) == "124";
    assert DecimalText(24) == "24";
    assert DecimalText(245) == "245";
    assert DecimalText(36) == "36";
    assert DecimalText(367) == "367";
    assert DecimalText(48) == "48";
    assert DecimalText(488) == "488";
    TableOfDecimals(GridSpacing, [2, 124, 245, 367, 488]);
  }

  /** On the programs' own table, a parsed `left` of `x` pixels lands in
      the column whose pixel value is nearest to `x`, the leftmost one on a
      tie. */
  lemma GridSpacingNearest(x: int)
    ensures var i := ClosestIndex(Parsed(GridSpacing), Some(x));
      && (forall j :: 0 <= j < |ColumnPixels| ==> Abs(ColumnPixels[i] - x) <= Abs(ColumnPixels[j] - x))
      && (forall j :: 0 <= j < i ==> Abs(ColumnPixels[i] - x) < Abs(ColumnPixels[j] - x))
  {
    GridSpacingParses();
    NearestOfNumbers(Parsed(GridSpacing), ColumnPixels, x);
  }

  /** `ClosestIsEarliestNearest` for entries known to parse to `ns`. */
  lemma NearestOfNumbers(values: seq<Option<int>>, ns: seq<int>, x: int)
    requires |values| == |ns| > 0
    requires forall j :: 0 <= j < |values| ==> values[j] == Some(ns[j])
    ensures var i := ClosestIndex(values, Some(x));
      && (forall j :: 0 <= j < |ns| ==> Abs(ns[i] - x) <= Abs(ns[j] - x))
      && (forall j :: 0 <= j < i ==> Abs(ns[i] - x) < Abs(ns[j] - x))
  {
    ClosestIsEarliestNearest(values, x);
    forall j | 0 <= j < |values| ensures Gap(values, j, x) == Abs(ns[j] - x) { }
  }

  /** A cell whose `left` parses to a value from 64 to 184 pixels sits in
      the second column, offset "124px" (63 is a tie with "2px", which
      wins; 185 is nearer to "245px"). */
  lemma SecondColumn(left: string, x: int)
    requires ParseInt(left) == Some(x) && 64 <= x <= 184
    ensures ClosestSpacing(GridSpacing, left) == "124px"
  {
    SecondColumnIndex(left, x);
    ClosestSpacingAt(GridSpacing, left, 1);
  }

  /** `findClosestSpacing` returns the entry at the index the `reduce`
      settles on. */
  lemma ClosestSpacingAt(grid: seq<string>, left: string, k: nat)
    requires k < |grid| && ClosestIndex(Parsed(grid), ParseInt(left)) == k
    ensures ClosestSpacing(grid, left) == grid[k]
  {
  }

  lemma SecondColumnIndex(left: string, x: int)
    requires ParseInt(left) == Some(x) && 64 <= x <= 184
    ensures ClosestIndex(Parsed(GridSpacing), ParseInt(left)) == 1
  {
    GridSpacingParses();
    SecondPixelNearest(x);
    UniqueNearest(Parsed(GridSpacing), ColumnPixels, x, 1);
  }

  /** 124 is strictly the nearest column pixel value to any value from 64
      to 184. */
  lemma SecondPixelNearest(x: int)
    requires 64 <= x <= 184
    ensures forall j :: 0 <= j < |ColumnPixels| && j != 1 ==> Abs(ColumnPixels[1] - x) < Abs(ColumnPixels[j] - x)
  {
  }

  /** When the `k`-th entry is strictly nearer to `x` than every other
      entry, the `reduce` picks it. */
  lemma UniqueNearest(values: seq<Option<int>>, ns: seq<int>, x: int, k: nat)
    requires |values| == |ns| && k < |ns|
    requires forall j :: 0 <= j < |values| ==> values[j] == Some(ns[j])
    requires forall j :: 0 <= j < |ns| && j != k ==> Abs(ns[k] - x) < Abs(ns[j] - x)
    ensures ClosestIndex(values, Some(x)) == k
  {
    NearestOfNumbers(values, ns, x);
    assert Abs(ns[ClosestIndex(values, Some(x))] - x) <= Abs(ns[k] - x);
  }

  /** With at least two day headers read, a cell in the second column gets
      the second header as its date. */
  lemma SecondColumnDate(days: seq<string>, left: string, x: int)
    requires |days| > 1 && ParseInt(left) == Some(x) && 64 <= x <= 184
    ensures DayOf(DayMapping(GridSpacing, days), ClosestSpacing(GridSpacing, left)) == Some(days[1])
  {
    GridSpacingDistinct();
    DateOfSpan(GridSpacing, days, left);
    SecondColumnIndex(left, x);
  }

  /** A cell at `left: 130px` sits in the second column. */
  lemma NearestOf130()
    ensures ClosestSpacing(GridSpacing, "130px") == "124px"
  {
    assert DecimalText(13) == "13";
    assert DecimalText(130) == "130";
    assert "130px" == DecimalText(130) + "px";
    ParseIntOfDecimal(130, "px");
    SecondColumn("130px", 130);
  }

  /** The date a bookable span gets: the header of the column nearest its
      cell when that many headers were read, `undefined` otherwise. */
  lemma DateOfSpan(grid: seq<string>, days: seq<string>, left: string)
    requires |grid| > 0 && DistinctOffsets(grid)
    ensures var i := ClosestIndex(Parsed(grid), ParseInt(left));
      DayOf(DayMapping(grid, days), ClosestSpacing(grid, left)) == if i < |days| then Some(days[i]) else None
  {
    DayMappingBinds(grid, days);
  }

  /** A span whose text carries the "Book Now" marker. */
  predicate Bookable(s: Span) {
    Includes(s.text, BookNow)
  }

  /** `spans.filter(span => span.textContent.includes("Book Now"))`. */
  function BookableSpans(spans: seq<Span>): seq<Span> {
    Filter(spans, Bookable)
  }

  /** The record the `map` callback builds for one bookable span whose grid
      cell has the given `left`. */
  function BookingOf(s: Span, left: string, grid: seq<string>, mapping: map<string, string>, url: string): Booking
    requires |grid| > 0
  {
    Booking(s.title, DayOf(mapping, ClosestSpacing(grid, left)), url)
  }

  /** Every span sits in a grid cell. */
  predicate AllInCells(spans: seq<Span>) {
    forall j :: 0 <= j < |spans| ==> spans[j].cellLeft.Some?
  }

  /** The `map` over the bookable spans, one record per span. */
  function Records(kept: seq<Span>, grid: seq<string>, mapping: map<string, string>, url: string): (r: seq<Booking>)
    requires |grid| > 0 && AllInCells(kept)
  {
    seq(|kept|, j requires 0 <= j < |kept| => BookingOf(kept[j], kept[j].cellLeft.value, grid, mapping, url))
  }

  /** The `filter`/`map` over the page's spans. A bookable span outside any
      grid cell makes `gridCell.style` throw, which fails the whole
      extraction (`None`). */
  function DecodeSpans(spans: seq<Span>, grid: seq<string>, mapping: map<string, string>, url: string): (r: Option<seq<Booking>>)
    requires |grid| > 0
    ensures r.Some? ==> |r.value| == |BookableSpans(spans)|
    ensures r.Some? ==> forall j :: 0 <= j < |r.value| ==>
      r.value[j].time == BookableSpans(spans)[j].title && r.value[j].courtUrl == url
    ensures r.Some? ==> forall j :: 0 <= j < |r.value| ==>
      BookableSpans(spans)[j].cellLeft.Some?
      && r.value[j].date == DayOf(mapping, ClosestSpacing(grid, BookableSpans(spans)[j].cellLeft.value))
  {
    var kept := BookableSpans(spans);
    if AllInCells(kept) then Some(Records(kept, grid, mapping, url)) else None
  }

  /** The extraction fails exactly when some bookable span lies outside a
      grid cell. */
  lemma DecodeFailsIff(spans: seq<Span>, grid: seq<string>, mapping: map<string, string>, url: string)
    requires |grid| > 0
    ensures DecodeSpans(spans, grid, mapping, url).None?
        <==> exists i :: 0 <= i < |spans| && Bookable(spans[i]) && spans[i].cellLeft.None?
  {
    FilterMembers(spans, Bookable);
    var kept := BookableSpans(spans);
    if !AllInCells(kept) {
      var j :| 0 <= j < |kept| && kept[j].cellLeft.None?;
      assert kept[j] in spans;
    }
    if exists i :: 0 <= i < |spans| && Bookable(spans[i]) && spans[i].cellLeft.None? {
      var i :| 0 <= i < |spans| && Bookable(spans[i]) && spans[i].cellLeft.None?;
      assert spans[i] in kept;
    }
  }

  /** Spans without the marker are never looked at: dropping them, whatever
      their cell, changes nothing. */
  lemma DecodeIgnoresUnbookable(spans: seq<Span>, grid: seq<string>, mapping: map<string, string>, url: string)
    requires |grid| > 0
    ensures DecodeSpans(BookableSpans(spans), grid, mapping, url) == DecodeSpans(spans, grid, mapping, url)
  {
    FilterIdempotent(spans, Bookable);
  }
}
