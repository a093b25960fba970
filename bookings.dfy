/** The records that flow through the availability pipeline: courts, the
    raw page data a court's booking page yields, booking records and the
    per-court snapshot built from them. */
module Bookings {
  import opened JsText

  /** One tracked court: its number and the booking page it is read from. */
  datatype Court = Court(number: nat, url: string)

  /** One bookable slot as the grid decoder emits it. `time` is the span's
      `title` attribute (`null` when absent); `date` is the day header bound
      to the span's column (`undefined` when no header is bound to it). */
  datatype Booking = Booking(time: Option<string>, date: Option<string>, courtUrl: string)

  /** Court number to that court's bookings, in page order. Court numbers
      are the keys of a JavaScript object, so they are non-negative. */
  type Snapshot = map<nat, seq<Booking>>

  /** One `<span>` of a rendered booking page: its text, its `title`
      attribute, and the `style.left` of the closest enclosing grid cell
      (`None` when the span sits in no grid cell). */
  datatype Span = Span(text: string, title: Option<string>, cellLeft: Option<string>)

  /** What the browser gave back for one court's page: either it failed to
      navigate or to show the day headers, or it rendered the day headers
      (left to right) and the page's spans. */
  datatype PageLoad = Unreachable | Rendered(days: seq<string>, spans: seq<Span>)

  /** One court together with what its page yielded on this run. */
  datatype Visit = Visit(court: Court, page: PageLoad)

  /** The previous bookings of a court, `[]` when the court has no entry. */
  function PrevOf(s: Snapshot, court: nat): seq<Booking> {
    if court in s then s[court] else []
  }
}
