/** The notification e-mail: whether there is anything to send
    (`areAllCourtsEmpty`) and the HTML table `formatMessage` builds, one row
    per booking, courts in `for...in` order. Both programs share this code. */
module Report {
  import opened JsText
  import opened Bookings
  import opened Seqs

  /** `areAllCourtsEmpty`: every value of the object is an empty list, so
      every court's list is empty (vacuously so for a map without courts). */
  predicate AllCourtsEmpty(m: Snapshot)
    ensures AllCourtsEmpty(m) <==> forall c :: c in m ==> m[c] == []
  {
    forall bookings :: bookings in m.Values ==> |bookings| == 0
  }

  /** Keys listed in strictly increasing order. */
  predicate Increasing(s: seq<nat>) {
    forall i, j :: 0 <= i < j < |s| ==> s[i] < s[j]
  }

  /** Every non-empty set of court numbers has a smallest member. */
  lemma {:induction false} LeastMember(keys: set<nat>) returns (least: nat)
    requires keys != {}
    ensures least in keys && forall x :: x in keys ==> least <= x
    decreases |keys|
  {
    var y :| y in keys;
    var rest := keys - {y};
    if rest == {} {
      assert keys == {y};
      least := y;
    } else {
      var k := LeastMember(rest);
      least := if y < k then y else k;
      forall x | x in keys ensures least <= x {
        if x != y {
          assert x in rest;
        }
      }
    }
  }

  lemma LeastExists(keys: set<nat>)
    requires keys != {}
    ensures exists k :: k in keys && forall x :: x in keys ==> k <= x
  {
    var least := LeastMember(keys);
  }

  /** The smallest court number of a non-empty set. */
  function Least(keys: set<nat>): (k: nat)
    requires keys != {}
    ensures k in keys && forall x :: x in keys ==> k <= x
  {
    LeastExists(keys);
    var k :| k in keys && forall x :: x in keys ==> k <= x;
    k
  }

  /** The order `for...in` visits the keys of an object whose keys are all
      array indices: ascending numeric order. */
  function SortedKeys(keys: set<nat>): (r: seq<nat>)
    ensures Increasing(r) && |r| == |keys|
    ensures forall k :: k in r <==> k in keys
    decreases |keys|
  {
    if keys == {} then []
    else
      var k := Least(keys);
      [k] + SortedKeys(keys - {k})
  }

  /** One table row of `formatMessage`: court number, `time` and `date`
      interpolated as `${}` renders them, and the unescaped booking link. */
  function Row(court: nat, b: Booking): string {
    Concat(["\n          <tr>\n            <td>", DecimalText(court),
      "</td>\n            <td>", NullableText(b.time),
      "</td>\n            <td>", OptionalText(b.date),
      "</td>\n            <td><a href=\"", b.courtUrl,
      "\" target=\"_blank\">Book Now</a></td>\n          </tr>\n        "])
  }

  /** The pieces of a template literal, joined in order. */
  function Concat(parts: seq<string>): string {
    if |parts| == 0 then "" else Concat(parts[..|parts| - 1]) + parts[|parts| - 1]
  }

  /** The opening of the message, up to and including `<tbody>`. */
  const Header: string :=
    "\n    <h2>Available Court Bookings</h2>\n"
    + "    <table border=\"1\" cellpadding=\"10\" style=\"border-collapse: collapse;\">\n"
    + "      <thead>\n        <tr>\n          <th>Court #</th>\n          <th>Time</th>\n"
    + "          <th>Date</th>\n          <th>Booking Link</th>\n        </tr>\n"
    + "      </thead>\n      <tbody>\n  "

  /** The closing of the message. */
  const Footer: string := "</tbody></table>"

  /** A booking together with the court it is listed under. */
  datatype Entry = Entry(court: nat, booking: Booking)

  /** The row of one entry. */
  function RowOf(e: Entry): string {
    Row(e.court, e.booking)
  }

  /** The entries of one court, in list order. */
  function CourtEntries(court: nat, bs: seq<Booking>): (r: seq<Entry>)
    ensures |r| == |bs|
  {
    seq(|bs|, i requires 0 <= i < |bs| => Entry(court, bs[i]))
  }

  /** The entries of the listed courts, court after court. */
  function EntriesOf(m: Snapshot, courts: seq<nat>): seq<Entry>
    requires forall i :: 0 <= i < |courts| ==> courts[i] in m
  {
    if |courts| == 0 then []
    else CourtEntries(courts[0], m[courts[0]]) + EntriesOf(m, courts[1..])
  }

  /** Every booking of the map in the order `formatMessage` lists them. */
  function Entries(m: Snapshot): seq<Entry> {
    EntriesOf(m, SortedKeys(m.Keys))
  }

  /** The entries rendered one after another, as repeated `+=` joins them. */
  function Joined(es: seq<Entry>, render: Entry -> string): string {
    if |es| == 0 then "" else Joined(es[..|es| - 1], render) + render(es[|es| - 1])
  }

  /** The message `formatMessage` returns for `m`: the header, one row per
      entry, the footer. */
  function Message(m: Snapshot): string {
    Header + Joined(Entries(m), RowOf) + Footer
  }

  lemma JoinedSnoc(es: seq<Entry>, e: Entry, render: Entry -> string)
    ensures Joined(es + [e], render) == Joined(es, render) + render(e)
  {
    assert (es + [e])[..|es|] == es;
  }

  lemma {:induction false} JoinedSplit(a: seq<Entry>, b: seq<Entry>, render: Entry -> string)
    ensures Joined(a + b, render) == Joined(a, render) + Joined(b, render)
    decreases |b|
  {
    if |b| == 0 {
      assert a + b == a;
    } else {
      var b' := b[..|b| - 1];
      assert (a + b)[..|a + b| - 1] == a + b';
      JoinedSplit(a, b', render);
    }
  }

  lemma {:induction false} EntriesOfSnoc(m: Snapshot, courts: seq<nat>, c: nat)
    requires forall i :: 0 <= i < |courts| ==> courts[i] in m
    requires c in m
    ensures EntriesOf(m, courts + [c]) == EntriesOf(m, courts) + CourtEntries(c, m[c])
  {
    if |courts| == 0 {
      assert EntriesOf(m, [c]) == CourtEntries(c, m[c]) + EntriesOf(m, []);
    } else {
      assert (courts + [c])[1..] == courts[1..] + [c];
      EntriesOfSnoc(m, courts[1..], c);
    }
  }

  lemma AppendAssoc(a: string, b: string, c: string)
    ensures (a + b) + c == a + (b + c)
  {
  }

  /** One more booking of a court adds its rendering. */
  lemma CourtRowsStep(court: nat, bs: seq<Booking>, j: nat, render: Entry -> string)
    requires j < |bs|
    ensures Joined(CourtEntries(court, bs[..j + 1]), render)
         == Joined(CourtEntries(court, bs[..j]), render) + render(Entry(court, bs[j]))
  {
    assert CourtEntries(court, bs[..j + 1]) == CourtEntries(court, bs[..j]) + [Entry(court, bs[j])];
    JoinedSnoc(CourtEntries(court, bs[..j]), Entry(court, bs[j]), render);
  }

  /** One more court adds the renderings of its bookings. */
  lemma CourtsStep(m: Snapshot, courts: seq<nat>, i: nat, render: Entry -> string)
    requires i < |courts| && forall k :: 0 <= k < |courts| ==> courts[k] in m
    ensures Joined(EntriesOf(m, courts[..i + 1]), render)
         == Joined(EntriesOf(m, courts[..i]), render) + Joined(CourtEntries(courts[i], m[courts[i]]), render)
  {
    assert courts[..i + 1] == courts[..i] + [courts[i]];
    EntriesOfSnoc(m, courts[..i], courts[i]);
    JoinedSplit(EntriesOf(m, courts[..i]), CourtEntries(courts[i], m[courts[i]]), render);
  }

  /** `bookings.forEach(booking => { message += row })` for one court. */
  method AppendRows(msg0: string, court: nat, bookings: seq<Booking>) returns (msg: string)
    ensures msg == msg0 + Joined(CourtEntries(court, bookings), RowOf)
  {
    msg := msg0;
    var j := 0;
    while j < |bookings|
      invariant j <= |bookings|
      invariant msg == msg0 + Joined(CourtEntries(court, bookings[..j]), RowOf)
    {
      CourtRowsStep(court, bookings, j, RowOf);
      AppendAssoc(msg0, Joined(CourtEntries(court, bookings[..j]), RowOf), Row(court, bookings[j]));
      msg := msg + Row(court, bookings[j]);
      j := j + 1;
    }
    assert bookings[..j] == bookings;
  }

  /** The `for...in` loop of `formatMessage` over the courts in `courts`,
      skipping courts without bookings. */
  method AppendCourts(msg0: string, m: Snapshot, courts: seq<nat>) returns (msg: string)
    requires forall i :: 0 <= i < |courts| ==> courts[i] in m
    ensures msg == msg0 + Joined(EntriesOf(m, courts), RowOf)
  {
    msg := msg0;
    for i := 0 to |courts|
      invariant msg == msg0 + Joined(EntriesOf(m, courts[..i]), RowOf)
    {
      var court := courts[i];
      var bookings := m[court];
      CourtsStep(m, courts, i, RowOf);
      AppendAssoc(msg0, Joined(EntriesOf(m, courts[..i]), RowOf), Joined(CourtEntries(court, bookings), RowOf));
      if |bookings| > 0 {
        msg := AppendRows(msg, court, bookings);
      } else {
        assert Joined(CourtEntries(court, bookings), RowOf) == "";
      }
    }
    assert courts[..|courts|] == courts;
  }

  /** `formatMessage`: the header, the rows of every court in `for...in`
      order, the closing tags. */
  method FormatMessage(m: Snapshot) returns (msg: string)
    ensures msg == Message(m)
  {
    msg := Header;
    msg := AppendCourts(msg, m, SortedKeys(m.Keys));
    msg := msg + Footer;
  }

  /** An entry of one court's list is that court with one of its bookings. */
  lemma CourtEntriesMember(court: nat, bs: seq<Booking>)
    ensures forall e :: e in CourtEntries(court, bs) <==> e.court == court && e.booking in bs
  {
    forall e: Entry | e.court == court && e.booking in bs ensures e in CourtEntries(court, bs) {
      var i :| 0 <= i < |bs| && bs[i] == e.booking;
      assert CourtEntries(court, bs)[i] == e;
    }
  }

  lemma {:induction false} EntriesOfMember(m: Snapshot, courts: seq<nat>)
    requires forall i :: 0 <= i < |courts| ==> courts[i] in m
    ensures forall e :: e in EntriesOf(m, courts) <==> e.court in courts && e.booking in m[e.court]
  {
    if |courts| > 0 {
      EntriesOfMember(m, courts[1..]);
      CourtEntriesMember(courts[0], m[courts[0]]);
      assert forall c :: c in courts <==> c == courts[0] || c in courts[1..];
    }
  }

  /** Every booking of every court gets an entry, and there are no others:
      courts with empty lists contribute nothing. */
  lemma EntriesMember(m: Snapshot)
    ensures forall e :: e in Entries(m) <==> e.court in m && e.booking in m[e.court]
  {
    EntriesOfMember(m, SortedKeys(m.Keys));
  }

  /** `areAllCourtsEmpty` holds exactly when there is no row to write. */
  lemma AllCourtsEmptyIff(m: Snapshot)
    ensures AllCourtsEmpty(m) <==> Entries(m) == []
  {
    EntriesMember(m);
    if !AllCourtsEmpty(m) {
      var c :| c in m && |m[c]| != 0;
      assert Entry(c, m[c][0]) in Entries(m);
    }
    if Entries(m) != [] {
      assert Entries(m)[0] in Entries(m);
    }
  }

  lemma JoinedRowsEmpty(es: seq<Entry>)
    ensures Joined(es, RowOf) == "" <==> es == []
  {
    if |es| > 0 {
      var e := es[|es| - 1];
      assert |Row(e.court, e.booking)| > 0;
    }
  }

  /** The message is the bare table exactly when every court's list is
      empty, which is when neither program sends it. */
  lemma MessageBareIff(m: Snapshot)
    ensures Message(m) == Header + Footer <==> AllCourtsEmpty(m)
  {
    AllCourtsEmptyIff(m);
    JoinedRowsEmpty(Entries(m));
    NothingBetween(Header, Joined(Entries(m), RowOf), Footer);
  }

  /** Text between a header and a footer leaves them apart exactly when it
      is not empty. */
  lemma NothingBetween(head: string, middle: string, foot: string)
    ensures head + middle + foot == head + foot <==> middle == ""
  {
    if head + middle + foot == head + foot {
      assert |head + middle + foot| == |head| + |middle| + |foot|;
    }
  }

  /** Entries come court by court in increasing court order. */
  lemma {:induction false} EntriesOfOrdered(m: Snapshot, courts: seq<nat>)
    requires forall i :: 0 <= i < |courts| ==> courts[i] in m
    requires Increasing(courts)
    ensures forall i, j :: 0 <= i < j < |EntriesOf(m, courts)| ==> EntriesOf(m, courts)[i].court <= EntriesOf(m, courts)[j].court
  {
    if |courts| > 0 {
      var head := CourtEntries(courts[0], m[courts[0]]);
      var tail := EntriesOf(m, courts[1..]);
      EntriesOfOrdered(m, courts[1..]);
      EntriesOfMember(m, courts[1..]);
      forall j | 0 <= j < |tail| ensures courts[0] < tail[j].court {
        assert tail[j] in tail;
      }
    }
  }

  lemma EntriesOrdered(m: Snapshot)
    ensures forall i, j :: 0 <= i < j < |Entries(m)| ==> Entries(m)[i].court <= Entries(m)[j].court
  {
    EntriesOfOrdered(m, SortedKeys(m.Keys));
  }

  /** Keeps the entries of one court. */
  function OnCourt(court: nat): Entry -> bool {
    (e: Entry) => e.court == court
  }

  lemma {:induction false} FilterCourtEntries(c: nat, court: nat, bs: seq<Booking>)
    ensures Filter(CourtEntries(c, bs), OnCourt(court)) == if c == court then CourtEntries(c, bs) else []
  {
    if |bs| > 0 {
      FilterCourtEntries(c, court, bs[1..]);
      assert CourtEntries(c, bs)[1..] == CourtEntries(c, bs[1..]);
    }
  }

  lemma {:induction false} FilterEntriesOf(m: Snapshot, courts: seq<nat>, court: nat)
    requires forall i :: 0 <= i < |courts| ==> courts[i] in m
    requires Increasing(courts)
    ensures Filter(EntriesOf(m, courts), OnCourt(court)) == if court in courts then CourtEntries(court, m[court]) else []
  {
    if |courts| > 0 {
      FilterEntriesOf(m, courts[1..], court);
      FilterCourtEntries(courts[0], court, m[courts[0]]);
      FilterConcat(CourtEntries(courts[0], m[courts[0]]), EntriesOf(m, courts[1..]), OnCourt(court));
      assert court in courts <==> court == courts[0] || court in courts[1..];
      if court == courts[0] {
        assert court !in courts[1..];
      }
    }
  }

  /** The rows of one court are that court's bookings, each once, in list
      order. */
  lemma EntriesOfCourt(m: Snapshot, court: nat)
    requires court in m
    ensures Filter(Entries(m), OnCourt(court)) == CourtEntries(court, m[court])
  {
    FilterEntriesOf(m, SortedKeys(m.Keys), court);
  }
}
