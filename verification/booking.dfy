/** The booking endpoint: the regular single booking with its capacity
    check, the administrators' batch booking that bypasses the inventory,
    and the dispatch between them. */
module BookingService {
  import opened Wrappers
  import opened Decimal
  import opened Cinema

  /** Fixed price of one ticket. */
  const TicketPrice: int := 10

  /** One booking as the client sends it; discount may be omitted. */
  datatype BookingRequest = BookingRequest(key: Key, attendees: int, discount: Option<real>)

  /** The request body: `regular` is present when the body has a `cinema`
      field, `adminBookings` when it has an `admin_bookings` list. */
  datatype Request = Request(regular: Option<BookingRequest>, adminBookings: Option<seq<BookingRequest>>)

  /** An omitted discount counts as zero. */
  function DiscountOf(rq: BookingRequest): real {
    rq.discount.GetOr(0.0)
  }

  /** The booking row written for a request: ticket price times attendees,
      less the discount, with no clamping. */
  function Record(bookingId: string, userId: int, rq: BookingRequest, isAdmin: bool): Booking {
    var total := TicketPrice * rq.attendees;
    Booking(bookingId, userId, rq.key, rq.attendees, total, DiscountOf(rq), total as real - DiscountOf(rq), isAdmin)
  }

  /** Identifier of a regular booking: "BK" followed by the timestamp. */
  function RegularId(ts: string): string {
    "BK" + ts
  }

  /** A timestamp as strftime('%y%m%d%H%M%S') renders it: twelve digits. */
  predicate IsStamp(ts: string) {
    |ts| == 12 && AllDigits(ts)
  }

  /** Identifier of the i-th booking of an admin batch, stamped ts. */
  function AdminId(ts: string, i: nat): string {
    "ADMIN-BK" + ts + "-" + FromNat(i)
  }

  /** A regular booking by the logged-in client, timestamped ts.
      Fails with 'Not logged in' without a session, with 'Invalid cinema,
      movie or time' for an unknown showing, and with 'Not enough seats
      available' when a non-admin asks for more than remain; a failure
      changes nothing. Otherwise exactly that block's booked count grows by
      the attendees and exactly one non-admin booking row is appended. */
  function Book(st: State, rq: BookingRequest, ts: string): (r: Step)
    ensures r.state.users == st.users && r.state.session == st.session
    ensures r.reply.Booked? <==>
              && st.session.Some?
              && rq.key in st.inventory
              && (st.session.value.isAdmin || rq.attendees <= st.inventory[rq.key].Remaining())
    ensures st.session.None? ==> r == Step(st, Failed(NotLoggedIn))
    ensures st.session.Some? && rq.key !in st.inventory ==> r == Step(st, Failed(InvalidKey))
    ensures st.session.Some? && rq.key in st.inventory && !st.session.value.isAdmin
            && st.inventory[rq.key].Remaining() < rq.attendees
            ==> r == Step(st, Failed(NotEnoughSeats))
    ensures r.reply.Booked? ==>
              && SameExcept(st.inventory, r.state.inventory, rq.key)
              && var before, after := st.inventory[rq.key], r.state.inventory[rq.key];
              && after.id == before.id && after.total == before.total
              && after.booked == before.booked + rq.attendees
    ensures r.reply.Booked? ==>
              && |r.state.bookings| == |st.bookings| + 1
              && r.state.bookings[..|st.bookings|] == st.bookings
              && var b := r.state.bookings[|st.bookings|];
              && b.bookingId == "BK" + ts && !b.isAdmin
              && b.userId == st.session.value.userId
              && b.key == rq.key && b.attendees == rq.attendees
              && b.totalPrice == 10 * rq.attendees
              && b.discount == rq.discount.GetOr(0.0)
              && b.finalPrice == b.totalPrice as real - b.discount
              && r.reply.quote == QuoteOf(b)
  {
    if st.session.None? then Step(st, Failed(NotLoggedIn))
    else if rq.key !in st.inventory then Step(st, Failed(InvalidKey))
    else
      var blk := st.inventory[rq.key];
      var who := st.session.value;
      if blk.total - blk.booked < rq.attendees && !who.isAdmin then Step(st, Failed(NotEnoughSeats))
      else
        var b := Record(RegularId(ts), who.userId, rq, false);
        var st' := st.(inventory := st.inventory[rq.key := blk.(booked := blk.booked + rq.attendees)],
                       bookings := st.bookings + [b]);
        Step(st', Booked(QuoteOf(b)))
  }

  /** The rows an admin batch writes, in request order. */
  function BatchRecords(userId: int, rqs: seq<BookingRequest>, clock: nat -> string): seq<Booking> {
    seq(|rqs|, i requires 0 <= i < |rqs| => Record(AdminId(clock(i), i), userId, rqs[i], true))
  }

  /** An admin batch booking. The clock is read once per element: clock(i)
      is the timestamp read while handling the i-th request, so a batch that
      spans a second boundary mixes timestamps. Fails with 'Not logged in'
      without a session and with 'Not authorized' for a non-admin session,
      changing nothing. For an admin it never reads or writes the
      inventory: it appends one admin booking row per request, in request
      order, the i-th identified by "ADMIN-BK", clock(i), "-" and i in decimal,
      and replies with their payloads in the same order. */
  function AdminBatch(st: State, rqs: seq<BookingRequest>, clock: nat -> string): (r: Step)
    ensures r.state.inventory == st.inventory
    ensures r.state.users == st.users && r.state.session == st.session
    ensures r.reply.BatchBooked? <==> st.session.Some? && st.session.value.isAdmin
    ensures st.session.None? ==> r == Step(st, Failed(NotLoggedIn))
    ensures st.session.Some? && !st.session.value.isAdmin ==> r == Step(st, Failed(NotAuthorized))
    ensures r.reply.BatchBooked? ==>
              && |r.state.bookings| == |st.bookings| + |rqs|
              && r.state.bookings[..|st.bookings|] == st.bookings
              && |r.reply.quotes| == |rqs|
              && forall i :: 0 <= i < |rqs| ==>
                   && var b := r.state.bookings[|st.bookings| + i];
                   && b.bookingId == "ADMIN-BK" + clock(i) + "-" + FromNat(i)
                   && b.isAdmin
                   && b.userId == st.session.value.userId
                   && b.key == rqs[i].key && b.attendees == rqs[i].attendees
                   && b.totalPrice == 10 * rqs[i].attendees
                   && b.discount == rqs[i].discount.GetOr(0.0)
                   && b.finalPrice == b.totalPrice as real - b.discount
                   && r.reply.quotes[i] == QuoteOf(b)
  {
    if st.session.None? then Step(st, Failed(NotLoggedIn))
    else if !st.session.value.isAdmin then Step(st, Failed(NotAuthorized))
    else
      var recs := BatchRecords(st.session.value.userId, rqs, clock);
      var st' := st.(bookings := st.bookings + recs);
      assert forall i :: 0 <= i < |rqs| ==> st'.bookings[|st.bookings| + i] == recs[i];
      Step(st', BatchBooked(seq(|recs|, i requires 0 <= i < |recs| => QuoteOf(recs[i]))))
  }

  /** The booking endpoint. The session is checked first; a body with a
      `cinema` field is a regular booking even when it also carries
      `admin_bookings`; a body with neither is rejected with 'Invalid
      request format' and changes nothing. clock(n) is the timestamp
      returned by the request's n-th clock read; the regular path reads it
      once. */
  function HandleBook(st: State, req: Request, clock: nat -> string): (r: Step)
    ensures st.session.None? ==> r == Step(st, Failed(NotLoggedIn))
    ensures req.regular.Some? ==> r == Book(st, req.regular.value, clock(0))
    ensures req.regular.None? && req.adminBookings.Some? ==> r == AdminBatch(st, req.adminBookings.value, clock)
    ensures st.session.Some? && req.regular.None? && req.adminBookings.None?
            ==> r == Step(st, Failed(InvalidRequestFormat))
  {
    if st.session.None? then Step(st, Failed(NotLoggedIn))
    else if req.regular.Some? then Book(st, req.regular.value, clock(0))
    else if req.adminBookings.Some? then AdminBatch(st, req.adminBookings.value, clock)
    else Step(st, Failed(InvalidRequestFormat))
  }
}
