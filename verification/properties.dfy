/** Properties that relate several requests: the seat ledger, the capacity
    bound under non-admin bookings and how admins and negative attendee
    counts break it, agreement of the two pricing paths, uniqueness of
    batch identifiers, and the seeded credentials. */
module Properties {
  import opened Wrappers
  import opened Decimal
  import opened Cinema
  import opened Seeding
  import opened Auth
  import opened BookingService

  /** One request of a client; a booking request carries the clock readings
      it would see. */
  datatype Op =
    | LoginOp(username: string, password: string)
    | LogoutOp
    | BookOp(req: Request, clock: nat -> string)

  function Apply(st: State, op: Op): Step {
    match op
    case LoginOp(u, p) => Login(st, u, p)
    case LogoutOp => Logout(st)
    case BookOp(req, clock) => HandleBook(st, req, clock)
  }

  /** The state after handling the requests in order. */
  function Run(st: State, ops: seq<Op>): State
    decreases |ops|
  {
    if |ops| == 0 then st else Run(Apply(st, ops[0]).state, ops[1..])
  }

  // ---------------------------------------------------------------------
  // The seat ledger: every block's booked count is the sum of the
  // attendees of the regular bookings made for it.

  lemma BookKeepsLedger(st: State, rq: BookingRequest, ts: string)
    requires LedgerAgrees(st)
    ensures LedgerAgrees(Book(st, rq, ts).state)
  {
    var r := Book(st, rq, ts);
    if r.reply.Booked? {
      var b := r.state.bookings[|st.bookings|];
      assert r.state.bookings == st.bookings + [b];
      forall k | k in r.state.inventory
        ensures r.state.inventory[k].booked == BookedOn(r.state.bookings, k)
      {
        BookedOnAppend(st.bookings, b, k);
      }
    }
  }

  lemma AdminBatchKeepsLedger(st: State, rqs: seq<BookingRequest>, clock: nat -> string)
    requires LedgerAgrees(st)
    ensures LedgerAgrees(AdminBatch(st, rqs, clock).state)
  {
    var r := AdminBatch(st, rqs, clock);
    if r.reply.BatchBooked? {
      var extra := r.state.bookings[|st.bookings|..];
      assert r.state.bookings == st.bookings + extra;
      assert forall i :: 0 <= i < |extra| ==> extra[i] == r.state.bookings[|st.bookings| + i];
      forall k | k in r.state.inventory
        ensures r.state.inventory[k].booked == BookedOn(r.state.bookings, k)
      {
        BookedOnAppendAdmin(st.bookings, extra, k);
      }
    }
  }

  lemma ApplyKeepsLedger(st: State, op: Op)
    requires LedgerAgrees(st)
    ensures LedgerAgrees(Apply(st, op).state)
  {
    match op
    case LoginOp(u, p) =>
    case LogoutOp =>
    case BookOp(req, clock) =>
      if st.session.Some? {
        if req.regular.Some? {
          BookKeepsLedger(st, req.regular.value, clock(0));
        } else if req.adminBookings.Some? {
          AdminBatchKeepsLedger(st, req.adminBookings.value, clock);
        }
      }
  }

  /** Starting from a freshly initialised store, after any sequence of
      logins, logouts and booking requests, each block's booked count equals
      the attendees summed over the regular bookings for that showing; admin
      batch bookings never show up in the seat counts. */
  lemma {:induction false} RunKeepsLedger(st: State, ops: seq<Op>)
    requires LedgerAgrees(st)
    ensures LedgerAgrees(Run(st, ops))
    decreases |ops|
  {
    if |ops| > 0 {
      ApplyKeepsLedger(st, ops[0]);
      RunKeepsLedger(Apply(st, ops[0]).state, ops[1..]);
    }
  }

  lemma FreshRunLedger(ops: seq<Op>)
    ensures LedgerAgrees(Run(Fresh(), ops))
  {
    FreshStore();
    RunKeepsLedger(Fresh(), ops);
  }

  // ---------------------------------------------------------------------
  // The capacity bound.

  predicate NonAdminSession(st: State) {
    st.session.Some? && !st.session.value.isAdmin
  }

  /** A regular booking from a non-admin session keeps every block within
      its capacity. */
  lemma NonAdminBookKeepsCapacity(st: State, rq: BookingRequest, ts: string)
    requires NonAdminSession(st) && WithinCapacity(st.inventory)
    ensures WithinCapacity(Book(st, rq, ts).state.inventory)
  {
  }

  /** Regular bookings made one after another, each with its own timestamp. */
  function BookSeries(st: State, rqs: seq<(BookingRequest, string)>): State
    decreases |rqs|
  {
    if |rqs| == 0 then st else BookSeries(Book(st, rqs[0].0, rqs[0].1).state, rqs[1..])
  }

  /** Any series of regular bookings by a non-admin client keeps every block
      within capacity. */
  lemma {:induction false} NonAdminSeriesKeepsCapacity(st: State, rqs: seq<(BookingRequest, string)>)
    requires NonAdminSession(st) && WithinCapacity(st.inventory)
    ensures WithinCapacity(BookSeries(st, rqs).inventory)
    decreases |rqs|
  {
    if |rqs| > 0 {
      NonAdminBookKeepsCapacity(st, rqs[0].0, rqs[0].1);
      NonAdminSeriesKeepsCapacity(Book(st, rqs[0].0, rqs[0].1).state, rqs[1..]);
    }
  }

  /** An admin session books past the remaining seats on the regular path,
      pushing the block over capacity, yet the row is not an admin booking. */
  lemma AdminOverbooks(st: State, rq: BookingRequest, ts: string)
    requires st.session.Some? && st.session.value.isAdmin
    requires rq.key in st.inventory && rq.attendees > st.inventory[rq.key].Remaining()
    ensures Book(st, rq, ts).reply.Booked?
    ensures Book(st, rq, ts).state.inventory[rq.key].booked > st.inventory[rq.key].total
    ensures !Book(st, rq, ts).state.bookings[|st.bookings|].isAdmin
    ensures !WithinCapacity(Book(st, rq, ts).state.inventory)
  {
  }

  /** A negative attendee count passes the capacity check of a block within
      capacity and lowers its booked count: the bound booked <= total holds
      but booked >= 0 does not. */
  lemma NegativeAttendeesLowerBooked(st: State, rq: BookingRequest, ts: string)
    requires NonAdminSession(st) && WithinCapacity(st.inventory)
    requires rq.key in st.inventory && rq.attendees < 0
    ensures Book(st, rq, ts).reply.Booked?
    ensures Book(st, rq, ts).state.inventory[rq.key].booked < st.inventory[rq.key].booked
    ensures st.inventory[rq.key].booked == 0 ==> Book(st, rq, ts).state.inventory[rq.key].booked < 0
  {
  }

  // ---------------------------------------------------------------------
  // Pricing.

  /** The regular path and the batch path price the same request alike:
      total 10 per attendee, final price total less discount. */
  lemma SamePricingBothPaths(st: State, rq: BookingRequest, ts: string)
    requires st.session.Some? && st.session.value.isAdmin && rq.key in st.inventory
    ensures Book(st, rq, ts).reply.Booked? && AdminBatch(st, [rq], _ => ts).reply.BatchBooked?
    ensures Book(st, rq, ts).reply.quote.totalPrice == AdminBatch(st, [rq], _ => ts).reply.quotes[0].totalPrice
    ensures Book(st, rq, ts).reply.quote.finalPrice == AdminBatch(st, [rq], _ => ts).reply.quotes[0].finalPrice
    ensures Book(st, rq, ts).reply.quote.discount == AdminBatch(st, [rq], _ => ts).reply.quotes[0].discount
  {
  }

  /** A discount larger than the total gives a negative final price. */
  lemma DiscountBeyondTotal(st: State, rq: BookingRequest, ts: string)
    requires Book(st, rq, ts).reply.Booked?
    requires DiscountOf(rq) > (10 * rq.attendees) as real
    ensures Book(st, rq, ts).reply.quote.finalPrice < 0.0
  {
  }

  // ---------------------------------------------------------------------
  // Booking identifiers.

  lemma PrefixCancel(p: string, q: string, a: string, b: string)
    requires |p| == |q| && p + a == q + b
    ensures a == b
  {
    assert a == (p + a)[|p|..];
    assert b == (q + b)[|q|..];
  }

  /** Within one batch, distinct positions get distinct identifiers, even
      when the clock moves on between them. */
  lemma BatchIdsDistinct(clock: nat -> string, i: nat, j: nat)
    requires i != j && IsStamp(clock(i)) && IsStamp(clock(j))
    ensures AdminId(clock(i), i) != AdminId(clock(j), j)
  {
    FromNatInjective(i, j);
    if AdminId(clock(i), i) == AdminId(clock(j), j) {
      PrefixCancel("ADMIN-BK" + clock(i) + "-", "ADMIN-BK" + clock(j) + "-", FromNat(i), FromNat(j));
    }
  }

  /** A regular identifier never equals a batch identifier. */
  lemma RegularIdsAreNotBatchIds(ts: string, ts': string, i: nat)
    ensures RegularId(ts) != AdminId(ts', i)
  {
    assert RegularId(ts)[0] == 'B';
    assert AdminId(ts', i)[0] == 'A';
  }

  /** Two regular bookings in the same second get the same identifier. */
  lemma RegularIdsCollide(st: State, rq: BookingRequest, rq': BookingRequest, ts: string)
    requires Book(st, rq, ts).reply.Booked?
    requires Book(Book(st, rq, ts).state, rq', ts).reply.Booked?
    ensures Book(st, rq, ts).reply.quote.bookingId == Book(Book(st, rq, ts).state, rq', ts).reply.quote.bookingId
  {
  }

  // ---------------------------------------------------------------------
  // Sessions and credentials.

  /** With unique usernames, a user's own credentials log in as that user. */
  lemma LoginFindsUser(st: State, u: User)
    requires UniqueUsernames(st.users) && u in st.users
    ensures Login(st, u.username, u.password).reply == LoggedIn(IdentityOf(u))
    ensures Login(st, u.username, u.password).state.session == Some(IdentityOf(u))
  {
    var r := FindUser(st.users, u.username, u.password);
    var i :| 0 <= i < |st.users| && st.users[i] == r.value;
    var j :| 0 <= j < |st.users| && st.users[j] == u;
    assert st.users[i].username == st.users[j].username;
    assert i == j;
  }

  /** In a fresh store the administrator logs in with its seeded password
      and a wrong password is refused. */
  lemma SeededAdminLogin()
    ensures Login(Fresh(), "admin", "@dM!N").reply == LoggedIn(Identity(2, "admin", true))
    ensures Login(Fresh(), "admin", "wrong").reply == Failed(InvalidCredentials)
  {
    FreshStore();
    LoginFindsUser(Fresh(), SeedUsers()[1]);
    var us := SeedUsers();
    assert forall u :: u in us ==> u.username != "admin" || u == us[1];
    assert us[1].password != "wrong";
  }

  /** After a logout every booking request is refused as not logged in. */
  lemma LogoutThenBookFails(st: State, req: Request, clock: nat -> string)
    ensures HandleBook(Logout(st).state, req, clock) == Step(Logout(st).state, Failed(NotLoggedIn))
  {
  }
}
