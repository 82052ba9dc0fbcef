/** The state of the booking application: the three tables of its store
    (seat inventory, bookings, users) and the session of the client whose
    requests are being handled, plus the replies a handler can give. */
module Cinema {
  import opened Wrappers

  /** A showing: the (cinema_name, movie_name, show_time) triple that
      identifies one row of the seat inventory. */
  datatype Key = Key(cinema: string, movie: string, time: string)

  /** One row of the seat inventory, without its key. */
  datatype SeatBlock = SeatBlock(id: int, total: int, booked: int) {
    function Remaining(): int {
      total - booked
    }
  }

  type Inventory = map<Key, SeatBlock>

  /** One row of the bookings table. The auto-increment row id is the
      position in the table; the booking_time column is not modelled. */
  datatype Booking = Booking(
    bookingId: string,
    userId: int,
    key: Key,
    attendees: int,
    totalPrice: int,
    discount: real,
    finalPrice: real,
    isAdmin: bool)

  /** One row of the users table; passwords are stored as plain text. */
  datatype User = User(id: int, username: string, password: string, isAdmin: bool)

  /** What a successful login stores in the session. */
  datatype Identity = Identity(userId: int, username: string, isAdmin: bool)

  datatype State = State(
    inventory: Inventory,
    bookings: seq<Booking>,
    users: seq<User>,
    session: Option<Identity>)

  datatype Error =
    | NotLoggedIn
    | InvalidKey
    | NotEnoughSeats
    | NotAuthorized
    | InvalidCredentials
    | InvalidRequestFormat

  /** The message text the handler puts in its failure payload; the text
      identifies the failure, as MessageError reads it back. */
  function Message(e: Error): (m: string)
    ensures MessageError(m) == Some(e)
  {
    match e
    case NotLoggedIn => "Not logged in"
    case InvalidKey => "Invalid cinema, movie or time"
    case NotEnoughSeats => "Not enough seats available"
    case NotAuthorized => "Not authorized"
    case InvalidCredentials => "Invalid credentials"
    case InvalidRequestFormat => "Invalid request format"
  }

  /** The failure a client reads from a message text, if any. */
  function MessageError(m: string): Option<Error> {
    if m == "Not logged in" then Some(NotLoggedIn)
    else if m == "Invalid cinema, movie or time" then Some(InvalidKey)
    else if m == "Not enough seats available" then Some(NotEnoughSeats)
    else if m == "Not authorized" then Some(NotAuthorized)
    else if m == "Invalid credentials" then Some(InvalidCredentials)
    else if m == "Invalid request format" then Some(InvalidRequestFormat)
    else None
  }

  /** The priced breakdown returned for each booking made. */
  datatype Quote = Quote(
    bookingId: string,
    key: Key,
    attendees: int,
    totalPrice: int,
    discount: real,
    finalPrice: real)

  datatype Reply =
    | Failed(error: Error)
    | LoggedIn(identity: Identity)
    | LoggedOut
    | Booked(quote: Quote)
    | BatchBooked(quotes: seq<Quote>)

  /** The state after a request together with the reply sent for it. */
  datatype Step = Step(state: State, reply: Reply)

  /** The payload reported for a booking row. */
  function QuoteOf(b: Booking): Quote {
    Quote(b.bookingId, b.key, b.attendees, b.totalPrice, b.discount, b.finalPrice)
  }

  /** Every block holds no more bookings than seats. */
  predicate WithinCapacity(inv: Inventory) {
    forall k :: k in inv ==> inv[k].booked <= inv[k].total
  }

  /** inv' has the keys of inv and agrees with it everywhere except at k. */
  predicate SameExcept(inv: Inventory, inv': Inventory, k: Key) {
    && inv'.Keys == inv.Keys
    && forall k' :: k' in inv && k' != k ==> inv'[k'] == inv[k']
  }

  /** Seats taken at k according to the bookings table: the attendees of
      every non-admin booking for k. */
  function BookedOn(bs: seq<Booking>, k: Key): int {
    if |bs| == 0 then 0
    else
      var last := bs[|bs| - 1];
      BookedOn(bs[..|bs| - 1], k) + (if last.key == k && !last.isAdmin then last.attendees else 0)
  }

  /** The seat counts agree with the bookings table. */
  predicate LedgerAgrees(st: State) {
    forall k :: k in st.inventory ==> st.inventory[k].booked == BookedOn(st.bookings, k)
  }

  /** Appending one booking adds its attendees to its own key only, and only
      when it is not an admin booking. */
  lemma BookedOnAppend(bs: seq<Booking>, b: Booking, k: Key)
    ensures BookedOn(bs + [b], k)
            == BookedOn(bs, k) + (if b.key == k && !b.isAdmin then b.attendees else 0)
  {
    assert (bs + [b])[..|bs|] == bs;
  }

  /** Admin bookings never count towards the seats taken. */
  lemma {:induction false} BookedOnAppendAdmin(bs: seq<Booking>, extra: seq<Booking>, k: Key)
    requires forall i :: 0 <= i < |extra| ==> extra[i].isAdmin
    ensures BookedOn(bs + extra, k) == BookedOn(bs, k)
    decreases |extra|
  {
    if |extra| > 0 {
      var front := extra[..|extra| - 1];
      assert (bs + extra)[..|bs + extra| - 1] == bs + front;
      BookedOnAppendAdmin(bs, front, k);
    } else {
      assert bs + extra == bs;
    }
  }
}
