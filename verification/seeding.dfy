/** Database initialisation: the seat inventory for every showing of the
    fixed cinema, movie and show-time lists, and the five built-in users.
    Each table is seeded only when it is empty. */
module Seeding {
  import opened Wrappers
  import opened Cinema

  const Cinemas: seq<string> := ["Sathiyam", "INOX", "Luxe", "PVR"]
  const Movies: seq<string> := ["Thunderbolts", "Retro", "Tourist Family", "Amore"]
  const ShowTimes: seq<string> := ["12:00 PM", "10:00 PM"]

  /** Seats of every freshly seeded block. */
  const SeatsPerShowing: int := 500

  /** Number of seeded blocks: one per cinema, movie and show time. */
  const ShowingCount: nat := 32

  /** A seat-inventory row as the seeding loops insert it. */
  datatype SeatRow = SeatRow(id: int, key: Key)

  predicate Distinct<T(==)>(xs: seq<T>) {
    forall i, j :: 0 <= i < j < |xs| ==> xs[i] != xs[j]
  }

  /** k names one of the seeded cinemas, movies and show times. */
  predicate SeededShowing(k: Key) {
    k.cinema in Cinemas && k.movie in Movies && k.time in ShowTimes
  }

  predicate DistinctKeys(rows: seq<SeatRow>) {
    forall i, j :: 0 <= i < j < |rows| ==> rows[i].key != rows[j].key
  }

  /** The row inserted at the n-th iteration (0-based) of the nested loops
      over cinemas, then movies, then show times. */
  function SeedRow(n: nat): SeatRow
    requires n < ShowingCount
  {
    SeatRow(n + 1, Key(Cinemas[n / 8], Movies[n / 2 % 4], ShowTimes[n % 2]))
  }

  function SeedRows(): seq<SeatRow> {
    seq(ShowingCount, n requires 0 <= n < ShowingCount => SeedRow(n))
  }

  /** Iteration (c, m, t) of the nested loops is iteration 8c + 2m + t. */
  lemma LoopPosition(c: nat, m: nat, t: nat)
    requires c < 4 && m < 4 && t < 2
    ensures (8 * c + 2 * m + t) / 8 == c
    ensures (8 * c + 2 * m + t) / 2 % 4 == m
    ensures (8 * c + 2 * m + t) % 2 == t
  {
  }

  /** The nested seeding loops insert exactly the rows of SeedRows, in order,
      with ids counting up from 1. */
  method SeedSeats() returns (rows: seq<SeatRow>)
    ensures rows == SeedRows()
  {
    rows := [];
    var seatId := 1;
    var c := 0;
    while c < |Cinemas|
      invariant 0 <= c <= |Cinemas|
      invariant seatId == 8 * c + 1
      invariant rows == SeedRows()[..8 * c]
    {
      var m := 0;
      while m < |Movies|
        invariant 0 <= m <= |Movies|
        invariant seatId == 8 * c + 2 * m + 1
        invariant rows == SeedRows()[..8 * c + 2 * m]
      {
        var t := 0;
        while t < |ShowTimes|
          invariant 0 <= t <= |ShowTimes|
          invariant seatId == 8 * c + 2 * m + t + 1
          invariant rows == SeedRows()[..8 * c + 2 * m + t]
        {
          LoopPosition(c, m, t);
          var n := 8 * c + 2 * m + t;
          assert SeedRows()[..n + 1] == SeedRows()[..n] + [SeedRow(n)];
          rows := rows + [SeatRow(seatId, Key(Cinemas[c], Movies[m], ShowTimes[t]))];
          seatId := seatId + 1;
          t := t + 1;
        }
        m := m + 1;
      }
      c := c + 1;
    }
  }

  lemma SeedListsDistinct()
    ensures Distinct(Cinemas) && Distinct(Movies) && Distinct(ShowTimes)
  {
    assert Cinemas[0][0] == 'S' && Cinemas[1][0] == 'I' && Cinemas[2][0] == 'L' && Cinemas[3][0] == 'P';
    assert Movies[0][0] == 'T' && Movies[1][0] == 'R' && Movies[2][0] == 'T' && Movies[3][0] == 'A';
    assert |Movies[0]| != |Movies[2]|;
    assert ShowTimes[0][1] == '2' && ShowTimes[1][1] == '0';
  }

  /** No two seeded rows share a showing. */
  lemma SeedRowsDistinct()
    ensures DistinctKeys(SeedRows())
  {
    SeedListsDistinct();
    var rows := SeedRows();
    forall i, j | 0 <= i < j < |rows|
      ensures rows[i].key != rows[j].key
    {
      assert i == 8 * (i / 8) + 2 * (i / 2 % 4) + i % 2;
      assert j == 8 * (j / 8) + 2 * (j / 2 % 4) + j % 2;
    }
  }

  /** The inventory holding one fresh block per row. */
  function Tabulate(rows: seq<SeatRow>): Inventory {
    if |rows| == 0 then map[]
    else
      var last := rows[|rows| - 1];
      Tabulate(rows[..|rows| - 1])[last.key := SeatBlock(last.id, SeatsPerShowing, 0)]
  }

  /** With no showing repeated, tabulating keeps one block per row, holding
      that row's id, and invents no other key. */
  lemma {:induction false} TabulateFacts(rows: seq<SeatRow>)
    requires DistinctKeys(rows)
    ensures |Tabulate(rows)| == |rows|
    ensures forall i :: 0 <= i < |rows| ==>
              rows[i].key in Tabulate(rows) && Tabulate(rows)[rows[i].key] == SeatBlock(rows[i].id, SeatsPerShowing, 0)
    ensures forall k :: k in Tabulate(rows) ==> exists i :: 0 <= i < |rows| && rows[i].key == k
  {
    if |rows| > 0 {
      var n := |rows| - 1;
      var front := rows[..n];
      var last := rows[n];
      assert DistinctKeys(front);
      TabulateFacts(front);
      var m := Tabulate(front);
      forall i | 0 <= i < |front|
        ensures front[i].key != last.key
      {
        assert front[i] == rows[i];
      }
      assert last.key !in m;
      assert Tabulate(rows) == m[last.key := SeatBlock(last.id, SeatsPerShowing, 0)];
      forall i | 0 <= i < |rows|
        ensures rows[i].key in Tabulate(rows) && Tabulate(rows)[rows[i].key] == SeatBlock(rows[i].id, SeatsPerShowing, 0)
      {
        if i < n {
          assert rows[i] == front[i];
          assert rows[i].key != last.key;
        }
      }
      forall k | k in Tabulate(rows)
        ensures exists i :: 0 <= i < |rows| && rows[i].key == k
      {
        if k != last.key {
          var i :| 0 <= i < |front| && front[i].key == k;
          assert rows[i].key == k;
        } else {
          assert rows[n].key == k;
        }
      }
    }
  }

  /** Some block of inv has the given id. */
  predicate HasId(inv: Inventory, id: int) {
    exists k :: k in inv && inv[k].id == id
  }

  /** The seeded seat inventory: 32 blocks, one for each combination of the
      seed lists, ids 1 to 32 with no id repeated, all 500 seats free. */
  function SeedInventory(): (inv: Inventory)
    ensures |inv| == ShowingCount
    ensures forall k :: k in inv <==> SeededShowing(k)
    ensures forall k :: k in inv ==>
              1 <= inv[k].id <= ShowingCount && inv[k].total == SeatsPerShowing && inv[k].booked == 0
    ensures forall k, k' :: k in inv && k' in inv && k != k' ==> inv[k].id != inv[k'].id
    ensures forall n :: 1 <= n <= ShowingCount ==> HasId(inv, n)
  {
    SeedRowsDistinct();
    TabulateFacts(SeedRows());
    SeedInventoryFacts();
    Tabulate(SeedRows())
  }

  lemma SeedInventoryFacts()
    requires DistinctKeys(SeedRows())
    ensures forall k :: k in Tabulate(SeedRows()) <==> SeededShowing(k)
    ensures forall n :: 1 <= n <= ShowingCount ==> HasId(Tabulate(SeedRows()), n)
    ensures forall k, k' :: k in Tabulate(SeedRows()) && k' in Tabulate(SeedRows()) && k != k' ==>
              Tabulate(SeedRows())[k].id != Tabulate(SeedRows())[k'].id
  {
    var rows := SeedRows();
    TabulateFacts(rows);
    var inv := Tabulate(rows);
    forall k: Key | SeededShowing(k)
      ensures k in inv
    {
      var c :| 0 <= c < 4 && Cinemas[c] == k.cinema;
      var m :| 0 <= m < 4 && Movies[m] == k.movie;
      var t :| 0 <= t < 2 && ShowTimes[t] == k.time;
      LoopPosition(c, m, t);
      assert rows[8 * c + 2 * m + t].key == k;
    }
    forall k | k in inv
      ensures SeededShowing(k)
    {
      var i :| 0 <= i < |rows| && rows[i].key == k;
      assert rows[i] == SeedRow(i);
    }
    forall n | 1 <= n <= ShowingCount
      ensures HasId(inv, n)
    {
      assert rows[n - 1].key in inv && inv[rows[n - 1].key].id == n;
    }
    forall k, k' | k in inv && k' in inv && k != k'
      ensures inv[k].id != inv[k'].id
    {
      var i :| 0 <= i < |rows| && rows[i].key == k;
      var j :| 0 <= j < |rows| && rows[j].key == k';
      assert inv[k].id == i + 1 && inv[k'].id == j + 1;
    }
  }

  predicate UniqueUsernames(users: seq<User>) {
    forall i, j :: 0 <= i < j < |users| ==> users[i].username != users[j].username
  }

  /** The seeded users table: five users with ids 1 to 5 in order and
      distinct usernames; "admin" (id 2, password "@dM!N") is the only
      administrator. */
  function SeedUsers(): (us: seq<User>)
    ensures |us| == 5 && UniqueUsernames(us)
    ensures forall i :: 0 <= i < |us| ==> us[i].id == i + 1
    ensures forall u :: u in us ==> (u.isAdmin <==> u.username == "admin")
    ensures User(2, "admin", "@dM!N", true) in us
  {
    var us := [ User(1, "user1", "password123", false),
                User(2, "admin", "@dM!N", true),
                User(3, "user2", "Pass22", false),
                User(4, "user3", "Pass33", false),
                User(5, "user4", "Pass44", false) ];
    assert us[0].username[4] == '1' && us[2].username[4] == '2';
    assert us[3].username[4] == '3' && us[4].username[4] == '4';
    assert us[1].username[0] == 'a' && us[0].username[0] == 'u';
    us
  }

  /** Start-up initialisation of the store: each of the seat inventory and
      the users table is seeded only when it is empty; bookings and the
      session are left alone. */
  function InitDb(st: State): (r: State)
    ensures r.bookings == st.bookings && r.session == st.session
    ensures |r.inventory| > 0 && |r.users| > 0
    ensures |st.inventory| == 0 ==> r.inventory == SeedInventory()
    ensures |st.inventory| > 0 ==> r.inventory == st.inventory
    ensures |st.users| == 0 ==> r.users == SeedUsers()
    ensures |st.users| > 0 ==> r.users == st.users
  {
    st.(inventory := if |st.inventory| == 0 then SeedInventory() else st.inventory,
        users := if |st.users| == 0 then SeedUsers() else st.users)
  }

  /** A store initialised from nothing, with no client logged in. */
  function Fresh(): State {
    InitDb(State(map[], [], [], None))
  }

  /** Initialising twice is the same as initialising once. */
  lemma InitDbIdempotent(st: State)
    ensures InitDb(InitDb(st)) == InitDb(st)
  {
  }

  /** A fresh store holds the seeded inventory and users, no bookings, and
      its seat counts agree with its (empty) bookings table. */
  lemma FreshStore()
    ensures Fresh().inventory == SeedInventory() && Fresh().users == SeedUsers()
    ensures Fresh().bookings == [] && Fresh().session == None
    ensures |Fresh().inventory| == ShowingCount
    ensures WithinCapacity(Fresh().inventory)
    ensures LedgerAgrees(Fresh())
  {
  }
}
