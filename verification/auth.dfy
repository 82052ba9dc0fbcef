/** Login and logout: matching credentials against the users table and
    setting or clearing the session. */
module Auth {
  import opened Wrappers
  import opened Cinema

  predicate Matches(u: User, username: string, password: string) {
    u.username == username && u.password == password
  }

  /** The first user, in table order, whose username and password both equal
      the given ones exactly; None when there is none. */
  function FindUser(users: seq<User>, username: string, password: string): (r: Option<User>)
    ensures r.None? <==> forall u :: u in users ==> !Matches(u, username, password)
    ensures r.Some? ==>
              exists i :: 0 <= i < |users| && users[i] == r.value && Matches(users[i], username, password)
                          && forall j :: 0 <= j < i ==> !Matches(users[j], username, password)
  {
    if |users| == 0 then None
    else if Matches(users[0], username, password) then Some(users[0])
    else
      var r := FindUser(users[1..], username, password);
      assert forall u :: u in users ==> u == users[0] || u in users[1..];
      if r.Some? then
        ghost var i :| 0 <= i < |users[1..]| && users[1..][i] == r.value && Matches(users[1..][i], username, password)
                       && forall j :: 0 <= j < i ==> !Matches(users[1..][j], username, password);
        assert users[i + 1] == r.value;
        assert forall j :: 1 <= j < i + 1 ==> users[j] == users[1..][j - 1];
        r
      else r
  }

  /** The identity a login records for a user. */
  function IdentityOf(u: User): Identity {
    Identity(u.id, u.username, u.isAdmin)
  }

  /** Login: on a match the session becomes that user's identity; otherwise
      the reply is 'Invalid credentials' and nothing changes, not even an
      existing session. The store is never written. */
  function Login(st: State, username: string, password: string): (r: Step)
    ensures r.reply.LoggedIn? <==> exists u :: u in st.users && Matches(u, username, password)
    ensures r.reply.LoggedIn? ==>
              && r.state == st.(session := Some(r.reply.identity))
              && exists u :: u in st.users && Matches(u, username, password) && r.reply.identity == IdentityOf(u)
    ensures !r.reply.LoggedIn? ==> r == Step(st, Failed(InvalidCredentials))
  {
    match FindUser(st.users, username, password)
    case Some(u) => Step(st.(session := Some(IdentityOf(u))), LoggedIn(IdentityOf(u)))
    case None => Step(st, Failed(InvalidCredentials))
  }

  /** Logout always succeeds, empties the session and leaves the store alone. */
  function Logout(st: State): (r: Step)
    ensures r.state.session == None && r.reply == LoggedOut
    ensures r.state.inventory == st.inventory && r.state.bookings == st.bookings && r.state.users == st.users
  {
    Step(st.(session := None), LoggedOut)
  }
}
