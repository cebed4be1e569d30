/** The role and identity checks that run after `verifyJWT`: the `verifyAdmin`
    middleware, the email guard of GET /bookings and the `isAdmin` report of
    GET /users/admin/:email.  The users and bookings collections are
    sequences in their natural (insertion) order. */
module Authorization {
  import opened Records
  import TokenGate

  const AdminRole := "admin"

  /** `i` is the position of the first user whose email is `email`. */
  ghost predicate FirstWithEmail(users: seq<User>, email: string, i: int) {
    0 <= i < |users| && users[i].email == email &&
    forall j :: 0 <= j < i ==> users[j].email != email
  }

  /** `users.findOne({ email })`: the first matching user, `None` for `null`. */
  function FindUser(users: seq<User>, email: string): (r: Option<User>)
    ensures r.None? <==> forall j :: 0 <= j < |users| ==> users[j].email != email
    ensures r.Some? ==> exists i :: FirstWithEmail(users, email, i) && users[i] == r.value
  {
    if |users| == 0 then None
    else if users[0].email == email then
      assert FirstWithEmail(users, email, 0);
      Some(users[0])
    else
      var r := FindUser(users[1..], email);
      assert r.Some? ==> exists i :: FirstWithEmail(users, email, i) && users[i] == r.value by {
        if r.Some? {
          var i :| FirstWithEmail(users[1..], email, i) && users[1..][i] == r.value;
          assert FirstWithEmail(users, email, i + 1);
        }
      }
      r
  }

  /** `verifyAdmin`: the request proceeds only when the stored user's role is
      exactly "admin", any other role is 403.  When no user has the decoded
      email, `findOne` yields `null` and reading its `role` throws. */
  function VerifyAdmin(users: seq<User>, claims: Claims): (d: Decision<Claims>)
    ensures d.Unhandled? <==> forall j :: 0 <= j < |users| ==> users[j].email != claims.email
    ensures d.Proceed? <==>
              exists i :: FirstWithEmail(users, claims.email, i) && users[i].role == Some(AdminRole)
    ensures d.Proceed? ==> d.value == claims
    ensures d.Reject? ==> d == Reject(Forbidden, ForbiddenMessage)
  {
    match FindUser(users, claims.email)
    case None => Unhandled("TypeError: Cannot read properties of null (reading 'role')")
    case Some(user) =>
      if user.role != Some(AdminRole) then Reject(Forbidden, ForbiddenMessage)
      else Proceed(claims)
  }

  /** `{ isAdmin: user?.role === "admin" }` for the first user with `email`. */
  function IsAdmin(users: seq<User>, email: string): (isAdmin: bool)
    ensures isAdmin <==> exists i :: FirstWithEmail(users, email, i) && users[i].role == Some(AdminRole)
  {
    match FindUser(users, email)
    case None => false
    case Some(user) => user.role == Some(AdminRole)
  }

  /** No two users share an email.  Nothing in the server enforces this:
      POST /users inserts without a check, so lemmas that need it assume it. */
  ghost predicate EmailsUnique(users: seq<User>) {
    forall i, j :: 0 <= i < j < |users| ==> users[i].email != users[j].email
  }

  /** With unique emails, `isAdmin` is true exactly when some user with that
      email has the role "admin". */
  lemma IsAdminWhenEmailsUnique(users: seq<User>, email: string)
    requires EmailsUnique(users)
    ensures IsAdmin(users, email) <==> exists u :: u in users && u.email == email && u.role == Some(AdminRole)
  {
    if u :| u in users && u.email == email && u.role == Some(AdminRole) {
      var k :| 0 <= k < |users| && users[k] == u;
      assert FirstWithEmail(users, email, k);
    }
  }

  /** The admin gate and the `isAdmin` report agree: the gate lets a request
      through exactly when the report would say `true`, and among the
      requests it stops only those of unknown users throw. */
  lemma AdminGateMatchesReport(users: seq<User>, claims: Claims)
    ensures VerifyAdmin(users, claims).Proceed? <==> IsAdmin(users, claims.email)
    ensures !IsAdmin(users, claims.email) ==>
              (VerifyAdmin(users, claims).Unhandled? <==> FindUser(users, claims.email).None?)
  {
  }

  /** The routes guarded by `verifyJWT, verifyAdmin`: the admin check runs only
      on a verified token. */
  function AdminRoute(header: Option<string>, verify: string -> Option<Claims>, users: seq<User>): (d: Decision<Claims>)
    ensures d.Proceed? ==> TokenGate.VerifyJwt(header, verify) == Proceed(d.value) && IsAdmin(users, d.value.email)
    ensures !TokenGate.VerifyJwt(header, verify).Proceed? ==> d == TokenGate.VerifyJwt(header, verify)
    ensures TokenGate.VerifyJwt(header, verify).Proceed? ==>
              d == VerifyAdmin(users, TokenGate.VerifyJwt(header, verify).value)
  {
    match TokenGate.VerifyJwt(header, verify)
    case Proceed(claims) => VerifyAdmin(users, claims)
    case Reject(status, message) => Reject(status, message)
    case Unhandled(reason) => Unhandled(reason)
  }

  /** A requester whose stored role is not "admin" is refused with 403 by the
      admin routes even with a valid token. */
  lemma NonAdminForbidden(header: Option<string>, verify: string -> Option<Claims>, users: seq<User>, i: nat)
    requires TokenGate.VerifyJwt(header, verify).Proceed?
    requires FirstWithEmail(users, TokenGate.VerifyJwt(header, verify).value.email, i)
    requires users[i].role != Some(AdminRole)
    ensures AdminRoute(header, verify, users) == Reject(Forbidden, ForbiddenMessage)
  {
    var email := TokenGate.VerifyJwt(header, verify).value.email;
    forall k | FirstWithEmail(users, email, k) ensures k == i {
      assert !(k < i) && !(i < k);
    }
  }

  /** `bookings.find({ email })`: the bookings of one identity, in order. */
  function BookingsOf(bookings: seq<Booking>, email: string): (r: seq<Booking>)
    ensures forall b :: b in r <==> b in bookings && b.email == email
    ensures forall b :: multiset(r)[b] == if b.email == email then multiset(bookings)[b] else 0
    ensures |r| <= |bookings|
  {
    if |bookings| == 0 then []
    else
      var rest := BookingsOf(bookings[1..], email);
      assert bookings == [bookings[0]] + bookings[1..];
      if bookings[0].email == email then [bookings[0]] + rest else rest
  }

  /** Order: the query distributes over concatenation of the collection, so
      the identity's bookings come back in collection order. */
  lemma {:induction false} BookingsOfConcat(a: seq<Booking>, b: seq<Booking>, email: string)
    ensures BookingsOf(a + b, email) == BookingsOf(a, email) + BookingsOf(b, email)
  {
    if |a| > 0 {
      assert (a + b)[1..] == a[1..] + b;
      BookingsOfConcat(a[1..], b, email);
    } else {
      assert a + b == b;
    }
  }

  /** GET /bookings: the decoded email must equal the `email` query
      parameter (`None` when the parameter is missing), otherwise 403. */
  function ListBookings(bookings: seq<Booking>, claims: Claims, queryEmail: Option<string>): (d: Decision<seq<Booking>>)
    ensures d.Proceed? <==> queryEmail == Some(claims.email)
    ensures !d.Proceed? ==> d == Reject(Forbidden, ForbiddenMessage)
    ensures d.Proceed? ==> d.value == BookingsOf(bookings, claims.email)
    ensures d.Proceed? ==> forall b :: b in d.value <==> b in bookings && b.email == claims.email
    ensures d.Proceed? ==>
              forall b :: multiset(d.value)[b] == (if b.email == claims.email then multiset(bookings)[b] else 0)
  {
    if queryEmail != Some(claims.email) then Reject(Forbidden, ForbiddenMessage)
    else Proceed(BookingsOf(bookings, claims.email))
  }
}
