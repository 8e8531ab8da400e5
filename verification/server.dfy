/** The server as a whole: every request the routes accept and the midnight
    job, applied one at a time to the user store. */
module Server {
  import opened UserModel
  import ResetUserData
  import UserRoutes
  import AdminRoutes
  import UserController

  datatype Request =
    | Register(req: UserController.RegisterRequest)
    | Scan(fullname: string, now: Instant)
    | Verify(fullname: string)
    | Reject(fullname: string, rejectMessage: Option<string>)
    | MidnightReset

  /** The store after one request.  Login and analytics only read. */
  function Handle(users: seq<User>, r: Request, hash: string -> string): (users': seq<User>)
  {
    match r
    case Register(req) => UserController.RegisterStep(users, req, hash).1
    case Scan(fullname, now) => UserRoutes.ScanStep(users, fullname, now).1
    case Verify(fullname) => AdminRoutes.VerifyStep(users, fullname).1
    case Reject(fullname, message) => AdminRoutes.RejectStep(users, fullname, message).1
    case MidnightReset => ResetUserData.Swept(users)
  }

  function HandleAll(users: seq<User>, rs: seq<Request>, hash: string -> string): (users': seq<User>)
    decreases |rs|
  {
    if rs == [] then users else HandleAll(Handle(users, rs[0], hash), rs[1..], hash)
  }

  /** What holds of every store the server builds from an empty one:
      emails are unique, nobody is paid, and no scan count is negative. */
  predicate Consistent(users: seq<User>)
  {
    && UserController.EmailsUnique(users)
    && forall i :: 0 <= i < |users| ==> !users[i].paid && users[i].scanCount >= 0
  }

  /** Every request keeps the store consistent. */
  lemma HandleKeepsConsistent(users: seq<User>, r: Request, hash: string -> string)
    requires Consistent(users)
    ensures Consistent(Handle(users, r, hash))
  {
    var users' := Handle(users, r, hash);
    match r
    case Register(req) =>
    case Scan(fullname, now) =>
    case Verify(fullname) =>
      forall i | 0 <= i < |users| ensures users'[i].email == users[i].email && users'[i].paid == users[i].paid
        && users'[i].scanCount == users[i].scanCount
      {
        if users' != users && i == FirstMatch(users, Fullname, fullname).value {
          assert users'[i].(isVerified := users[i].isVerified) == users[i];
        }
      }
    case Reject(fullname, message) =>
      forall i | 0 <= i < |users| ensures users'[i].email == users[i].email && users'[i].paid == users[i].paid
        && users'[i].scanCount == users[i].scanCount
      {
        if users' != users && i == FirstMatch(users, Fullname, fullname).value {
          assert users'[i].(isVerified := users[i].isVerified, rejectMessage := users[i].rejectMessage) == users[i];
        }
      }
    case MidnightReset =>
      ResetUserData.SweptWithoutPaidIsIdentity(users);
  }

  /** Any sequence of requests on an empty store leaves it consistent, so
      the midnight job never finds a paid user to count down: no request of
      the server sets `paid`. */
  lemma {:induction false} ServedStoresStayConsistent(users: seq<User>, rs: seq<Request>, hash: string -> string)
    requires Consistent(users)
    ensures Consistent(HandleAll(users, rs, hash))
    ensures ResetUserData.Swept(HandleAll(users, rs, hash)) == HandleAll(users, rs, hash)
    decreases |rs|
  {
    if rs != [] {
      HandleKeepsConsistent(users, rs[0], hash);
      ServedStoresStayConsistent(Handle(users, rs[0], hash), rs[1..], hash);
    } else {
      ResetUserData.SweptWithoutPaidIsIdentity(users);
    }
  }
}
