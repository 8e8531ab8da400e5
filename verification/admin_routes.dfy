/** The admin requests: verifying or rejecting a user by name, and counting
    users per route. */
module AdminRoutes {
  import opened UserModel

  datatype AdminResult =
    | FullnameRequired
    | UserNotFound
    | UserVerified(user: User)
    | UserRejected

  /** `VerifiedByAdmin`: marks the first user with the given name as
      verified and answers with the saved record. */
  function VerifyStep(users: seq<User>, fullname: string): (out: (AdminResult, seq<User>))
    ensures |out.1| == |users|
    ensures out.0 == FullnameRequired <==> fullname == ""
    ensures out.0.UserNotFound? <==> fullname != "" && forall j :: 0 <= j < |users| ==> users[j].fullname != fullname
    ensures out.0.UserVerified? <==> fullname != "" && FirstMatch(users, Fullname, fullname).Some?
    ensures !out.0.UserVerified? ==> out.1 == users
    ensures out.0.UserVerified? ==>
              FirstMatch(users, Fullname, fullname).Some? &&
              var i := FirstMatch(users, Fullname, fullname).value;
              && out.1[i].isVerified == Some(true)
              && out.1[i].(isVerified := users[i].isVerified) == users[i]
              && out.0.user == out.1[i]
              && out.1 == users[i := out.1[i]]
  {
    if fullname == "" then (FullnameRequired, users)
    else
      match FirstMatch(users, Fullname, fullname)
      case None => (UserNotFound, users)
      case Some(i) =>
        var u := users[i].(isVerified := Some(true));
        (UserVerified(u), users[i := u])
  }

  /** The `/reject` request: marks the first user with the given name as
      not verified and stores the message.  The request's name is not
      checked for presence; an absent name is looked up as the empty one. */
  function RejectStep(users: seq<User>, fullname: string, rejectMessage: Option<string>): (out: (AdminResult, seq<User>))
    ensures |out.1| == |users|
    ensures out.0.UserNotFound? || out.0.UserRejected?
    ensures out.0.UserNotFound? <==> forall j :: 0 <= j < |users| ==> users[j].fullname != fullname
    ensures out.0.UserNotFound? ==> out.1 == users
    ensures out.0.UserRejected? ==>
              FirstMatch(users, Fullname, fullname).Some? &&
              var i := FirstMatch(users, Fullname, fullname).value;
              && out.1[i].isVerified == Some(false)
              && out.1[i].rejectMessage == rejectMessage
              && out.1[i].(isVerified := users[i].isVerified, rejectMessage := users[i].rejectMessage) == users[i]
              && out.1 == users[i := out.1[i]]
  {
    match FirstMatch(users, Fullname, fullname)
    case None => (UserNotFound, users)
    case Some(i) =>
      var u := users[i].(isVerified := Some(false), rejectMessage := rejectMessage);
      (UserRejected, users[i := u])
  }

  method VerifiedByAdmin(store: UserStore, fullname: string) returns (res: AdminResult)
    modifies store
    ensures (res, store.users) == VerifyStep(old(store.users), fullname)
  {
    if fullname == "" {
      return FullnameRequired;
    }
    var found := FirstMatch(store.users, Fullname, fullname);
    if found.None? {
      return UserNotFound;
    }
    var user := store.users[found.value];
    user := user.(isVerified := Some(true));
    store.users := store.users[found.value := user];
    res := UserVerified(user);
  }

  method Reject(store: UserStore, fullname: string, rejectMessage: Option<string>) returns (res: AdminResult)
    modifies store
    ensures (res, store.users) == RejectStep(old(store.users), fullname, rejectMessage)
  {
    var found := FirstMatch(store.users, Fullname, fullname);
    if found.None? {
      return UserNotFound;
    }
    var user := store.users[found.value];
    user := user.(isVerified := Some(false));
    user := user.(rejectMessage := rejectMessage);
    store.users := store.users[found.value := user];
    res := UserRejected;
  }

  /** Verifying a user twice leaves the same store as verifying once. */
  lemma VerifyIsIdempotent(users: seq<User>, fullname: string)
    ensures VerifyStep(VerifyStep(users, fullname).1, fullname).1 == VerifyStep(users, fullname).1
  {
    var once := VerifyStep(users, fullname).1;
    FirstMatchKeepsKeys(users, once, Fullname, fullname);
  }

  /** Verifying a previously rejected user keeps the old rejection message:
      the verify request clears nothing but sets the flag. */
  lemma VerifyAfterRejectKeepsMessage(users: seq<User>, fullname: string, message: string)
    requires fullname != "" && exists j :: 0 <= j < |users| && users[j].fullname == fullname
    ensures var rejected := RejectStep(users, fullname, Some(message)).1;
            var verified := VerifyStep(rejected, fullname).1;
            var i := FirstMatch(users, Fullname, fullname).value;
            verified[i].isVerified == Some(true) && verified[i].rejectMessage == Some(message)
  {
    var rejected := RejectStep(users, fullname, Some(message)).1;
    FirstMatchKeepsKeys(users, rejected, Fullname, fullname);
  }

  /** How many users have route `r`. */
  function CountRoute(users: seq<User>, r: string): (n: nat)
  {
    if users == [] then 0
    else CountRoute(users[..|users| - 1], r) + (if users[|users| - 1].route == r then 1 else 0)
  }

  /** How many users have a non-empty route. */
  function CountRouted(users: seq<User>): (n: nat)
  {
    if users == [] then 0
    else CountRouted(users[..|users| - 1]) + (if users[|users| - 1].route != "" then 1 else 0)
  }

  /** A route occurs nowhere exactly when no user is counted for it. */
  lemma {:induction false} CountRouteZero(users: seq<User>, r: string)
    ensures CountRoute(users, r) == 0 <==> forall j :: 0 <= j < |users| ==> users[j].route != r
  {
    if users != [] {
      var prefix := users[..|users| - 1];
      CountRouteZero(prefix, r);
      assert forall j :: 0 <= j < |prefix| ==> prefix[j] == users[j];
    }
  }

  ghost function AnyKey(m: map<string, nat>): (k: string)
    requires m != map[]
    ensures k in m
  {
    var k :| k in m; k
  }

  /** The sum of the values of a map. */
  ghost function SumValues(m: map<string, nat>): (sum: nat)
    decreases |m|
  {
    if m == map[] then 0
    else
      var k := AnyKey(m);
      assert |m - {k}| < |m| by { assert m.Keys - {k} < m.Keys; }
      m[k] + SumValues(m - {k})
  }

  /** The sum can be split at any key. */
  lemma {:induction false} SumValuesRemove(m: map<string, nat>, k: string)
    requires k in m
    ensures SumValues(m) == m[k] + SumValues(m - {k})
    decreases |m|
  {
    var j := AnyKey(m);
    if j != k {
      var mj := m - {j};
      var mk := m - {k};
      assert |mj| < |m| by { assert mj.Keys < m.Keys; }
      assert |mk| < |m| by { assert mk.Keys < m.Keys; }
      SumValuesRemove(mj, k);
      SumValuesRemove(mk, j);
      assert mj - {k} == mk - {j};
    }
  }

  /** Setting one key changes the sum by the difference of its values. */
  lemma SumValuesUpdate(m: map<string, nat>, k: string, v: nat)
    ensures SumValues(m[k := v]) == SumValues(m) - (if k in m then m[k] else 0) + v
  {
    var m' := m[k := v];
    SumValuesRemove(m', k);
    if k in m {
      SumValuesRemove(m, k);
      assert m' - {k} == m - {k};
    } else {
      assert m' - {k} == m;
    }
  }

  /** `routeCounts` and `total` are the tallies of the users in `seen`. */
  ghost predicate Tallied(seen: seq<User>, routeCounts: map<string, nat>, total: nat)
  {
    && total == CountRouted(seen)
    && (forall r :: r in routeCounts <==> r != "" && CountRoute(seen, r) > 0)
    && (forall r :: r in routeCounts ==> routeCounts[r] == CountRoute(seen, r))
    && SumValues(routeCounts) == total
  }

  /** Tallying one more user the way the loop body does keeps the tallies
      right. */
  lemma TallyOne(seen: seq<User>, u: User, routeCounts: map<string, nat>, total: nat)
    requires Tallied(seen, routeCounts, total)
    ensures u.route == "" ==> Tallied(seen + [u], routeCounts, total)
    ensures u.route != "" ==>
              Tallied(seen + [u],
                      routeCounts[u.route := (if u.route in routeCounts then routeCounts[u.route] else 0) + 1],
                      total + 1)
  {
    var seen' := seen + [u];
    assert seen'[..|seen'| - 1] == seen;
    if u.route != "" {
      var before := if u.route in routeCounts then routeCounts[u.route] else 0;
      SumValuesUpdate(routeCounts, u.route, before + 1);
    }
  }

  /** Once every user is tallied, the keys are exactly the non-empty routes
      some user has. */
  lemma TalliedKeys(users: seq<User>, routeCounts: map<string, nat>, total: nat)
    requires Tallied(users, routeCounts, total)
    ensures forall r :: r in routeCounts <==> r != "" && exists j :: 0 <= j < |users| && users[j].route == r
  {
    forall r | r != ""
      ensures CountRoute(users, r) > 0 <==> exists j :: 0 <= j < |users| && users[j].route == r
    {
      CountRouteZero(users, r);
    }
  }

  /** The `/analytics` request over the users `User.find({})` returns: counts
      the users of every non-empty route and all of them together. */
  method Analytics(users: seq<User>) returns (routeCounts: map<string, nat>, total: nat)
    ensures total == CountRouted(users)
    ensures forall r :: r in routeCounts <==> r != "" && exists j :: 0 <= j < |users| && users[j].route == r
    ensures forall r :: r in routeCounts ==> routeCounts[r] == CountRoute(users, r)
    ensures SumValues(routeCounts) == total
  {
    routeCounts := map[];
    total := 0;
    var i := 0;
    while i < |users|
      invariant 0 <= i <= |users|
      invariant Tallied(users[..i], routeCounts, total)
    {
      var route := users[i].route;
      TallyOne(users[..i], users[i], routeCounts, total);
      assert users[..i + 1] == users[..i] + [users[i]];
      if route != "" {
        routeCounts := routeCounts[route := (if route in routeCounts then routeCounts[route] else 0) + 1];
        total := total + 1;
      }
      i := i + 1;
    }
    assert users[..i] == users;
    TalliedKeys(users, routeCounts, total);
  }
}
