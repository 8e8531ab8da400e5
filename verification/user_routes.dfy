/** The `/scan` request: spends one of a user's daily scans. */
module UserRoutes {
  import opened UserModel

  datatype ScanResult =
    | FullnameRequired
    | UserNotFound
    | ScanSuccessful(remainingScans: int)
    | ScanLimitReached

  /** The outcome of one scan request and the store it leaves.  The
      request names the user by `fullname` (empty when absent) and `now` is
      the time the handler stamps. */
  function ScanStep(users: seq<User>, fullname: string, now: Instant): (out: (ScanResult, seq<User>))
    ensures |out.1| == |users|
    ensures out.0 == FullnameRequired <==> fullname == ""
    ensures out.0.UserNotFound? <==> fullname != "" && forall j :: 0 <= j < |users| ==> users[j].fullname != fullname
    ensures !out.0.ScanSuccessful? ==> out.1 == users
    ensures out.0.ScanSuccessful? ==>
              FirstMatch(users, Fullname, fullname).Some? &&
              var i := FirstMatch(users, Fullname, fullname).value;
              && users[i].scanCount > 0
              && out.0.remainingScans == out.1[i].scanCount == users[i].scanCount - 1
              && out.1[i].lastScanDate == Some(now)
              && out.1[i].(scanCount := users[i].scanCount, lastScanDate := users[i].lastScanDate) == users[i]
              && out.1 == users[i := out.1[i]]
    ensures out.0 == ScanLimitReached <==>
              fullname != "" && FirstMatch(users, Fullname, fullname).Some?
              && users[FirstMatch(users, Fullname, fullname).value].scanCount <= 0
    ensures out.0.ScanSuccessful? <==>
              fullname != "" && FirstMatch(users, Fullname, fullname).Some?
              && users[FirstMatch(users, Fullname, fullname).value].scanCount > 0
    ensures forall j :: 0 <= j < |users| && users[j].scanCount >= 0 ==> out.1[j].scanCount >= 0
  {
    if fullname == "" then (FullnameRequired, users)
    else
      match FirstMatch(users, Fullname, fullname)
      case None => (UserNotFound, users)
      case Some(i) =>
        if users[i].scanCount > 0 then
          var u := users[i].(scanCount := users[i].scanCount - 1, lastScanDate := Some(now));
          (ScanSuccessful(u.scanCount), users[i := u])
        else (ScanLimitReached, users)
  }

  /** The handler: looks the user up, spends a scan and saves the record in
      place, or refuses. */
  method Scan(store: UserStore, fullname: string, now: Instant) returns (res: ScanResult)
    modifies store
    ensures (res, store.users) == ScanStep(old(store.users), fullname, now)
  {
    if fullname == "" {
      return FullnameRequired;
    }
    var found := FirstMatch(store.users, Fullname, fullname);
    if found.None? {
      return UserNotFound;
    }
    var i := found.value;
    var user := store.users[i];
    if user.scanCount > 0 {
      user := user.(scanCount := user.scanCount - 1);
      user := user.(lastScanDate := Some(now));
      store.users := store.users[i := user];
      return ScanSuccessful(user.scanCount);
    }
    // here `scanCount <= 0`, the handler's last test
    res := ScanLimitReached;
  }

  /** Scan requests for the same name at the times in `nows`, one after
      another: the results in order and the final store. */
  function ScanRepeatedly(users: seq<User>, fullname: string, nows: seq<Instant>): (out: (seq<ScanResult>, seq<User>))
    ensures |out.0| == |nows| && |out.1| == |users|
    decreases |nows|
  {
    if nows == [] then ([], users)
    else
      var step := ScanStep(users, fullname, nows[0]);
      var rest := ScanRepeatedly(step.1, fullname, nows[1..]);
      ([step.0] + rest.0, rest.1)
  }

  /** The results of `n` requests by a user who has `k` scans left. */
  function CountdownResults(k: int, n: nat): (rs: seq<ScanResult>)
    ensures |rs| == n
    decreases n
  {
    if n == 0 then []
    else
      [if k > 0 then ScanSuccessful(k - 1) else ScanLimitReached]
      + CountdownResults(if k > 0 then k - 1 else 0, n - 1)
  }

  lemma {:induction false} CountdownResultsAt(k: int, n: nat, j: nat)
    requires k >= 0 && j < n
    ensures CountdownResults(k, n)[j] == if j < k then ScanSuccessful(k - 1 - j) else ScanLimitReached
    decreases n
  {
    if j > 0 {
      CountdownResultsAt(if k > 0 then k - 1 else 0, n - 1, j - 1);
    }
  }

  /** The lookup by `fullname` finds index `i`, whose record has `k` scans. */
  predicate FoundWith(users: seq<User>, fullname: string, i: nat, k: int)
  {
    fullname != "" && FirstMatch(users, Fullname, fullname) == Some(i) && users[i].scanCount == k
  }

  /** One request by a user found with `k >= 0` scans left succeeds
      exactly when `k > 0`, and the same index is found next time with the
      count one lower, or still zero. */
  lemma ScanOnce(users: seq<User>, fullname: string, now: Instant, i: nat, k: int)
    requires FoundWith(users, fullname, i, k) && k >= 0
    ensures ScanStep(users, fullname, now).0 == if k > 0 then ScanSuccessful(k - 1) else ScanLimitReached
    ensures FoundWith(ScanStep(users, fullname, now).1, fullname, i, if k > 0 then k - 1 else 0)
  {
    FirstMatchKeepsKeys(users, ScanStep(users, fullname, now).1, Fullname, fullname);
  }

  lemma ScanRepeatedlyUnfold(users: seq<User>, fullname: string, nows: seq<Instant>)
    requires nows != []
    ensures ScanRepeatedly(users, fullname, nows).0
              == [ScanStep(users, fullname, nows[0]).0]
                 + ScanRepeatedly(ScanStep(users, fullname, nows[0]).1, fullname, nows[1..]).0
  {
  }

  lemma {:induction false} ScanRepeatedlyCountsDown(users: seq<User>, fullname: string, nows: seq<Instant>, i: nat, k: int)
    requires FoundWith(users, fullname, i, k) && k >= 0
    ensures ScanRepeatedly(users, fullname, nows).0 == CountdownResults(k, |nows|)
    decreases |nows|
  {
    if nows != [] {
      var step := ScanStep(users, fullname, nows[0]);
      var k' := if k > 0 then k - 1 else 0;
      ScanOnce(users, fullname, nows[0], i, k);
      ScanRepeatedlyUnfold(users, fullname, nows);
      ScanRepeatedlyCountsDown(step.1, fullname, nows[1..], i, k');
      var rest := ScanRepeatedly(step.1, fullname, nows[1..]).0;
      assert rest == CountdownResults(k', |nows| - 1);
      assert CountdownResults(k, |nows|) == [step.0] + CountdownResults(k', |nows| - 1);
    }
  }

  /** A user found with `k >= 0` scans left gets exactly `k` successful
      scans, counting down to zero, and every later request is refused. */
  lemma ExactlyScanCountScansSucceed(users: seq<User>, fullname: string, nows: seq<Instant>)
    requires fullname != "" && FirstMatch(users, Fullname, fullname).Some?
    requires users[FirstMatch(users, Fullname, fullname).value].scanCount >= 0
    ensures var k := users[FirstMatch(users, Fullname, fullname).value].scanCount;
            forall j :: 0 <= j < |nows| ==>
              ScanRepeatedly(users, fullname, nows).0[j]
                == if j < k then ScanSuccessful(k - 1 - j) else ScanLimitReached
  {
    var i := FirstMatch(users, Fullname, fullname).value;
    ScanRepeatedlyCountsDown(users, fullname, nows, i, users[i].scanCount);
    forall j | 0 <= j < |nows|
      ensures CountdownResults(users[i].scanCount, |nows|)[j]
                == if j < users[i].scanCount then ScanSuccessful(users[i].scanCount - 1 - j) else ScanLimitReached
    {
      CountdownResultsAt(users[i].scanCount, |nows|, j);
    }
  }
}
