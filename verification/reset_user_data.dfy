/** The midnight job: one pass over every stored user that takes a day off
    each paid subscription, refills its daily scans, and ends subscriptions
    that have run out. */
module ResetUserData {
  import opened UserModel

  /** What the job does to one record, read as a function of that record
      alone.  Unpaid records are skipped; the job never looks at
      `lastScanDate`.  `daysLeft` never grows and a non-negative count
      stays non-negative; `paid` is never switched on, and no record comes
      out paid with zero days left. */
  function Rollover(u: User): (r: User)
    ensures r.daysLeft <= u.daysLeft
    ensures u.daysLeft >= 0 ==> r.daysLeft >= 0
    ensures !(r.paid && r.daysLeft == 0)
    ensures r.paid ==> u.paid
  {
    if !u.paid then u
    else
      var v := if u.daysLeft > 0 then u.(daysLeft := u.daysLeft - 1, scanCount := 2) else u;
      if v.daysLeft == 0 then v.(paid := false, scanCount := 0) else v
  }

  /** One run of the job over a whole store. */
  function Swept(users: seq<User>): (r: seq<User>)
    ensures |r| == |users|
    ensures forall i :: 0 <= i < |users| ==> r[i] == Rollover(users[i])
  {
    if users == [] then [] else [Rollover(users[0])] + Swept(users[1..])
  }

  /** `k` runs of the job, one after another. */
  function SweptTimes(users: seq<User>, k: nat): (r: seq<User>)
    ensures |r| == |users|
    decreases k
  {
    if k == 0 then users else SweptTimes(Swept(users), k - 1)
  }

  /** The job body: walks the users in store order and saves each paid one
      after updating it in place. */
  method ResetUserData(store: UserStore)
    modifies store
    ensures store.users == Swept(old(store.users))
  {
    var users := store.users;
    var i := 0;
    while i < |users|
      invariant 0 <= i <= |users|
      invariant |store.users| == |users|
      invariant forall j :: 0 <= j < i ==> store.users[j] == Rollover(users[j])
      invariant forall j :: i <= j < |users| ==> store.users[j] == users[j]
    {
      var user := users[i];
      if user.paid {
        if user.daysLeft > 0 {
          user := user.(daysLeft := user.daysLeft - 1, scanCount := 2);
        }
        if user.daysLeft == 0 {
          user := user.(paid := false, scanCount := 0);
        }
        store.users := store.users[i := user];
      }
      i := i + 1;
    }
  }

  /** A paid user with at least two days left loses one day, gets two
      scans, and stays paid. */
  lemma RolloverContinues(u: User)
    requires u.paid && u.daysLeft >= 2
    ensures Rollover(u).daysLeft == u.daysLeft - 1
    ensures Rollover(u).scanCount == 2 && Rollover(u).paid
  {
  }

  /** A paid user on the last day ends unpaid with no days and no scans:
      the expiry step overrides the refill to two scans. */
  lemma RolloverExpiresOnLastDay(u: User)
    requires u.paid && u.daysLeft == 1
    ensures Rollover(u).daysLeft == 0 && !Rollover(u).paid && Rollover(u).scanCount == 0
  {
  }

  /** A paid user whose days already ran out is not decremented again, and
      the subscription is closed. */
  lemma RolloverClosesExhausted(u: User)
    requires u.paid && u.daysLeft == 0
    ensures Rollover(u).daysLeft == 0 && !Rollover(u).paid && Rollover(u).scanCount == 0
  {
  }

  /** A paid record with a negative day count matches neither test and is
      saved back as it was. */
  lemma RolloverIgnoresNegativeDays(u: User)
    requires u.paid && u.daysLeft < 0
    ensures Rollover(u) == u
  {
  }

  /** Unpaid users are left exactly as they are. */
  lemma RolloverSkipsUnpaid(u: User)
    requires !u.paid
    ensures Rollover(u) == u
  {
  }

  /** After one run, no record is paid with zero days left, and every
      record that had a non-negative day count still has one; the store keeps
      its size and every record keeps its non-quota fields. */
  lemma SweptInvariants(users: seq<User>)
    ensures |Swept(users)| == |users|
    ensures forall i :: 0 <= i < |users| ==> !(Swept(users)[i].paid && Swept(users)[i].daysLeft == 0)
    ensures forall i :: 0 <= i < |users| && users[i].daysLeft >= 0 ==> Swept(users)[i].daysLeft >= 0
    ensures forall i :: 0 <= i < |users| ==>
              Swept(users)[i].(daysLeft := users[i].daysLeft, scanCount := users[i].scanCount,
                               paid := users[i].paid) == users[i]
  {
    forall i | 0 <= i < |users|
      ensures !(Swept(users)[i].paid && Swept(users)[i].daysLeft == 0)
      ensures users[i].daysLeft >= 0 ==> Swept(users)[i].daysLeft >= 0
      ensures Swept(users)[i].(daysLeft := users[i].daysLeft, scanCount := users[i].scanCount,
                               paid := users[i].paid) == users[i]
    {
      RolloverKeepsOtherFields(users[i]);
    }
  }

  /** `k` runs on a paid user with more than `k` days left take off exactly
      `k` days and leave the subscription active. */
  lemma {:induction false} SweptTimesCountsDown(users: seq<User>, k: nat, i: nat)
    requires i < |users| && users[i].paid && users[i].daysLeft > k
    ensures SweptTimes(users, k)[i].daysLeft == users[i].daysLeft - k
    ensures SweptTimes(users, k)[i].paid
    ensures k > 0 ==> SweptTimes(users, k)[i].scanCount == 2
    decreases k
  {
    if k > 0 {
      var once := Swept(users);
      RolloverContinues(users[i]);
      SweptTimesCountsDown(once, k - 1, i);
    }
  }

  /** Only `daysLeft`, `scanCount` and `paid` can change. */
  lemma RolloverKeepsOtherFields(u: User)
    ensures Rollover(u).(daysLeft := u.daysLeft, scanCount := u.scanCount, paid := u.paid) == u
  {
  }

  /** The job is not idempotent: a second run on a paid user with at least
      two days left takes off a second day. */
  lemma SweptTwiceDiffers(users: seq<User>, i: nat)
    requires i < |users| && users[i].paid && users[i].daysLeft >= 2
    ensures Swept(Swept(users)) != Swept(users)
    ensures Swept(Swept(users))[i].daysLeft == users[i].daysLeft - 2
  {
    var once := Swept(users);
    RolloverContinues(users[i]);
    assert once[i] == Rollover(users[i]);
    if users[i].daysLeft == 2 {
      RolloverExpiresOnLastDay(once[i]);
    } else {
      RolloverContinues(once[i]);
    }
    assert Swept(once)[i] == Rollover(once[i]);
  }

  /** When no record is paid, a run changes nothing. */
  lemma SweptWithoutPaidIsIdentity(users: seq<User>)
    requires forall i :: 0 <= i < |users| ==> !users[i].paid
    ensures Swept(users) == users
  {
  }
}
