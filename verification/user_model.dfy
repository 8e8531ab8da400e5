/** The user record, its constructor with schema defaults, and the record store
    that the request handlers and the midnight job read and write. */
module UserModel {

  datatype Option<T> = None | Some(value: T)

  /** A point in time as produced by `new Date()`; the model never compares or
      computes with it, it is only stamped into records. */
  datatype Instant = Instant(epochMillis: int)

  /** One user document.  The first eight fields are the ones the schema
      declares (including its misspelt `isVerfied`).  The remaining five are
      read and written by the handlers without being declared: `paid` and
      `daysLeft` stand for an absent value by `false` and `0`, the others by
      `None`. */
  datatype User = User(
    fullname: string,
    email: string,
    password: string,
    route: string,
    profilepdf: string,
    profilepic: string,
    isVerfied: bool,
    scanCount: int,
    paid: bool,
    daysLeft: int,
    lastScanDate: Option<Instant>,
    isVerified: Option<bool>,
    rejectMessage: Option<string>)

  /** Builds a record the way the schema does: `fullname`, `email`,
      `password` and `route` are required (an empty string counts as
      missing), the two profile files default to the empty string,
      `isVerfied` to false and `scanCount` to 2. */
  function NewUser(fullname: string, email: string, password: string, route: string,
                   profilepdf: Option<string>, profilepic: Option<string>): (r: Option<User>)
    ensures r.Some? <==> fullname != "" && email != "" && password != "" && route != ""
    ensures r.Some? ==> r.value.fullname == fullname && r.value.email == email
                        && r.value.password == password && r.value.route == route
    ensures r.Some? ==> r.value.scanCount == 2 && !r.value.isVerfied
    ensures r.Some? ==> r.value.profilepdf == (if profilepdf.Some? then profilepdf.value else "")
                        && r.value.profilepic == (if profilepic.Some? then profilepic.value else "")
    ensures r.Some? ==> !r.value.paid && r.value.daysLeft == 0 && r.value.lastScanDate.None?
                        && r.value.isVerified.None? && r.value.rejectMessage.None?
  {
    if fullname == "" || email == "" || password == "" || route == "" then None
    else
      Some(User(fullname, email, password, route,
                match profilepdf case Some(f) => f case None => "",
                match profilepic case Some(f) => f case None => "",
                false, 2, false, 0, None, None, None))
  }

  /** The two fields the handlers look records up by. */
  datatype Key = Fullname | Email

  function KeyOf(u: User, key: Key): (value: string)
  {
    match key
    case Fullname => u.fullname
    case Email => u.email
  }

  /** `findOne({ key: value })`: the first index whose record has `value`
      under `key`, or None when no record has it. */
  function FirstMatch(users: seq<User>, key: Key, value: string): (r: Option<nat>)
    ensures r.Some? ==> r.value < |users| && KeyOf(users[r.value], key) == value
    ensures r.Some? ==> forall j :: 0 <= j < r.value ==> KeyOf(users[j], key) != value
    ensures r.None? <==> forall j :: 0 <= j < |users| ==> KeyOf(users[j], key) != value
  {
    if users == [] then None
    else if KeyOf(users[0], key) == value then Some(0)
    else
      match FirstMatch(users[1..], key, value)
      case None => None
      case Some(i) => Some(i + 1)
  }

  /** A lookup is unaffected by rewriting records while keeping their keys. */
  lemma {:induction false} FirstMatchKeepsKeys(users: seq<User>, users': seq<User>, key: Key, value: string)
    requires |users'| == |users|
    requires forall j :: 0 <= j < |users| ==> KeyOf(users'[j], key) == KeyOf(users[j], key)
    ensures FirstMatch(users', key, value) == FirstMatch(users, key, value)
  {
    if users != [] && KeyOf(users[0], key) != value {
      FirstMatchKeepsKeys(users[1..], users'[1..], key, value);
    }
  }

  /** The collection of user documents.  `users` is what `User.find()`
      returns, in store order; `save()` on a found record replaces it in
      place and `save()` on a new record appends it. */
  class UserStore {
    var users: seq<User>

    constructor ()
      ensures users == []
    {
      users := [];
    }
  }
}
