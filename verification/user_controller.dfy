/** Registration and login.  Password hashing and comparison are done by an
    external library; the model receives them as functions. */
module UserController {
  import opened UserModel

  /** A file the upload middleware stored for the request. */
  datatype UploadedFile = UploadedFile(filename: string)

  /** The fields of a registration request; an absent text field is the
      empty string, an absent file is None. */
  datatype RegisterRequest = RegisterRequest(
    fullname: string,
    email: string,
    password: string,
    route: string,
    profilepic: Option<UploadedFile>,
    profilepdf: Option<UploadedFile>)

  datatype RegisterResult =
    | MissingRequiredFields
    | EmailAlreadyRegistered
    | RecordRejected       // the new record failed the schema on save
    | UserRegistered

  predicate HasAllFields(req: RegisterRequest)
  {
    req.fullname != "" && req.email != "" && req.password != "" && req.route != ""
    && req.profilepic.Some? && req.profilepdf.Some?
  }

  /** No two stored users share an email address. */
  predicate EmailsUnique(users: seq<User>)
  {
    forall i, j :: 0 <= i < j < |users| ==> users[i].email != users[j].email
  }

  /** `RegisterUser`: refuses incomplete requests and known emails, then
      appends one new record holding the hashed password and the uploaded
      file names. */
  function RegisterStep(users: seq<User>, req: RegisterRequest, hash: string -> string): (out: (RegisterResult, seq<User>))
    ensures !HasAllFields(req) ==> out.0 == MissingRequiredFields
    ensures out.0 == EmailAlreadyRegistered <==>
              HasAllFields(req) && exists j :: 0 <= j < |users| && users[j].email == req.email
    ensures out.0 == UserRegistered <==>
              HasAllFields(req) && (forall j :: 0 <= j < |users| ==> users[j].email != req.email)
              && hash(req.password) != ""
    ensures out.0 != UserRegistered ==> out.1 == users
    ensures out.0 == UserRegistered ==>
              && HasAllFields(req)
              && |out.1| == |users| + 1 && out.1[..|users|] == users
              && var u := out.1[|users|];
              && u.fullname == req.fullname && u.email == req.email && u.route == req.route
              && u.password == hash(req.password)
              && u.profilepic == req.profilepic.value.filename
              && u.profilepdf == req.profilepdf.value.filename
              && u.scanCount == 2 && !u.isVerfied && !u.paid
    ensures EmailsUnique(users) ==> EmailsUnique(out.1)
  {
    if !HasAllFields(req) then (MissingRequiredFields, users)
    else if FirstMatch(users, Email, req.email).Some? then (EmailAlreadyRegistered, users)
    else
      match NewUser(req.fullname, req.email, hash(req.password), req.route,
                    Some(req.profilepdf.value.filename), Some(req.profilepic.value.filename))
      case None => (RecordRejected, users)
      case Some(u) => (UserRegistered, users + [u])
  }

  method RegisterUser(store: UserStore, req: RegisterRequest, hash: string -> string) returns (res: RegisterResult)
    modifies store
    ensures (res, store.users) == RegisterStep(old(store.users), req, hash)
  {
    if req.fullname == "" || req.email == "" || req.password == "" || req.route == ""
       || req.profilepic.None? || req.profilepdf.None? {
      return MissingRequiredFields;
    }
    var existingUser := FirstMatch(store.users, Email, req.email);
    if existingUser.Some? {
      return EmailAlreadyRegistered;
    }
    var hashedPassword := hash(req.password);
    var newUser := NewUser(req.fullname, req.email, hashedPassword, req.route,
                           Some(req.profilepdf.value.filename), Some(req.profilepic.value.filename));
    if newUser.None? {
      return RecordRejected;
    }
    store.users := store.users + [newUser.value];
    res := UserRegistered;
  }

  /** Registration requests handled one after another, from `users`. */
  function RegisterAll(users: seq<User>, reqs: seq<RegisterRequest>, hash: string -> string): (r: seq<User>)
    ensures |users| <= |r| <= |users| + |reqs|
    decreases |reqs|
  {
    if reqs == [] then users else RegisterAll(RegisterStep(users, reqs[0], hash).1, reqs[1..], hash)
  }

  /** However many registrations are handled, no email is stored twice. */
  lemma {:induction false} RegistrationsKeepEmailsUnique(users: seq<User>, reqs: seq<RegisterRequest>, hash: string -> string)
    requires EmailsUnique(users)
    ensures EmailsUnique(RegisterAll(users, reqs, hash))
    decreases |reqs|
  {
    if reqs != [] {
      RegistrationsKeepEmailsUnique(RegisterStep(users, reqs[0], hash).1, reqs[1..], hash);
    }
  }

  /** A user record as login returns it: every field but the password. */
  datatype PublicUser = PublicUser(
    fullname: string,
    email: string,
    route: string,
    profilepdf: string,
    profilepic: string,
    isVerfied: bool,
    scanCount: int,
    paid: bool,
    daysLeft: int,
    lastScanDate: Option<Instant>,
    isVerified: Option<bool>,
    rejectMessage: Option<string>)

  /** Puts a password back into a public record. */
  function WithPassword(p: PublicUser, password: string): (u: User)
  {
    User(p.fullname, p.email, password, p.route, p.profilepdf, p.profilepic, p.isVerfied,
         p.scanCount, p.paid, p.daysLeft, p.lastScanDate, p.isVerified, p.rejectMessage)
  }

  /** Drops the password and keeps everything else: restoring the password
      gives back the stored record, so no other field is lost or altered. */
  function WithoutPassword(u: User): (p: PublicUser)
    ensures WithPassword(p, u.password) == u
  {
    PublicUser(u.fullname, u.email, u.route, u.profilepdf, u.profilepic, u.isVerfied,
               u.scanCount, u.paid, u.daysLeft, u.lastScanDate, u.isVerified, u.rejectMessage)
  }

  /** The public record keeps no trace of the password: any password put
      back is stripped again to the same public record. */
  lemma PublicUserHidesPassword(p: PublicUser, password: string)
    ensures WithoutPassword(WithPassword(p, password)) == p
    ensures WithPassword(p, password).password == password
  {
  }

  datatype LoginResult =
    | MissingCredentials
    | UserNotFound
    | InvalidCredentials
    | LoginSuccessful(user: PublicUser)

  /** `LoginUser`: finds the first user with the email, checks the password
      with `compare(plaintext, storedHash)`, and answers with the record
      stripped of its password. */
  function LoginUser(users: seq<User>, email: string, password: string,
                     compare: (string, string) -> bool): (r: LoginResult)
    ensures r == MissingCredentials <==> email == "" || password == ""
    ensures r == UserNotFound <==>
              email != "" && password != "" && forall j :: 0 <= j < |users| ==> users[j].email != email
    ensures r.LoginSuccessful? || r == InvalidCredentials ==>
              && email != "" && password != "" && FirstMatch(users, Email, email).Some?
              && var i := FirstMatch(users, Email, email).value;
              && (r.LoginSuccessful? <==> compare(password, users[i].password))
              && (r.LoginSuccessful? ==> WithPassword(r.user, users[i].password) == users[i])
  {
    if email == "" || password == "" then MissingCredentials
    else
      match FirstMatch(users, Email, email)
      case None => UserNotFound
      case Some(i) =>
        if !compare(password, users[i].password) then InvalidCredentials
        else LoginSuccessful(WithoutPassword(users[i]))
  }
}
