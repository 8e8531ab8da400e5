# Scan quota and subscription counter of the passease backend

This project models the part of the passease backend that keeps state across
requests: each user's daily scan allowance (`scanCount`), the subscription
day counter (`daysLeft`, `paid`), and the record-level rules around them.
The store of user documents is a `UserStore` object whose `users` field is a
sequence of `User` values in store order. `findOne` is `FirstMatch`, the
first index whose key matches. Saving a found record replaces it in place,
and saving a new one appends it.

- `UserModel` (`user_model.dfy`) holds the `User` record and `NewUser`, the
  schema's constructor with its defaults and required fields. The schema's
  misspelt `isVerfied` and the handlers' `isVerified` are two separate fields.
- `ResetUserData` (`reset_user_data.dfy`) models the midnight job. `Rollover`
  is what the job does to one record. `Swept` is one run over the store.
  The method `ResetUserData` is the job's loop, proved to compute `Swept`.
- `UserRoutes` (`user_routes.dfy`) models the `/scan` request.
- `AdminRoutes` (`admin_routes.dfy`) models the `/verify`, `/reject` and
  `/analytics` requests.
- `UserController` (`user_controller.dfy`) models registration and login.
- `Server` (`server.dfy`) applies any sequence of these requests to a store.
  It proves what holds of every store the server builds: emails are unique,
  no scan count is negative, and nobody is `paid`. No request in this code
  sets `paid`, so on such a store the midnight job changes nothing.

Each handler that writes the store is a method that `modifies` it, and each
is proved equal to a pure step function (`ScanStep`, `VerifyStep`,
`RejectStep`, `RegisterStep`, `Swept`). The properties are stated on those
functions. Login only reads, so it is a function. Analytics is a method
whose loop keeps the tallies of the users seen so far.

Modelling choices:

- A request field that is absent is the empty string, because every handler
  but `/reject` tests for presence and treats a missing and an empty value
  alike. `/reject` does not test its `fullname`; see "Left out". An uploaded file is
  `Option<UploadedFile>`.
- The current time is an `Instant` parameter. The model only stamps it into
  `lastScanDate` and never computes with it.
- Password hashing and comparison come from an external library. They are
  the parameters `hash: string -> string` and
  `compare: (string, string) -> bool`.
- Five fields are used by the handlers but not declared by the schema:
  `paid`, `daysLeft`, `lastScanDate`, `isVerified` and `rejectMessage`. The
  model stores them like the declared fields. An absent `paid` reads as
  `false` and an absent `daysLeft` as `0`; the other three are `Option`s.

No request sets `paid`. `/scan` does no rollover of its own: only the
midnight job refills scans. The job never reads `lastScanDate` and takes off
one day per run, however long ago the previous run was.

## Model

| member | source | states |
|---|---|---|
| `UserModel.NewUser` | models/User.model.js:3-39 | A record exists exactly when fullname, email, password and route are all present. It has `scanCount` 2 and `isVerfied` false. The profile files default to the empty string. The undeclared fields start absent: not paid, 0 days, no scan date, no verification flag, no rejection message. |
| `UserModel.FirstMatch` | routes/user.routes.js:9 | The lookup returns an index whose record holds the value, and no earlier record holds it. It returns None exactly when no record holds the value. |
| `ResetUserData.Swept` | cron/resetUserData.js:7-23 | One run keeps the number of records, and each record's new state depends only on its own old state. |
| `ResetUserData.ResetUserData` | cron/resetUserData.js:7-23 | The job's loop over all users leaves exactly `Swept` of the old store. |
| `ResetUserData.RolloverContinues` | cron/resetUserData.js:10-16 | A paid user with d ≥ 2 days ends with d−1 days, 2 scans, and still paid. |
| `ResetUserData.RolloverExpiresOnLastDay` | cron/resetUserData.js:11-19 | A paid user with 1 day ends with 0 days, unpaid and 0 scans. The expiry step overrides the refill to 2. |
| `ResetUserData.RolloverClosesExhausted` | cron/resetUserData.js:11-18 | A paid user with 0 days is not decremented, and ends unpaid with 0 scans. |
| `ResetUserData.RolloverIgnoresNegativeDays` | cron/resetUserData.js:11-21 | A paid user with a negative day count fails both tests and is saved unchanged. |
| `ResetUserData.RolloverSkipsUnpaid` | cron/resetUserData.js:10-22 | An unpaid user is left exactly as it was. |
| `ResetUserData.Rollover` | cron/resetUserData.js:10-22 | The job's update of one record: `daysLeft` never grows, and a non-negative `daysLeft` stays non-negative. `paid` is never switched on. No record comes out paid with 0 days. |
| `ResetUserData.RolloverKeepsOtherFields` | cron/resetUserData.js:10-19 | Only `daysLeft`, `scanCount` and `paid` can change. |
| `ResetUserData.SweptInvariants` | cron/resetUserData.js:7-23 | After a run, no user is paid with 0 days, and non-negative day counts stay non-negative. Every other field of every record is untouched. |
| `ResetUserData.SweptTimesCountsDown` | cron/resetUserData.js:10-14 | k runs on a paid user with more than k days leave exactly k fewer days, still paid and, for k > 0, with 2 scans. |
| `ResetUserData.SweptTwiceDiffers` | cron/resetUserData.js:9-14 | The job is not idempotent: a second run takes off a second day. |
| `ResetUserData.SweptWithoutPaidIsIdentity` | cron/resetUserData.js:10 | On a store without paid users, a run changes nothing. |
| `UserRoutes.ScanStep` | routes/user.routes.js:1-29 | A missing name, and only a missing name, is refused. An unknown name yields not-found. Both leave the store unchanged. The scan succeeds exactly when the first matching user has scans left. With scans left, the first matching user loses exactly one scan and `remainingScans` is the new count. `lastScanDate` becomes the current time, and nothing else in the store changes. With `scanCount` ≤ 0 the limit is reported and the store is unchanged. A non-negative `scanCount` never goes negative. |
| `UserRoutes.ScanOnce` | routes/user.routes.js:15-28 | A user found with k ≥ 0 scans gets `ScanSuccessful(k−1)` when k > 0 and the limit otherwise. The same lookup then finds the same record with k−1 scans, or still 0. |
| `UserRoutes.Scan` | routes/user.routes.js:1-35 | The handler returns the result of `ScanStep` and leaves the store `ScanStep` computes. |
| `UserRoutes.ExactlyScanCountScansSucceed` | routes/user.routes.js:15-28 | From `scanCount` k ≥ 0, the first k requests succeed, reporting k−1 down to 0 scans left. Every later request is refused. |
| `AdminRoutes.VerifyStep` | routes/admin.routes.js:7-24 | A missing name, and only a missing name, is refused. An unknown name yields not-found. Both leave the store unchanged. Verification succeeds exactly when a user has the given name. Then the first matching user gets `isVerified` true and nothing else changes. The response carries the saved record. |
| `AdminRoutes.VerifiedByAdmin` | routes/admin.routes.js:7-29 | The handler computes `VerifyStep` on the store. |
| `AdminRoutes.RejectStep` | routes/admin.routes.js:33-48 | An unknown name yields not-found with the store unchanged. Otherwise the first matching user gets `isVerified` false and the given `rejectMessage`, and nothing else changes. |
| `AdminRoutes.Reject` | routes/admin.routes.js:33-53 | The handler computes `RejectStep` on the store. |
| `AdminRoutes.VerifyIsIdempotent` | routes/admin.routes.js:15-22 | Verifying twice leaves the same store as verifying once. |
| `AdminRoutes.VerifyAfterRejectKeepsMessage` | routes/admin.routes.js:15-46 | Verifying a rejected user sets `isVerified` true but keeps the old rejection message. |
| `AdminRoutes.Analytics` | routes/admin.routes.js:55-69 | `total` is the number of users with a non-empty route. The keys of `routeCounts` are exactly the non-empty routes present. Each count is the number of users on that route. The counts sum to `total`. The store is only read. |
| `UserController.RegisterStep` | controllers/user.controller.js:4-34 | A request missing any of the six inputs is refused, and so is a known email; both leave the store unchanged. A successful registration appends exactly one record and keeps the rest. That record has `hash(password)` as its password, the uploaded file names, `scanCount` 2 and `isVerfied` false. Unique emails stay unique. |
| `UserController.RegisterUser` | controllers/user.controller.js:4-39 | The handler computes `RegisterStep` on the store. |
| `UserController.RegistrationsKeepEmailsUnique` | controllers/user.controller.js:15-32 | Any sequence of registrations keeps emails unique across the store. |
| `UserController.WithoutPassword` | controllers/user.controller.js:59 | Stripping the password loses nothing else: putting the password back gives the stored record. |
| `UserController.PublicUserHidesPassword` | controllers/user.controller.js:59-61 | The public record carries no password: whatever password is put back is stripped to the same public record. |
| `UserController.LoginUser` | controllers/user.controller.js:41-62 | A missing email or password is refused, and only then. An unknown email yields not-found. Otherwise the first user with the email is checked. The login succeeds exactly when the comparison accepts, and then returns that record without its password. |
| `Server.HandleKeepsConsistent` | routes/admin.routes.js:15-46 | Each of the five request kinds keeps the store consistent: emails unique, nobody paid, no negative scan count. Verify and reject touch only the verification fields. The other three kinds are registration (controllers/user.controller.js:15-32), scan (routes/user.routes.js:15-23) and the midnight job (cron/resetUserData.js:10-19). |
| `Server.ServedStoresStayConsistent` | controllers/user.controller.js:23-32 | Any sequence of requests keeps a consistent store consistent. On every such store the midnight job changes nothing. |

## Left out

- The cron schedule (`0 0 * * *`). The job body is a method invoked on demand.
- Concurrency between the midnight job and requests, and lost updates between concurrent scans. The code has no locking, and the model handles one request at a time.
- The database connection and the I/O of `find`, `findOne` and `save`. The store is an in-memory sequence of records.
- The password hashing library. Hashing and comparison are parameters, and nothing is proved about them.
- The upload middleware, which stores files and picks random names. A request carries the resulting file names.
- Application start-up, router wiring and cloud-storage configuration.
- HTTP status codes, the shape of the JSON responses, logging, and the catch-all server-error branches. `RecordRejected` stands for a save that the schema refuses.
- The generated `_id` and the `userId` in the registration response.
- Date arithmetic. `lastScanDate` is only ever stamped with the current time.
- Values of the wrong JavaScript type in a request or record, such as a non-string name or a non-numeric `scanCount`. `scanCount` and `daysLeft` are integers.
- Whether the ODM persists assignments to fields the schema does not declare. The model stores them.
- A paid record whose `daysLeft` is absent. It is modelled as 0, so the job closes it; in the code it would stay paid.
- `UserModel.NewUser`: the schema's `required` check on the two profile fields is not modelled. An empty default file name is accepted.
- `AdminRoutes.RejectStep`: an absent `fullname` is looked up as the empty name. What the query layer does with an undefined filter value is not part of this model.
- Route names that collide with built-in object keys of the response dictionary.
