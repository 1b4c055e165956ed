# Signup decision path of fingerprint-go

A model of how the demo signup server decides one submission to `/signup`:

- `Store` (internal/store/store.go) models the users table as the sequence of
  its rows `(email, fingerprint, timestamp)`. `Check` asks whether the latest
  row with a fingerprint is less than one minute old. `Users.Add` appends a row
  unless the email is already present. Clock readings are integer nanoseconds,
  and a row keeps the reading truncated to whole seconds, as RFC 3339 text does.
- `Main` (main.go) models the handler that `run` registers.
  - `Decide` is a function that says what one submission does: the reply
    (405, 500, or a page with a message), the table afterwards, and the calls
    made to `Check`, `Add` and the verifier, in order.
  - `HandleSignup` is the handler's step-by-step body over a `Users` object,
    proved to equal `Decide`.
- `Signup` (signup.go) models `setSignupHandler`'s handler, whose steps are
  ordered slightly differently. It is proved to produce the same outcome as
  main.go's handler (`Main.Decide`) on every input.

Outside inputs are parameters, gathered in `Main.Env`:
- the clock reading taken by `Check` and the one taken by `Add`;
- a storage fault for each of the two statements (`None` when the statement runs normally);
- the remote verifier `fp.Validate`, as a function from `(requestId, visitorId)` to `(success, error)`.

The model keeps these behaviours of the code, which a reader might not expect:
- The row is written by `Add` before verification runs. A failed or erroring
  verification does not remove it.
- Verification runs even after a duplicate-device rejection, and its answer
  overrides that rejection: a false verdict replaces the duplicate-device text
  with "Error verifying the signup attempt. Please try again.", and a verifier
  error turns it into HTTP 500. The same holds for the known-email message.
- A verifier error gives HTTP 500, not a "please try again" message.
- Empty form fields are not rejected. An empty visitor ID or email is stored
  like any other.

## Model

| member | source | states |
|---|---|---|
| Store.Seconds | internal/store/store.go:49 | the stored timestamp is the clock reading truncated to whole seconds: the second that contains the reading |
| Store.LatestSignup | internal/store/store.go:66-72 | the query's result is None exactly when no row has the fingerprint, and otherwise is the timestamp of one such row that no other such row exceeds |
| Store.Check | internal/store/store.go:63-86 | a query fault gives an error and nothing else does; otherwise the answer is true exactly when some row with the fingerprint is less than one minute older than the clock |
| Store.Insert | internal/store/store.go:48-60 | a storage fault gives an error, empty status and no change; otherwise the status is one of the two messages; "Thank you" exactly when the email is new, and then the table is the old one plus the row (email, visitorId, seconds of now), else unchanged |
| Store.Users.Open | internal/store/store.go:16-45 | opening the table keeps the rows it already holds, which satisfy the unique-email constraint |
| Store.Users.Add | internal/store/store.go:48-60 | the new table and returned status and error are those of the insert statement, and emails stay unique |
| Store.WithinMinuteBySeconds | internal/store/store.go:49-83 | comparing the nanosecond clock with a stored second-resolution timestamp is the same as comparing whole seconds: the row is recent iff fewer than 60 seconds separate them |
| Store.CheckWithoutRow | internal/store/store.go:69-72 | no row with the fingerprint gives false with no error |
| Store.CheckSameLatest | internal/store/store.go:66-84 | two tables whose latest timestamp for the fingerprint agree give the same answer, whatever their other rows |
| Store.CheckIgnoresOlderRows | internal/store/store.go:66-68 | adding a row no newer than the latest one for its fingerprint does not change the answer |
| Store.CheckBoundary | internal/store/store.go:81-84 | a row exactly one minute old is not recent; one nanosecond earlier it is |
| Store.InsertKeepsEmailsUnique | internal/store/store.go:33-55 | every insert keeps emails unique |
| Store.InsertAppendOnly | internal/store/store.go:50-51 | every insert keeps the old rows as a prefix and adds at most one row |
| Store.InsertTwice | internal/store/store.go:52-55 | a second insert of the same email returns "You already have signed up", no error, and leaves the table unchanged |
| Store.InsertIgnoresFingerprint | internal/store/store.go:48-59 | status and error of an insert are the same whatever visitor ID is given |
| Store.InsertDespiteRecentDevice | internal/store/store.go:48-59 | a new email is inserted even when Check for its fingerprint answers true |
| Store.CheckAfterInsert | internal/store/store.go:49-83 | after a new row is written at clock now, Check answers true for its fingerprint at now and at any clock fewer than 60 whole seconds later |
| Main.HandleSignup | main.go:87-133 | the handler's reply, calls and new table are those of the decision procedure, and emails stay unique |
| Main.NonPostUntouched | main.go:88-91 | a non-POST gets 405 "Invalid request method", no calls, table unchanged |
| Main.CheckErrorFatal | main.go:102-107 | a Check error gives 500 after the Check call alone, table unchanged |
| Main.RecentDeviceNotRecorded | main.go:108-109 | a recent device gets no Add call and no new row; the verifier is still called; when it succeeds the message is the duplicate-device text |
| Main.FreshDeviceAddsOnce | main.go:110-119 | a device with no recent signup gets exactly one Add(email, visitorId); an Add error gives 500 before verification; otherwise Add's status is the message when the verifier succeeds |
| Main.VerificationRunsIff | main.go:124-130 | the verifier is called, once and as the last call, exactly on POSTs whose Check succeeds and whose Add, when called, reports no error |
| Main.VerifyFalseOverrides | main.go:108-133 | on every POST that reaches the verifier, duplicate-device and known-email branches included, a false verdict gives the "Error verifying" message; the table is the one Check and Add left, so a written row stays |
| Main.VerifyErrorFatal | main.go:108-130 | on every POST that reaches the verifier, duplicate-device and known-email branches included, a verifier error gives 500; the table is the one Check and Add left, so a written row stays |
| Main.RowKeptAfterFailedVerification | main.go:113-133 | a new signup whose verification fails or errors is not thanked, yet its row (email, visitorId, seconds of Add's clock) stays |
| Main.FourMessages | main.go:99-133 | every page carries one of the four fixed messages |
| Main.HttpErrors | main.go:88-130 | the only HTTP errors are 405 (exactly for non-POSTs) and 500 |
| Main.RowWrittenIff | main.go:102-119 | a row is written exactly when a POST finds no recent signup, Add meets no fault and the email is new, and it is (email, visitorId, seconds of Add's clock) whatever the verifier says |
| Main.AcceptedIff | main.go:102-133 | the thank-you page is shown exactly when a row was written and the verifier succeeded without error |
| Main.DecideKeepsTable | main.go:102-119 | a submission keeps emails unique, keeps old rows as a prefix and adds at most one row |
| Main.SecondSignupFromDeviceNotRecorded | main.go:102-113 | after a device is recorded, a second signup from it less than 60 whole seconds later writes no row and is not thanked |
| Main.KnownEmailNotRecorded | main.go:110-119 | a known email writes no row and, when the verifier succeeds, gets "You already have signed up" or the duplicate-device text |
| Signup.HandleSignup | signup.go:15-60 | signup.go's handler gives the same reply, calls and new table as main.go's on every input, and emails stay unique |

## Left out

- The SQLite driver: opening the database and the errors of `NewUsers` and `Close` are not modelled. The table is an in-memory sequence. The storage engine's failures are inputs (`checkFault`, `addFault`).
- Store.Insert: does not model how the source tells a uniqueness violation from other errors, which is by the first 17 bytes of the error text ("constraint failed"). The model keeps the two kinds of error apart. So it does not reach the panic that this slice causes on an error text shorter than 17 bytes. It also does not reach the misreading of some other error whose text starts that way.
- Store.Check: timestamps are integer seconds, so a stored time that does not parse cannot arise. Ordering by the RFC 3339 text matches time order only under one fixed UTC offset. The model orders by the integer.
- `time.Since` saturating on int64 overflow, and the time zone of the formatted timestamp, are not modelled.
- The verifier `fp.Validate` and internal/fingerprint/fingerprint.go (SDK setup, region selection from the environment, the remote `GetEvent` call, its printing and `log.Fatalf`) are not part of this model. The verifier's answer is an input.
- Rendering the response template and writing the response (main.go:135-149, signup.go:62-76) are not modelled. The 500 replies that their errors would give are therefore absent.
- The rest of `run` is not modelled: loading `.env`, template parsing, serving the home page, form and stylesheet, the `Location` header, `ListenAndServe`, and `main`.
- Concurrent requests and the global `http.HandleFunc` registration are not modelled. Each submission runs alone against the table.
- Logging calls are not modelled.
