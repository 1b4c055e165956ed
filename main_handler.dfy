/**
 * The `/signup` handler that `run` registers in main.go, without its HTTP
 * plumbing: a decision procedure over the users table, the submitted form
 * fields, two clock readings, the storage engine's faults and the verdict of
 * the remote fingerprint verifier.
 *
 * `Decide` states what one submission does; `HandleSignup` is the handler's
 * step-by-step body, proved to do exactly that.
 */
module Main {
  import opened Wrappers
  import opened Store

  /** The parts of an HTTP request the handler reads. */
  datatype Request = Request(httpMethod: string, email: string, visitorId: string, requestId: string)

  /** What `fp.Validate(requestId, visitorId)` returns: a success flag and an error. */
  datatype Validation = Validation(success: bool, err: Option<string>)

  /**
   * Everything outside the program that a submission depends on: the clock as
   * `Users.Check` and `Users.Add` each read it, the faults the storage engine
   * reports to each of them (None when the statement runs normally), and the
   * remote verifier as a function of its two arguments.
   */
  datatype Env = Env(
    checkTime: int,
    addTime: int,
    checkFault: Option<string>,
    addFault: Option<string>,
    verifier: (string, string) -> Validation)

  /** A call into a collaborator, in the order the handler makes them. */
  datatype Call =
    | CheckCall(visitorId: string)
    | AddCall(email: string, visitorId: string)
    | ValidateCall(requestId: string, visitorId: string)

  /** An `http.Error` reply, or the response page carrying a message. */
  datatype Response = HttpError(code: int, text: string) | Page(msg: string)

  /** The reply, the table afterwards, and the calls made, in order. */
  datatype Outcome = Outcome(resp: Response, table: seq<Row>, calls: seq<Call>)

  const StatusMethodNotAllowed: int := 405
  const StatusInternalServerError: int := 500

  const NotAllowed: Response := HttpError(StatusMethodNotAllowed, "Invalid request method")
  const InternalError: Response := HttpError(StatusInternalServerError, "Internal server error")

  const DuplicateDevice: string := "Someone else has signed up from this device in the last minute! To prevent fraudulent mass signups, we restricted the number of signups per device to one signup per minute. Please try again later."
  const VerifyFailed: string := "Error verifying the signup attempt. Please try again."

  /** The four messages a submission that is not turned away by an HTTP error can carry. */
  predicate IsSignupMessage(msg: string)
  {
    msg == DuplicateDevice || msg == VerifyFailed || msg == ThankYou || msg == AlreadySignedUp
  }

  /** The verification step, reached with message `msg` and table `table` after `calls`. */
  function Verify(msg: string, table: seq<Row>, calls: seq<Call>, r: Request, env: Env): (o: Outcome)
  {
    var v := env.verifier(r.requestId, r.visitorId);
    var calls' := calls + [ValidateCall(r.requestId, r.visitorId)];
    if v.err.Some? then Outcome(InternalError, table, calls')
    else Outcome(Page(if v.success then msg else VerifyFailed), table, calls')
  }

  /** One submission to `/signup`, starting from table `table`. */
  function Decide(table: seq<Row>, r: Request, env: Env): (o: Outcome)
  {
    if r.httpMethod != "POST" then Outcome(NotAllowed, table, [])
    else match Check(table, r.visitorId, env.checkTime, env.checkFault)
      case Failure(_) => Outcome(InternalError, table, [CheckCall(r.visitorId)])
      case Success(recent) =>
        if recent then Verify(DuplicateDevice, table, [CheckCall(r.visitorId)], r, env)
        else
          var a := Insert(table, r.email, r.visitorId, env.addTime, env.addFault);
          var calls := [CheckCall(r.visitorId), AddCall(r.email, r.visitorId)];
          if a.err.Some? then Outcome(InternalError, a.table, calls)
          else Verify(a.status, a.table, calls, r, env)
  }

  /**
   * The handler closure of main.go, up to the point where the response is
   * rendered. `calls` records the collaborator calls for the proof only.
   */
  method HandleSignup(users: Users, r: Request, env: Env) returns (resp: Response, ghost calls: seq<Call>)
    requires users.Valid()
    modifies users
    ensures users.Valid()
    ensures Outcome(resp, users.table, calls) == Decide(old(users.table), r, env)
  {
    if r.httpMethod != "POST" {
      return NotAllowed, [];
    }
    var msg := "";
    calls := [CheckCall(r.visitorId)];
    var visitorExists := Check(users.table, r.visitorId, env.checkTime, env.checkFault);
    if visitorExists.Failure? {
      return InternalError, calls;
    }
    if visitorExists.value {
      msg := DuplicateDevice;
    } else {
      calls := calls + [AddCall(r.email, r.visitorId)];
      var err;
      msg, err := users.Add(r.email, r.visitorId, env.addTime, env.addFault);
      if err.Some? {
        return InternalError, calls;
      }
    }
    calls := calls + [ValidateCall(r.requestId, r.visitorId)];
    var v := env.verifier(r.requestId, r.visitorId);
    if v.err.Some? {
      return InternalError, calls;
    }
    if !v.success {
      msg := VerifyFailed;
    }
    resp := Page(msg);
  }

  // ---------------------------------------------------------------------
  // Properties of one submission

  /** A request that is not a POST gets 405 and touches neither the store nor the verifier. */
  lemma NonPostUntouched(table: seq<Row>, r: Request, env: Env)
    requires r.httpMethod != "POST"
    ensures Decide(table, r, env) == Outcome(HttpError(405, "Invalid request method"), table, [])
  {
  }

  /** A failing Check is fatal before any Add or verification, and the table stays. */
  lemma CheckErrorFatal(table: seq<Row>, r: Request, env: Env)
    requires r.httpMethod == "POST" && env.checkFault.Some?
    ensures Decide(table, r, env) == Outcome(HttpError(500, "Internal server error"), table, [CheckCall(r.visitorId)])
  {
  }

  /**
   * A device that signed up within the minute is not recorded: Add is not
   * called, the table stays, the verifier still runs, and unless it fails the
   * message is the duplicate-device text.
   */
  lemma RecentDeviceNotRecorded(table: seq<Row>, r: Request, env: Env)
    requires r.httpMethod == "POST"
    requires Check(table, r.visitorId, env.checkTime, env.checkFault) == Success(true)
    ensures var o := Decide(table, r, env);
      o.table == table &&
      o.calls == [CheckCall(r.visitorId), ValidateCall(r.requestId, r.visitorId)] &&
      (env.verifier(r.requestId, r.visitorId) == Validation(true, None) ==> o.resp == Page(DuplicateDevice))
  {
  }

  /**
   * A device without a recent signup gets exactly one Add, with the submitted
   * email and visitor ID; an Add error is fatal, otherwise Add's status is the
   * message unless verification fails.
   */
  lemma FreshDeviceAddsOnce(table: seq<Row>, r: Request, env: Env)
    requires r.httpMethod == "POST"
    requires Check(table, r.visitorId, env.checkTime, env.checkFault) == Success(false)
    ensures var o := Decide(table, r, env);
      var a := Insert(table, r.email, r.visitorId, env.addTime, env.addFault);
      o.table == a.table &&
      o.calls[..2] == [CheckCall(r.visitorId), AddCall(r.email, r.visitorId)] &&
      (forall k | 2 <= k < |o.calls| :: !o.calls[k].AddCall?) &&
      (a.err.Some? ==> o.resp == InternalError && |o.calls| == 2) &&
      (a.err.None? && env.verifier(r.requestId, r.visitorId) == Validation(true, None) ==> o.resp == Page(a.status))
  {
  }

  /**
   * The verifier runs, once and last, exactly on the POSTs that get past
   * Check and Add, including those turned away as a duplicate device.
   */
  lemma VerificationRunsIff(table: seq<Row>, r: Request, env: Env)
    ensures var o := Decide(table, r, env);
      var check := Check(table, r.visitorId, env.checkTime, env.checkFault);
      var passed := r.httpMethod == "POST" && check.Success? &&
        (check.value || Insert(table, r.email, r.visitorId, env.addTime, env.addFault).err.None?);
      (ValidateCall(r.requestId, r.visitorId) in o.calls <==> passed) &&
      (passed ==> o.calls[|o.calls| - 1] == ValidateCall(r.requestId, r.visitorId) &&
                  ValidateCall(r.requestId, r.visitorId) !in o.calls[..|o.calls| - 1])
  {
  }

  /**
   * A false verdict replaces the message on every POST that reaches the
   * verifier, a duplicate-device rejection and a known email included; a row
   * Add wrote stays.
   */
  lemma VerifyFalseOverrides(table: seq<Row>, r: Request, env: Env)
    requires r.httpMethod == "POST"
    requires Check(table, r.visitorId, env.checkTime, env.checkFault).Success?
    requires Check(table, r.visitorId, env.checkTime, env.checkFault).value ||
             Insert(table, r.email, r.visitorId, env.addTime, env.addFault).err.None?
    requires env.verifier(r.requestId, r.visitorId) == Validation(false, None)
    ensures var o := Decide(table, r, env);
      o.resp == Page(VerifyFailed) &&
      o.table == if Check(table, r.visitorId, env.checkTime, env.checkFault).value then table
                 else Insert(table, r.email, r.visitorId, env.addTime, env.addFault).table
  {
  }

  /**
   * A verifier error is fatal on every POST that reaches the verifier, a
   * duplicate-device rejection and a known email included; a row Add wrote
   * is not rolled back.
   */
  lemma VerifyErrorFatal(table: seq<Row>, r: Request, env: Env)
    requires r.httpMethod == "POST"
    requires Check(table, r.visitorId, env.checkTime, env.checkFault).Success?
    requires Check(table, r.visitorId, env.checkTime, env.checkFault).value ||
             Insert(table, r.email, r.visitorId, env.addTime, env.addFault).err.None?
    requires env.verifier(r.requestId, r.visitorId).err.Some?
    ensures var o := Decide(table, r, env);
      o.resp == InternalError &&
      o.table == if Check(table, r.visitorId, env.checkTime, env.checkFault).value then table
                 else Insert(table, r.email, r.visitorId, env.addTime, env.addFault).table
  {
  }

  /** A new signup that fails verification still leaves its row in the table. */
  lemma RowKeptAfterFailedVerification(table: seq<Row>, r: Request, env: Env)
    requires r.httpMethod == "POST"
    requires Check(table, r.visitorId, env.checkTime, env.checkFault) == Success(false)
    requires Insert(table, r.email, r.visitorId, env.addTime, env.addFault).status == ThankYou
    requires env.verifier(r.requestId, r.visitorId) != Validation(true, None)
    ensures var o := Decide(table, r, env);
      o.resp != Page(ThankYou) &&
      o.table == table + [Row(r.email, r.visitorId, Seconds(env.addTime))]
  {
  }

  /** Every submission not turned away by an HTTP error carries one of the four messages. */
  lemma FourMessages(table: seq<Row>, r: Request, env: Env)
    ensures var o := Decide(table, r, env);
      o.resp.Page? ==> IsSignupMessage(o.resp.msg)
  {
  }

  /** The only HTTP errors are 405 for a non-POST and 500 for a collaborator's error. */
  lemma HttpErrors(table: seq<Row>, r: Request, env: Env)
    ensures var o := Decide(table, r, env);
      o.resp.HttpError? ==> o.resp == NotAllowed || o.resp == InternalError
    ensures Decide(table, r, env).resp == NotAllowed <==> r.httpMethod != "POST"
  {
  }

  /**
   * A row is written exactly when a POST finds no recent signup of the device,
   * Add meets no fault and the email is new; then it is the one row
   * (email, visitorId, seconds of Add's clock), whatever the verifier says.
   */
  lemma RowWrittenIff(table: seq<Row>, r: Request, env: Env)
    ensures var o := Decide(table, r, env);
      var written := r.httpMethod == "POST" &&
        Check(table, r.visitorId, env.checkTime, env.checkFault) == Success(false) &&
        env.addFault.None? && !HasEmail(table, r.email);
      o.table == if written then table + [Row(r.email, r.visitorId, Seconds(env.addTime))] else table
  {
  }

  /** The thank-you page is shown exactly when a row was written and the verifier agreed. */
  lemma AcceptedIff(table: seq<Row>, r: Request, env: Env)
    ensures var o := Decide(table, r, env);
      o.resp == Page(ThankYou) <==>
        |o.table| == |table| + 1 && env.verifier(r.requestId, r.visitorId) == Validation(true, None)
  {
    var o := Decide(table, r, env);
    if r.httpMethod == "POST" && Check(table, r.visitorId, env.checkTime, env.checkFault) == Success(true) {
      assert o.resp != Page(ThankYou) by {
        assert DuplicateDevice != ThankYou;
        assert VerifyFailed != ThankYou;
      }
    }
  }

  /** Submissions keep the emails unique and only ever append, one row at most. */
  lemma DecideKeepsTable(table: seq<Row>, r: Request, env: Env)
    requires EmailsUnique(table)
    ensures var o := Decide(table, r, env);
      EmailsUnique(o.table) && table <= o.table && |o.table| <= |table| + 1
  {
    InsertKeepsEmailsUnique(table, r.email, r.visitorId, env.addTime, env.addFault);
  }

  // ---------------------------------------------------------------------
  // Two submissions

  /**
   * Once a device has been recorded, a second signup from it whose Check
   * clock is less than 60 whole seconds later writes no row, whatever its
   * email and whatever the verifier says.
   */
  lemma SecondSignupFromDeviceNotRecorded(table: seq<Row>, r1: Request, env1: Env, r2: Request, env2: Env)
    requires r1.httpMethod == "POST" && r2.httpMethod == "POST"
    requires r2.visitorId == r1.visitorId
    requires env2.checkFault.None?
    requires |Decide(table, r1, env1).table| == |table| + 1
    requires Seconds(env2.checkTime) - Seconds(env1.addTime) < 60
    ensures var t1 := Decide(table, r1, env1).table;
      Decide(t1, r2, env2).table == t1 &&
      Decide(t1, r2, env2).resp != Page(ThankYou)
  {
    RowWrittenIff(table, r1, env1);
    var t1 := Decide(table, r1, env1).table;
    assert Insert(table, r1.email, r1.visitorId, env1.addTime, env1.addFault).status == ThankYou;
    CheckAfterInsert(table, r1.email, r1.visitorId, env1.addTime, env2.checkTime);
    RecentDeviceNotRecorded(t1, r2, env2);
    AcceptedIff(t1, r2, env2);
  }

  /** An email that already has a row is told so, and no second row is written. */
  lemma KnownEmailNotRecorded(table: seq<Row>, r: Request, env: Env)
    requires r.httpMethod == "POST" && HasEmail(table, r.email)
    requires env.checkFault.None? && env.addFault.None?
    requires env.verifier(r.requestId, r.visitorId) == Validation(true, None)
    ensures var o := Decide(table, r, env);
      o.table == table &&
      (o.resp == Page(AlreadySignedUp) || o.resp == Page(DuplicateDevice))
  {
  }
}
