/**
 * The `/signup` handler that `setSignupHandler` in signup.go registers. Its
 * steps are those of main.go's handler, except that the message is declared
 * only after the duplicate-device check; the postcondition states that it
 * reaches the same store state, reply and calls as `Main.Decide`.
 */
module Signup {
  import opened Wrappers
  import opened Store
  import opened Main

  /**
   * The handler closure of signup.go, up to the point where the response is
   * rendered. `calls` records the collaborator calls for the proof only.
   */
  method HandleSignup(users: Users, r: Request, env: Env) returns (resp: Response, ghost calls: seq<Call>)
    requires users.Valid()
    modifies users
    ensures users.Valid()
    ensures Outcome(resp, users.table, calls) == Decide(old(users.table), r, env)
  {
    if r.httpMethod != "POST" {
      resp := NotAllowed;
      calls := [];
      return;
    }
    calls := [CheckCall(r.visitorId)];
    var recentSignup := Check(users.table, r.visitorId, env.checkTime, env.checkFault);
    if recentSignup.Failure? {
      resp := InternalError;
      return;
    }
    var msg := "";
    if recentSignup.value {
      msg := DuplicateDevice;
    } else {
      calls := calls + [AddCall(r.email, r.visitorId)];
      var err;
      msg, err := users.Add(r.email, r.visitorId, env.addTime, env.addFault);
      if err.Some? {
        resp := InternalError;
        return;
      }
    }
    calls := calls + [ValidateCall(r.requestId, r.visitorId)];
    var v := env.verifier(r.requestId, r.visitorId);
    if v.err.Some? {
      resp := InternalError;
      return;
    }
    if !v.success {
      msg := VerifyFailed;
    }
    resp := Page(msg);
  }
}
