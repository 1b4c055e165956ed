/**
 * The users table behind `store.Users`: one SQLite table
 *   users(email text not null unique, signup_fingerprint text, timestamp text)
 * held here as the sequence of its rows in insertion order.
 *
 * Clock readings are integers counting nanoseconds (the unit of Go's
 * `time.Duration`). A row's timestamp is stored as RFC 3339 text, which keeps
 * whole seconds only, so a row holds the reading truncated to seconds.
 */
module Store {
  import opened Wrappers

  /** One row of the users table; `timestamp` is in whole seconds. */
  datatype Row = Row(email: string, fingerprint: string, timestamp: int)

  /** An error of the storage engine other than the email uniqueness violation. */
  datatype StoreError = StorageError(reason: string)

  /** What `Users.Add` returns, together with the table it leaves behind. */
  datatype AddOutcome = AddOutcome(status: string, err: Option<StoreError>, table: seq<Row>)

  const NanosPerSecond: int := 1_000_000_000

  /** `time.Minute`, as a duration in nanoseconds. */
  const Minute: int := 60 * NanosPerSecond

  const ThankYou: string := "Thank you for signing up!"
  const AlreadySignedUp: string := "You already have signed up"

  /** The whole seconds an RFC 3339 rendering of clock reading `t` keeps: `t` truncated toward the past. */
  function Seconds(t: int): (s: int)
    ensures s * NanosPerSecond <= t < (s + 1) * NanosPerSecond
  {
    t / NanosPerSecond
  }

  predicate HasEmail(table: seq<Row>, email: string)
  {
    exists i | 0 <= i < |table| :: table[i].email == email
  }

  predicate HasFingerprint(table: seq<Row>, visitorId: string)
  {
    exists i | 0 <= i < |table| :: table[i].fingerprint == visitorId
  }

  /** The `unique` constraint on the email column. */
  predicate EmailsUnique(table: seq<Row>)
  {
    forall i, j | 0 <= i < j < |table| :: table[i].email != table[j].email
  }

  /** `time.Since(st) < time.Minute` for a row stamped `ts` seconds, read at clock `now`. */
  predicate WithinMinute(now: int, ts: int)
  {
    now - ts * NanosPerSecond < Minute
  }

  /**
   * `select timestamp from users where signup_fingerprint = ? order by
   * timestamp desc limit 1`: the greatest timestamp among the rows with this
   * fingerprint, or None when the query finds no row (`sql.ErrNoRows`).
   */
  function LatestSignup(table: seq<Row>, visitorId: string): (r: Option<int>)
    ensures r.None? <==> !HasFingerprint(table, visitorId)
    ensures r.Some? ==> exists i | 0 <= i < |table| ::
      table[i].fingerprint == visitorId && table[i].timestamp == r.value
    ensures r.Some? ==> forall i | 0 <= i < |table| && table[i].fingerprint == visitorId ::
      table[i].timestamp <= r.value
  {
    if |table| == 0 then None
    else
      var rest := LatestSignup(table[1..], visitorId);
      assert forall k | 0 <= k < |table| - 1 :: table[1..][k] == table[k + 1];
      if table[0].fingerprint != visitorId then rest
      else if rest.Some? && table[0].timestamp <= rest.value then rest
      else Some(table[0].timestamp)
  }

  /**
   * `Users.Check`: did a row with this fingerprint get written less than one
   * minute before `now`? `fault` is a failure of the query itself; a time
   * that does not parse cannot arise, since timestamps here are integers.
   */
  function Check(table: seq<Row>, visitorId: string, now: int, fault: Option<string>): (r: Result<bool, StoreError>)
    ensures r.Failure? <==> fault.Some?
    ensures r.Success? ==> (r.value <==> exists i | 0 <= i < |table| ::
      table[i].fingerprint == visitorId && WithinMinute(now, table[i].timestamp))
  {
    if fault.Some? then Failure(StorageError(fault.value))
    else match LatestSignup(table, visitorId)
      case None => Success(false)
      case Some(ts) => Success(WithinMinute(now, ts))
  }

  /**
   * The insert statement of `Users.Add`, run at clock `now`. `fault` is a
   * failure of the statement other than the uniqueness violation. The source
   * tells the two apart by the first 17 bytes of the error text
   * ("constraint failed"); that slice would panic on a shorter text, a case
   * this model does not reach because it keeps the two kinds of error apart.
   */
  function Insert(table: seq<Row>, email: string, visitorId: string, now: int, fault: Option<string>): (o: AddOutcome)
    ensures o.err.Some? <==> fault.Some?
    ensures o.err.Some? ==> o.status == "" && o.table == table
    ensures o.err.None? ==> o.status == ThankYou || o.status == AlreadySignedUp
    ensures o.status == ThankYou <==> fault.None? && !HasEmail(table, email)
    ensures o.table == if o.status == ThankYou then table + [Row(email, visitorId, Seconds(now))] else table
  {
    if fault.Some? then AddOutcome("", Some(StorageError(fault.value)), table)
    else if HasEmail(table, email) then AddOutcome(AlreadySignedUp, None, table)
    else AddOutcome(ThankYou, None, table + [Row(email, visitorId, Seconds(now))])
  }

  /** The users store: a handle on the table, which `Add` appends to. */
  class Users {
    var table: seq<Row>

    ghost predicate Valid()
      reads this
    {
      EmailsUnique(table)
    }

    /** `NewUsers`: opens the table, which may already hold rows from earlier runs. */
    constructor Open(existing: seq<Row>)
      requires EmailsUnique(existing)
      ensures Valid() && table == existing
    {
      table := existing;
    }

    /** `Users.Add`: stamps the row with `now` truncated to seconds and inserts it. */
    method Add(email: string, visitorId: string, now: int, fault: Option<string>) returns (status: string, err: Option<StoreError>)
      requires Valid()
      modifies this
      ensures Valid()
      ensures AddOutcome(status, err, table) == Insert(old(table), email, visitorId, now, fault)
    {
      var timestamp := Seconds(now);
      if fault.Some? {
        return "", Some(StorageError(fault.value));
      }
      if HasEmail(table, email) {
        // the uniqueness constraint rejects the row
        return AlreadySignedUp, None;
      }
      InsertKeepsEmailsUnique(table, email, visitorId, now, fault);
      table := table + [Row(email, visitorId, timestamp)];
      return ThankYou, None;
    }
  }

  // ---------------------------------------------------------------------
  // Properties of the clock window

  /** Comparing nanosecond readings equals comparing their whole seconds. */
  lemma WithinMinuteBySeconds(now: int, ts: int)
    ensures WithinMinute(now, ts) <==> Seconds(now) - ts < 60
  {
    var q, r := now / NanosPerSecond, now % NanosPerSecond;
    assert now == q * NanosPerSecond + r && 0 <= r < NanosPerSecond;
    if q - ts < 60 {
      assert q - ts <= 59;
      assert (q - ts) * NanosPerSecond <= 59 * NanosPerSecond;
    } else {
      assert (q - ts) * NanosPerSecond >= 60 * NanosPerSecond;
    }
  }

  /** A later row is recent whenever an earlier one is. */
  lemma WithinMinuteMonotone(now: int, ts: int, ts': int)
    requires ts <= ts' && WithinMinute(now, ts)
    ensures WithinMinute(now, ts')
  {
  }

  // ---------------------------------------------------------------------
  // Properties of Check

  /** Without a row for the fingerprint the answer is "not recent", with no error. */
  lemma CheckWithoutRow(table: seq<Row>, visitorId: string, now: int)
    requires !HasFingerprint(table, visitorId)
    ensures Check(table, visitorId, now, None) == Success(false)
  {
  }

  /**
   * Only the latest row for the fingerprint decides the answer: two tables
   * whose latest timestamps for it agree give the same answer, whatever
   * their other rows are.
   */
  lemma CheckSameLatest(table: seq<Row>, table': seq<Row>, visitorId: string, now: int)
    requires LatestSignup(table, visitorId) == LatestSignup(table', visitorId)
    ensures Check(table, visitorId, now, None) == Check(table', visitorId, now, None)
  {
  }

  /** Adding an older row with the same fingerprint changes nothing. */
  lemma {:induction false} CheckIgnoresOlderRows(table: seq<Row>, row: Row, now: int)
    requires HasFingerprint(table, row.fingerprint)
    requires LatestSignup(table, row.fingerprint).value >= row.timestamp
    ensures Check(table + [row], row.fingerprint, now, None) == Check(table, row.fingerprint, now, None)
  {
    var t := table + [row];
    var latest := LatestSignup(table, row.fingerprint).value;
    if WithinMinute(now, row.timestamp) {
      WithinMinuteMonotone(now, row.timestamp, latest);
      var i :| 0 <= i < |table| && table[i].fingerprint == row.fingerprint && table[i].timestamp == latest;
      assert t[i] == table[i];
    }
    assert forall i | 0 <= i < |table| :: t[i] == table[i];
    assert t[|table|] == row;
  }

  /** The window is strict: a row exactly one minute old is no longer recent. */
  lemma CheckBoundary(table: seq<Row>, visitorId: string, ts: int)
    requires LatestSignup(table, visitorId) == Some(ts)
    ensures Check(table, visitorId, (ts + 60) * NanosPerSecond, None) == Success(false)
    ensures Check(table, visitorId, (ts + 60) * NanosPerSecond - 1, None) == Success(true)
  {
  }

  // ---------------------------------------------------------------------
  // Properties of Add

  /** Every Add keeps the emails unique. */
  lemma InsertKeepsEmailsUnique(table: seq<Row>, email: string, visitorId: string, now: int, fault: Option<string>)
    requires EmailsUnique(table)
    ensures EmailsUnique(Insert(table, email, visitorId, now, fault).table)
  {
    var o := Insert(table, email, visitorId, now, fault);
    if o.status == ThankYou {
      assert forall i | 0 <= i < |table| :: table[i].email != email;
      assert o.table[|table|].email == email;
    }
  }

  /** Every Add is append-only: the old rows stay as they were, at most one row follows. */
  lemma InsertAppendOnly(table: seq<Row>, email: string, visitorId: string, now: int, fault: Option<string>)
    ensures table <= Insert(table, email, visitorId, now, fault).table
    ensures |Insert(table, email, visitorId, now, fault).table| <= |table| + 1
  {
  }

  /** A second Add of the same email is reported and leaves the table as it was. */
  lemma InsertTwice(table: seq<Row>, email: string, visitorId: string, visitorId': string, now: int, now': int)
    requires Insert(table, email, visitorId, now, None).err.None?
    ensures var first := Insert(table, email, visitorId, now, None).table;
      Insert(first, email, visitorId', now', None) == AddOutcome(AlreadySignedUp, None, first)
  {
    var first := Insert(table, email, visitorId, now, None).table;
    if !HasEmail(table, email) {
      assert first[|table|].email == email;
    }
    assert HasEmail(first, email);
  }

  /** Add never looks at fingerprints: status and error do not depend on the visitor ID. */
  lemma InsertIgnoresFingerprint(table: seq<Row>, email: string, visitorId: string, visitorId': string, now: int, fault: Option<string>)
    ensures Insert(table, email, visitorId, now, fault).status == Insert(table, email, visitorId', now, fault).status
    ensures Insert(table, email, visitorId, now, fault).err == Insert(table, email, visitorId', now, fault).err
  {
  }

  /** A new email is inserted even when its device signed up within the minute. */
  lemma InsertDespiteRecentDevice(table: seq<Row>, email: string, visitorId: string, now: int)
    requires !HasEmail(table, email)
    requires Check(table, visitorId, now, None) == Success(true)
    ensures Insert(table, email, visitorId, now, None).table == table + [Row(email, visitorId, Seconds(now))]
  {
  }

  /**
   * After a new row is written at clock `now`, Check answers true for its
   * fingerprint at every clock reading whose whole seconds are fewer than 60
   * past those of `now` (in particular at `now` itself).
   */
  lemma CheckAfterInsert(table: seq<Row>, email: string, visitorId: string, now: int, later: int)
    requires Insert(table, email, visitorId, now, None).status == ThankYou
    requires Seconds(later) - Seconds(now) < 60
    ensures Check(Insert(table, email, visitorId, now, None).table, visitorId, later, None) == Success(true)
  {
    var t := Insert(table, email, visitorId, now, None).table;
    assert t[|table|] == Row(email, visitorId, Seconds(now));
    WithinMinuteBySeconds(later, Seconds(now));
  }
}
