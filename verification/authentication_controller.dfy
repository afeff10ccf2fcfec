/**
 * The login lockout kept by the login handler: a table from email to the
 * number of failed attempts and the time of the last one. After five
 * failures an email is refused for thirty minutes counted from its last
 * failed attempt, before its credentials are looked at. The clock reading
 * (`now`, in milliseconds) and what the credential check does (`check`) are
 * parameters.
 */
module AuthenticationController {
  import opened JsMath

  const MaxAttempts: int := 5
  const AttemptWindow: int := 30 * 60 * 1000
  const MinuteMillis: int := 60000

  datatype Attempt = Attempt(attempts: int, lastAttempt: int)

  /** What the credential check does: accept, reject, or throw. */
  datatype CredentialCheck = Accepted | Rejected | Throws

  /**
   * The reply of one login: FORBIDDEN with the minutes left,
   * INVALID_CREDENTIALS, success, or the credential check's own error passed
   * on to the next handler.
   */
  datatype LoginOutcome = Forbidden(remainingMinutes: int) | InvalidCredentials | LoggedIn | CheckFailed

  datatype LoginReply = LoginReply(table: map<string, Attempt>, outcome: LoginOutcome)

  /** The email has used up its attempts and its last failure is less than the window ago. */
  predicate Locked(table: map<string, Attempt>, email: string, now: int)
  {
    email in table && table[email].attempts >= MaxAttempts && now - table[email].lastAttempt < AttemptWindow
  }

  /** Every stored count lies between one and the maximum. */
  ghost predicate AttemptsBounded(table: map<string, Attempt>)
  {
    forall e :: e in table ==> 1 <= table[e].attempts <= MaxAttempts
  }

  /** Whole minutes left of the window, rounded up, after `elapsed` milliseconds. */
  function RemainingMinutes(elapsed: int): (m: int)
    ensures (m - 1) * MinuteMillis < AttemptWindow - elapsed <= m * MinuteMillis
    ensures 0 <= elapsed < AttemptWindow ==> 1 <= m <= 30
  {
    CeilDiv(AttemptWindow - elapsed, MinuteMillis)
  }

  /** Specification of one call of the login handler on the attempts table. */
  function LoginStep(table: map<string, Attempt>, email: string, now: int, check: CredentialCheck): (r: LoginReply)
    ensures Locked(table, email, now) ==>
              r == LoginReply(table, Forbidden(RemainingMinutes(now - table[email].lastAttempt)))
    ensures !Locked(table, email, now) && check == Accepted ==> r == LoginReply(table - {email}, LoggedIn)
    ensures !Locked(table, email, now) && check == Throws ==>
              && r.outcome == CheckFailed
              && (email in r.table <==> email in table && table[email].attempts < MaxAttempts)
              && (email in r.table ==> r.table[email] == table[email])
    ensures !Locked(table, email, now) && check == Rejected ==>
              && r.outcome == InvalidCredentials
              && r.table.Keys == table.Keys + {email}
              && r.table[email] == Attempt(if email in table && table[email].attempts < MaxAttempts
                                           then table[email].attempts + 1 else 1, now)
    ensures forall e :: e != email ==> (e in r.table <==> e in table)
    ensures forall e :: e != email && e in table ==> r.table[e] == table[e]
    ensures AttemptsBounded(table) ==> AttemptsBounded(r.table)
  {
    if Locked(table, email, now) then
      LoginReply(table, Forbidden(RemainingMinutes(now - table[email].lastAttempt)))
    else
      var cleared := if email in table && table[email].attempts >= MaxAttempts then table - {email} else table;
      match check
      case Throws => LoginReply(cleared, CheckFailed)
      case Rejected =>
        var entry := if email !in cleared then Attempt(1, now) else Attempt(cleared[email].attempts + 1, now);
        LoginReply(cleared[email := entry], InvalidCredentials)
      case Accepted => LoginReply(cleared - {email}, LoggedIn)
  }

  /** The process-wide attempts table and the login handler that consults and updates it. */
  class LoginGuard {
    var loginAttempts: map<string, Attempt>

    constructor ()
      ensures loginAttempts == map[]
    {
      loginAttempts := map[];
    }

    method Login(email: string, now: int, check: CredentialCheck) returns (outcome: LoginOutcome)
      modifies this
      ensures LoginReply(loginAttempts, outcome) == LoginStep(old(loginAttempts), email, now, check)
    {
      if email in loginAttempts && loginAttempts[email].attempts >= MaxAttempts {
        if now - loginAttempts[email].lastAttempt < AttemptWindow {
          var remainingTime := RemainingMinutes(now - loginAttempts[email].lastAttempt);
          return Forbidden(remainingTime);
        } else {
          loginAttempts := loginAttempts - {email};
        }
      }

      if check == Throws {
        return CheckFailed;
      }

      if check == Rejected {
        if email !in loginAttempts {
          loginAttempts := loginAttempts[email := Attempt(1, now)];
        } else {
          var entry := loginAttempts[email];
          loginAttempts := loginAttempts[email := entry.(attempts := entry.attempts + 1, lastAttempt := now)];
        }
        return InvalidCredentials;
      }

      loginAttempts := loginAttempts - {email};
      return LoggedIn;
    }
  }

  /** The table after a run of failed logins of one email at the given times. */
  function Failures(table: map<string, Attempt>, email: string, times: seq<int>): map<string, Attempt>
    decreases |times|
  {
    if times == [] then table else Failures(LoginStep(table, email, times[0], Rejected).table, email, times[1..])
  }

  function PriorAttempts(table: map<string, Attempt>, email: string): int
  {
    if email in table then table[email].attempts else 0
  }

  /** Failures short of the limit are counted one by one, whatever their timing. */
  lemma {:induction false} FailuresCount(table: map<string, Attempt>, email: string, times: seq<int>)
    requires times != []
    requires 0 <= PriorAttempts(table, email) && PriorAttempts(table, email) + |times| <= MaxAttempts
    ensures email in Failures(table, email, times)
    ensures Failures(table, email, times)[email] == Attempt(PriorAttempts(table, email) + |times|, times[|times| - 1])
    decreases |times|
  {
    var next := LoginStep(table, email, times[0], Rejected).table;
    assert !Locked(table, email, times[0]);
    if |times| > 1 {
      FailuresCount(next, email, times[1..]);
    }
  }

  /** Five failures lock the email: within the window of the last one even correct credentials are refused. */
  lemma FiveFailuresLock(table: map<string, Attempt>, email: string, times: seq<int>, now: int, check: CredentialCheck)
    requires email !in table && |times| == MaxAttempts
    requires 0 <= now - times[MaxAttempts - 1] < AttemptWindow
    ensures LoginStep(Failures(table, email, times), email, now, check).outcome.Forbidden?
  {
    FailuresCount(table, email, times);
  }
}
