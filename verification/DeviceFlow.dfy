/** The OAuth device flow (auth/device.go; sections 3.4 and 3.5 of RFC 8628): the stored rows against
    the history of requests, decisions and polls. */
module DeviceFlow {
  import opened Strings
  import opened UserCode
  import opened Scopes
  import opened ScopeTable

  // Instants and durations, in nanoseconds.
  type Time = int

  const SECOND := 1_000_000_000
  const TTL := 15 * 60 * SECOND
  const FIRST_INTERVAL := 5
  const SLOW_DOWN_STEP := 5

  /** A decision; approving as user 0 stores no user. */
  datatype Verdict = Approved(user: int) | Denied

  datatype Outcome = Pending | SlowDown(interval: int) | Expired | AccessDenied | Token(user: int, scopes: seq<Scope>) {
    /** The poll was not turned away for its timing. */
    predicate Accepted() { Pending? || AccessDenied? || Token? }
    /** The row is deleted with this answer. */
    predicate Final() { Expired? || AccessDenied? || Token? }
  }

  // What happened to known device codes, oldest first.
  datatype Event =
    | Requested(code: string, app: int, userCode: string, scopes: seq<Scope>, at: Time)
    | Decided(code: string, verdict: Verdict, at: Time)
    | Polled(code: string, at: Time, outcome: Outcome)

  type Log = seq<Event>

  // ---- What the history of a code says ----

  function Opened(log: Log, c: string): Option<Event> {
    if log == [] then None
    else if log[|log| - 1].Requested? && log[|log| - 1].code == c then Some(log[|log| - 1])
    else Opened(log[..|log| - 1], c)
  }

  /** The answer that ended the session was given. */
  predicate Spent(log: Log, c: string) {
    log != [] && ((log[|log| - 1].code == c && log[|log| - 1].Polled? && log[|log| - 1].outcome.Final()) || Spent(log[..|log| - 1], c))
  }

  function Count(log: Log, c: string, counts: Outcome -> bool): nat {
    if log == [] then 0
    else
      var e := log[|log| - 1];
      Count(log[..|log| - 1], c, counts) + if e.Polled? && e.code == c && counts(e.outcome) then 1 else 0
  }

  function SlowDowns(log: Log, c: string): nat { Count(log, c, (o: Outcome) => o.SlowDown?) }

  function LastAccepted(log: Log, c: string): Option<Time> {
    if log == [] then None
    else
      var e := log[|log| - 1];
      if e.Polled? && e.code == c && e.outcome.Accepted() then Some(e.at) else LastAccepted(log[..|log| - 1], c)
  }

  function Decision(log: Log, c: string): Option<Verdict> {
    if log == [] then None
    else
      var e := log[|log| - 1];
      if e.Decided? && e.code == c then Some(e.verdict) else Decision(log[..|log| - 1], c)
  }

  function Interval(log: Log, c: string): int { FIRST_INTERVAL + SLOW_DOWN_STEP * SlowDowns(log, c) }

  /** What the last decision gives an accepted poll. */
  function Settled(log: Log, c: string): Outcome
    requires Opened(log, c).Some? && Opened(log, c).value.Requested?
  {
    match Decision(log, c)
    case None => Pending
    case Some(Denied) => AccessDenied
    case Some(Approved(user)) => if user == 0 then Pending else Token(user, Opened(log, c).value.scopes)
  }

  /** The answer the protocol owes a poll, from the history alone. */
  function Answer(log: Log, c: string, at: Time): Outcome
    requires Opened(log, c).Some? && Opened(log, c).value.Requested?
  {
    var last := LastAccepted(log, c);
    if Opened(log, c).value.at + TTL < at then Expired
    else if last.Some? && at - last.value < Interval(log, c) * SECOND then SlowDown(Interval(log, c) + SLOW_DOWN_STEP)
    else Settled(log, c)
  }

  /** The normal form of some scopes, over the shipped table. */
  ghost predicate IsNormal(scopes: seq<Scope>) { exists input :: Normal(ScopeImplies, Standalone, input, scopes) }

  ghost predicate Allowed(log: Log, e: Event) {
    match e
    case Requested(c, _, _, scopes, _) => Opened(log, c).None? && IsNormal(scopes)
    case Decided(c, _, at) => Opened(log, c).Some? && !Spent(log, c) && at <= Opened(log, c).value.at + TTL
    case Polled(c, at, outcome) =>
      Opened(log, c).Some? && Opened(log, c).value.Requested? && !Spent(log, c) && outcome == Answer(log, c, at)
  }

  /** Every event was what its history calls for. */
  ghost predicate Lawful(log: Log) { forall k :: 0 <= k < |log| ==> Allowed(log[..k], log[k]) }

  // ---- The rows ----

  datatype State = IsPending | IsApproved | IsDenied

  datatype Row = Row(app: int, userCode: string, scopes: string, state: State, user: Option<int>, interval: int, lastPolled: Option<Time>, expiresAt: Time)

  function StateOf(d: Option<Verdict>): State {
    match d
    case None => IsPending
    case Some(Denied) => IsDenied
    case Some(Approved(_)) => IsApproved
  }

  function UserOf(d: Option<Verdict>): Option<int> {
    if d.Some? && d.value.Approved? && d.value.user != 0 then Some(d.value.user) else None
  }

  /** The row a code's history leaves. */
  function RowOf(log: Log, c: string): Row
    requires Opened(log, c).Some? && Opened(log, c).value.Requested?
  {
    var r := Opened(log, c).value;
    Row(r.app, r.userCode, Header(r.scopes), StateOf(Decision(log, c)), UserOf(Decision(log, c)), Interval(log, c), LastAccepted(log, c), r.at + TTL)
  }

  lemma {:induction false} OpenedIsRequest(log: Log, c: string)
    ensures Opened(log, c).Some? ==> Opened(log, c).value.Requested? && Opened(log, c).value.code == c
  {
    if log != [] {
      OpenedIsRequest(log[..|log| - 1], c);
    }
  }

  ghost predicate RowsMatch(rows: map<string, Row>, log: Log) {
    && (forall c :: c in rows <==> Opened(log, c).Some? && !Spent(log, c))
    && (forall c :: c in rows ==> Opened(log, c).value.Requested? && rows[c] == RowOf(log, c))
    && (forall c, d :: c in rows && d in rows && rows[c].userCode == rows[d].userCode ==> c == d)
  }

  lemma OthersKeep(log: Log, e: Event, c: string)
    requires c != e.code
    ensures Opened(log + [e], c) == Opened(log, c) && Spent(log + [e], c) == Spent(log, c)
    ensures Opened(log, c).Some? && Opened(log, c).value.Requested? ==> RowOf(log + [e], c) == RowOf(log, c)
  {
    assert (log + [e])[..|log|] == log;
  }

  /** Storing the effect of one event on its own row keeps all rows in step. */
  lemma RowsStep(rows: map<string, Row>, log: Log, e: Event, after: map<string, Row>)
    requires RowsMatch(rows, log)
    requires forall c :: c != e.code ==> (c in after <==> c in rows) && (c in rows ==> after[c] == rows[c])
    requires e.code in after <==> Opened(log + [e], e.code).Some? && !Spent(log + [e], e.code)
    requires e.code in after ==> Opened(log + [e], e.code).value.Requested? && after[e.code] == RowOf(log + [e], e.code)
    requires e.code in after ==> forall c :: c in rows && rows[c].userCode == after[e.code].userCode ==> c == e.code
    ensures RowsMatch(after, log + [e])
  {
    forall c | c != e.code
      ensures c in after <==> Opened(log + [e], c).Some? && !Spent(log + [e], c)
      ensures c in after ==> Opened(log + [e], c).value.Requested? && after[c] == RowOf(log + [e], c)
    {
      OthersKeep(log, e, c);
    }
  }

  /** What one more event does to its own code's history. */
  lemma OwnHistory(log: Log, e: Event)
    ensures var c := e.code;
            && Opened(log + [e], c) == (if e.Requested? then Some(e) else Opened(log, c))
            && Spent(log + [e], c) == (Spent(log, c) || (e.Polled? && e.outcome.Final()))
            && SlowDowns(log + [e], c) == SlowDowns(log, c) + (if e.Polled? && e.outcome.SlowDown? then 1 else 0)
            && LastAccepted(log + [e], c) == (if e.Polled? && e.outcome.Accepted() then Some(e.at) else LastAccepted(log, c))
            && Decision(log + [e], c) == (if e.Decided? then Some(e.verdict) else Decision(log, c))
  {
    assert (log + [e])[..|log|] == log;
  }

  /** The row a poll leaves, when it leaves one. */
  lemma PolledRow(log: Log, c: string, now: Time, outcome: Outcome)
    requires Opened(log, c).Some? && Opened(log, c).value.Requested?
    ensures var after, e := log + [Polled(c, now, outcome)], RowOf(log, c);
            && Opened(after, c) == Opened(log, c) && Spent(after, c) == (Spent(log, c) || outcome.Final())
            && RowOf(after, c) == if outcome.SlowDown? then e.(interval := e.interval + SLOW_DOWN_STEP)
                                  else if outcome.Accepted() then e.(lastPolled := Some(now)) else e
  {
    OwnHistory(log, Polled(c, now, outcome));
  }

  /** The row a decision leaves. */
  lemma DecidedRow(log: Log, c: string, verdict: Verdict, now: Time)
    requires Opened(log, c).Some? && Opened(log, c).value.Requested?
    ensures var after, e := log + [Decided(c, verdict, now)], RowOf(log, c);
            && Opened(after, c) == Opened(log, c) && Spent(after, c) == Spent(log, c)
            && RowOf(after, c) == e.(state := StateOf(Some(verdict)), user := UserOf(Some(verdict)))
  {
    OwnHistory(log, Decided(c, verdict, now));
  }

  /** A user code names an unexpired row. */
  ghost predicate Live(rows: map<string, Row>, userCode: string, now: Time, c: string) {
    c in rows && rows[c].userCode == userCode && now <= rows[c].expiresAt
  }

  lemma OpenedIsNormal(log: Log, c: string)
    requires Lawful(log) && Opened(log, c).Some?
    ensures Opened(log, c).value.Requested? && IsNormal(Opened(log, c).value.scopes)
  {
    var r := OpenedAt(log, c);
    assert Allowed(log[..r], log[r]);
  }

  /** An OAuth app, as far as the device flow looks at it. */
  datatype App = App(pk: int, deviceFlow: bool)

  datatype Opening = UnknownClient | FlowDisabled | CodeTaken | Sent

  datatype Reply = BadClient | BadCode | Answered(outcome: Outcome)

  class Service {
    var rows: map<string, Row>
    ghost var log: Log

    ghost predicate Valid()
      reads this
    {
      RowsMatch(rows, log) && Lawful(log)
    }

    constructor ()
      ensures Valid() && log == [] && rows == map[]
    {
      rows, log := map[], [];
    }

    /** RequestDeviceCode with the two random codes: the scopes asked for are stored in normal form, as a
        header; a user code in use fails the insert. */
    method RequestDeviceCode(app: Option<App>, scopeParam: string, code: string, userCode: string, now: Time)
      returns (r: Opening, scopes: seq<Scope>)
      requires Valid() && Opened(log, code).None?
      modifies this
      ensures Valid()
      ensures r == if app.None? then UnknownClient else if !app.value.deviceFlow then FlowDisabled
                   else if exists c :: c in old(rows) && old(rows)[c].userCode == userCode then CodeTaken else Sent
      ensures r != Sent ==> log == old(log) && rows == old(rows)
      ensures r == Sent ==> Normal(ScopeImplies, Standalone, ParseScopeParam(scopeParam), scopes)
      ensures r == Sent ==> log == old(log) + [Requested(code, app.value.pk, userCode, scopes, now)]
    {
      scopes := [];
      if app.None? {
        return UnknownClient, [];
      }
      if !app.value.deviceFlow {
        return FlowDisabled, [];
      }
      scopes := NormalizeShipped(ParseScopeParam(scopeParam));
      if exists c :: c in rows && rows[c].userCode == userCode {
        return CodeTaken, scopes;
      }
      Unheard(log, code);
      rows := rows[code := Row(app.value.pk, userCode, Header(scopes), IsPending, None, FIRST_INTERVAL, None, now + TTL)];
      OwnHistory(log, Requested(code, app.value.pk, userCode, scopes, now));
      RowsStep(old(rows), log, Requested(code, app.value.pk, userCode, scopes, now), rows);
      Extend(Requested(code, app.value.pk, userCode, scopes, now));
      return Sent, scopes;
    }

    /** One more event, whose effect on the rows has just been stored. */
    ghost method Extend(e: Event)
      requires Lawful(log) && Allowed(log, e)
      modifies this`log
      ensures log == old(log) + [e] && Lawful(log)
    {
      forall k | 0 <= k < |log + [e]| ensures Allowed((log + [e])[..k], (log + [e])[k]) {
        assert (log + [e])[..k] == if k < |log| then log[..k] else log;
      }
      log := log + [e];
    }

    /** ApproveDeviceCode and DenyDeviceCode: the live session behind a typed code takes the new verdict, over any older one. */
    method Decide(typed: string, verdict: Verdict, now: Time) returns (found: bool)
      requires Valid()
      modifies this
      ensures Valid()
      ensures found <==> exists c :: Live(old(rows), Normalized(typed), now, c)
      ensures log == old(log) || exists c :: Live(old(rows), Normalized(typed), now, c) && log == old(log) + [Decided(c, verdict, now)]
      ensures found <==> log != old(log)
    {
      var userCode := NormalizeUserCode(typed);
      if !exists c :: c in rows && rows[c].userCode == userCode {
        return false;
      }
      var c :| c in rows && rows[c].userCode == userCode;
      if rows[c].expiresAt < now {
        return false;
      }
      var state := if verdict.Approved? then IsApproved else IsDenied;
      var user := if verdict.Approved? && verdict.user != 0 then Some(verdict.user) else None;
      rows := rows[c := rows[c].(state := state, user := user)];
      DecidedRow(log, c, verdict, now);
      assert Live(old(rows), userCode, now, c);
      RowsStep(old(rows), log, Decided(c, verdict, now), rows);
      Extend(Decided(c, verdict, now));
      return true;
    }

    /** The scopes of a token, read back from the stored header: those that were asked for. */
    method StoredScopes(code: string) returns (scopes: seq<Scope>)
      requires Lawful(log) && Opened(log, code).Some? && Opened(log, code).value.Requested?
      requires code in rows && rows[code].scopes == Header(Opened(log, code).value.scopes)
      ensures scopes == Opened(log, code).value.scopes
    {
      scopes := NormalizeShipped(ParseScopeParam(rows[code].scopes));
      OpenedIsNormal(log, code);
      ghost var input :| Normal(ScopeImplies, Standalone, input, Opened(log, code).value.scopes);
      ShippedNormalSurvivesHeader(input, Opened(log, code).value.scopes, scopes);
    }

    /** PollDeviceToken. */
    method PollDeviceToken(app: Option<int>, code: string, now: Time) returns (r: Reply)
      requires Valid()
      modifies this
      ensures Valid()
      ensures app.None? ==> r == BadClient
      ensures app.Some? && (code !in old(rows) || old(rows)[code].app != app.value) ==> r == BadCode
      ensures app.Some? && code in old(rows) && old(rows)[code].app == app.value ==> r == Answered(Answer(old(log), code, now))
      ensures log == old(log) + if r.Answered? then [Polled(code, now, r.outcome)] else []
    {
      if app.None? {
        return BadClient;
      }
      if code !in rows || rows[code].app != app.value {
        return BadCode;
      }
      var outcome := AnswerPoll(code, now);
      Extend(Polled(code, now, outcome));
      return Answered(outcome);
    }

    /** The poll of a row that stands. */
    method AnswerPoll(code: string, now: Time) returns (outcome: Outcome)
      requires Valid() && code in rows
      modifies this`rows
      ensures outcome == Answer(log, code, now) && RowsMatch(rows, log + [Polled(code, now, outcome)])
    {
      var row := rows[code];
      if row.expiresAt < now {
        rows := rows - {code};
        outcome := Expired;
      } else if row.lastPolled.Some? && now - row.lastPolled.value < row.interval * SECOND {
        rows := rows[code := row.(interval := row.interval + SLOW_DOWN_STEP)];
        outcome := SlowDown(row.interval + SLOW_DOWN_STEP);
      } else {
        rows := rows[code := row.(lastPolled := Some(now))];
        outcome := Settle(code);
      }
      PolledRow(log, code, now, outcome);
      RowsStep(old(rows), log, Polled(code, now, outcome), rows);
    }

    /** The switch on the state of an accepted poll; only a pending row stays. */
    method Settle(code: string) returns (outcome: Outcome)
      requires Lawful(log) && Opened(log, code).Some? && Opened(log, code).value.Requested?
      requires code in rows && rows[code].(lastPolled := LastAccepted(log, code)) == RowOf(log, code)
      modifies this`rows
      ensures outcome == Settled(log, code)
      ensures rows == if outcome == Pending then old(rows) else old(rows) - {code}
    {
      var row := rows[code];
      match row.state
      case IsPending => outcome := Pending;
      case IsDenied =>
        rows := rows - {code};
        outcome := AccessDenied;
      case IsApproved =>
        if row.user.None? {
          outcome := Pending;
        } else {
          var scopes := StoredScopes(code);
          rows := rows - {code};
          outcome := Token(row.user.value, scopes);
        }
    }
  }

  lemma {:induction false} Unheard(log: Log, c: string)
    requires Lawful(log) && Opened(log, c).None?
    ensures !Spent(log, c) && LastAccepted(log, c).None? && Decision(log, c).None? && SlowDowns(log, c) == 0
  {
    if log != [] {
      var front := log[..|log| - 1];
      assert forall k :: 0 <= k < |front| ==> front[..k] == log[..k];
      Unheard(front, c);
      assert Allowed(front, log[|log| - 1]);
    }
  }

  // ---- What every lawful history keeps ----

  lemma LawfulPrefix(log: Log, k: nat)
    requires Lawful(log) && k <= |log|
    ensures Lawful(log[..k])
  {
    forall j | 0 <= j < k ensures Allowed(log[..k][..j], log[..k][j]) {
      assert log[..k][..j] == log[..j];
    }
  }

  function Tokens(log: Log, c: string): nat { Count(log, c, (o: Outcome) => o.Token?) }

  /** A device code yields at most one token, and none while its row still stands. */
  lemma {:induction false} OneToken(log: Log, c: string)
    requires Lawful(log)
    ensures Tokens(log, c) <= 1 && (!Spent(log, c) ==> Tokens(log, c) == 0)
  {
    if log != [] {
      var front := log[..|log| - 1];
      LawfulPrefix(log, |log| - 1);
      OneToken(front, c);
      assert Allowed(front, log[|log| - 1]);
    }
  }

  /** The last decision on a code before the end of the log. */
  ghost predicate LastDecidedAt(log: Log, c: string, d: int) {
    0 <= d < |log| && log[d].Decided? && log[d].code == c && forall k :: d < k < |log| ==> !(log[k].Decided? && log[k].code == c)
  }

  lemma {:induction false} DecisionIsLast(log: Log, c: string) returns (d: int)
    requires Decision(log, c).Some?
    ensures LastDecidedAt(log, c, d) && log[d].verdict == Decision(log, c).value
  {
    var e := log[|log| - 1];
    if e.Decided? && e.code == c {
      d := |log| - 1;
    } else {
      d := DecisionIsLast(log[..|log| - 1], c);
    }
  }

  lemma {:induction false} OpenedAt(log: Log, c: string) returns (r: int)
    requires Opened(log, c).Some?
    ensures 0 <= r < |log| && log[r].Requested? && log[r].code == c && log[r] == Opened(log, c).value
  {
    var e := log[|log| - 1];
    if e.Requested? && e.code == c {
      r := |log| - 1;
    } else {
      r := OpenedAt(log[..|log| - 1], c);
    }
  }

  /** A token goes out only to the user of the last decision, an approval, within the lifetime that the
      request opened. */
  lemma TokenNeedsApproval(log: Log, k: nat) returns (r: int, d: int)
    requires Lawful(log) && k < |log| && log[k].Polled? && log[k].outcome.Token?
    ensures 0 <= r < k && log[r].Requested? && log[r].code == log[k].code && log[k].at <= log[r].at + TTL
    ensures LastDecidedAt(log[..k], log[k].code, d) && log[d].verdict == Approved(log[k].outcome.user) && log[k].outcome.user != 0
    ensures log[k].outcome.scopes == log[r].scopes
  {
    assert Allowed(log[..k], log[k]);
    r := OpenedAt(log[..k], log[k].code);
    d := DecisionIsLast(log[..k], log[k].code);
  }

  /** The answer to a slow poll names the interval kept from then on: five seconds more than before. */
  lemma SlowDownNamesInterval(log: Log, k: nat)
    requires Lawful(log) && k < |log| && log[k].Polled? && log[k].outcome.SlowDown?
    ensures log[k].outcome.interval == Interval(log[..k + 1], log[k].code) == Interval(log[..k], log[k].code) + SLOW_DOWN_STEP
  {
    assert Allowed(log[..k], log[k]);
    assert log[..k + 1][..k] == log[..k];
  }

  ghost predicate AcceptedPoll(log: Log, c: string, k: int) {
    0 <= k < |log| && log[k].Polled? && log[k].code == c && log[k].outcome.Accepted()
  }

  lemma {:induction false} LastAcceptedAt(log: Log, c: string, i: nat)
    requires AcceptedPoll(log, c, i) && forall k :: i < k < |log| ==> !AcceptedPoll(log, c, k)
    ensures LastAccepted(log, c) == Some(log[i].at)
  {
    if i < |log| - 1 {
      var front := log[..|log| - 1];
      assert !AcceptedPoll(log, c, |log| - 1);
      forall k | i < k < |front| ensures !AcceptedPoll(front, c, k) { assert !AcceptedPoll(log, c, k); }
      LastAcceptedAt(front, c, i);
    }
  }

  /** Two accepted polls in a row are at least the interval in force at the second one apart. */
  lemma PollsAreSpaced(log: Log, c: string, i: nat, j: nat)
    requires Lawful(log) && i < j && AcceptedPoll(log, c, i) && AcceptedPoll(log, c, j)
    requires forall k :: i < k < j ==> !AcceptedPoll(log, c, k)
    ensures log[j].at - log[i].at >= (FIRST_INTERVAL + SLOW_DOWN_STEP * SlowDowns(log[..j], c)) * SECOND
  {
    assert Allowed(log[..j], log[j]);
    assert AcceptedPoll(log[..j], c, i);
    forall k | i < k < j ensures !AcceptedPoll(log[..j], c, k) { assert !AcceptedPoll(log, c, k); }
    LastAcceptedAt(log[..j], c, i);
  }

  // ---- The exact answer ----

  /** The poll at `k` comes sooner after the last accepted one than the interval in force: five seconds, and
      five more for every slow_down so far. */
  ghost predicate TooSoon(log: Log, c: string, k: nat)
    requires k < |log| && log[k].Polled?
  {
    exists i :: LastAcceptedIs(log, c, k, i) && log[k].at - log[i].at < (5 + 5 * SlowDowns(log[..k], c)) * SECOND
  }

  /** The last accepted poll before index `k`. */
  ghost predicate LastAcceptedIs(log: Log, c: string, k: nat, i: int)
    requires k <= |log|
  {
    i < k && AcceptedPoll(log, c, i) && forall j :: i < j < k ==> !AcceptedPoll(log, c, j)
  }

  ghost predicate LastVerdict(log: Log, c: string, k: nat, verdict: Verdict)
    requires k <= |log|
  {
    exists d :: LastDecidedAt(log[..k], c, d) && log[d].verdict == verdict
  }

  lemma {:induction false} AcceptedExactly(log: Log, c: string)
    ensures LastAccepted(log, c).None? <==> forall i :: !AcceptedPoll(log, c, i)
    ensures forall i :: LastAcceptedIs(log, c, |log|, i) ==> LastAccepted(log, c) == Some(log[i].at)
    ensures LastAccepted(log, c).Some? ==> exists i :: LastAcceptedIs(log, c, |log|, i)
  {
    forall i | LastAcceptedIs(log, c, |log|, i) ensures LastAccepted(log, c) == Some(log[i].at) { LastAcceptedAt(log, c, i); }
    if log != [] {
      var n := |log| - 1;
      var front := log[..n];
      AcceptedExactly(front, c);
      forall i ensures AcceptedPoll(log, c, i) <==> AcceptedPoll(front, c, i) || (i == n && AcceptedPoll(log, c, n)) { }
      if AcceptedPoll(log, c, n) {
        assert LastAcceptedIs(log, c, |log|, n);
      } else if LastAccepted(front, c).Some? {
        var i :| LastAcceptedIs(front, c, n, i);
        assert LastAcceptedIs(log, c, |log|, i);
      }
    }
  }

  lemma SoonExactly(log: Log, c: string, k: nat)
    requires k < |log| && log[k].Polled?
    ensures TooSoon(log, c, k) <==>
              LastAccepted(log[..k], c).Some? && log[k].at - LastAccepted(log[..k], c).value < Interval(log[..k], c) * SECOND
  {
    var front := log[..k];
    AcceptedExactly(front, c);
    forall i ensures LastAcceptedIs(log, c, k, i) <==> LastAcceptedIs(front, c, k, i) {
      assert forall j :: j < k ==> (AcceptedPoll(log, c, j) <==> AcceptedPoll(front, c, j));
    }
    if LastAccepted(front, c).Some? {
      var i :| LastAcceptedIs(front, c, k, i);
      assert LastAcceptedIs(log, c, k, i);
    }
  }

  lemma {:induction false} DecisionExactly(log: Log, c: string, verdict: Verdict)
    ensures Decision(log, c) == Some(verdict) <==> LastVerdict(log, c, |log|, verdict)
  {
    assert log[..|log|] == log;
    if log != [] {
      var n := |log| - 1;
      var front := log[..n];
      DecisionExactly(front, c, verdict);
      assert front[..n] == front;
      if log[n].Decided? && log[n].code == c {
        assert LastDecidedAt(log, c, n);
      } else {
        forall d ensures LastDecidedAt(log, c, d) <==> LastDecidedAt(front, c, d) { }
        if LastVerdict(front, c, n, verdict) {
          var d :| LastDecidedAt(front, c, d) && front[d].verdict == verdict;
          assert LastDecidedAt(log, c, d);
        }
      }
    }
  }

  lemma {:induction false} OneRequest(log: Log, c: string, r: nat)
    requires Lawful(log) && r < |log| && log[r].Requested? && log[r].code == c
    ensures Opened(log, c) == Some(log[r])
  {
    var n := |log| - 1;
    if r < n {
      LawfulPrefix(log, n);
      OneRequest(log[..n], c, r);
      assert Allowed(log[..n], log[n]);
    }
  }

  /** Every poll of a lawful history, in terms of what came before it: expired past the lifetime; else
      slow_down when it comes too soon; else denied or a token by the last decision, for whom it named and
      with the scopes of the request; else pending. */
  lemma AnsweredExactly(log: Log, k: nat, r: nat)
    requires Lawful(log) && k < |log| && log[k].Polled?
    requires r < k && log[r].Requested? && log[r].code == log[k].code
    ensures var c, late := log[k].code, log[k].at > log[r].at + 900 * SECOND;
            && (log[k].outcome.Expired? <==> late)
            && (log[k].outcome.SlowDown? <==> !late && TooSoon(log, c, k))
            && (log[k].outcome.AccessDenied? <==> !late && !TooSoon(log, c, k) && LastVerdict(log, c, k, Denied))
            && (forall user, scopes :: log[k].outcome == Token(user, scopes) <==>
                  !late && !TooSoon(log, c, k) && LastVerdict(log, c, k, Approved(user)) && user != 0 && scopes == log[r].scopes)
  {
    var c, front := log[k].code, log[..k];
    assert Allowed(front, log[k]);
    LawfulPrefix(log, k);
    OneRequest(front, c, r);
    SoonExactly(log, c, k);
    VerdictExactly(log, c, k);
  }

  /** And each polled code was requested before. */
  lemma PolledWasRequested(log: Log, k: nat)
    requires Lawful(log) && k < |log| && log[k].Polled?
    ensures exists r :: 0 <= r < k && log[r].Requested? && log[r].code == log[k].code
  {
    assert Allowed(log[..k], log[k]);
    var r := OpenedAt(log[..k], log[k].code);
  }

  lemma VerdictExactly(log: Log, c: string, k: nat)
    requires k < |log|
    ensures forall verdict :: Decision(log[..k], c) == Some(verdict) <==> LastVerdict(log, c, k, verdict)
  {
    assert log[..k][..k] == log[..k];
    forall verdict ensures Decision(log[..k], c) == Some(verdict) <==> LastVerdict(log, c, k, verdict) {
      DecisionExactly(log[..k], c, verdict);
    }
  }

  /** Expired, denied and token answers end the session: nothing happens to the code after them. */
  lemma FinalEnds(log: Log, i: nat, j: nat)
    requires Lawful(log) && i < j < |log| && log[i].code == log[j].code && log[i].Polled?
    ensures log[i].outcome.Pending? || log[i].outcome.SlowDown?
  {
    assert Allowed(log[..j], log[j]);
    if !log[i].outcome.Pending? && !log[i].outcome.SlowDown? {
      SpentAfter(log[..j], log[i].code, i);
      assert Allowed(log[..i], log[i]);
      assert log[..j][..i] == log[..i];
      OpenedStays(log[..j], log[i].code, i);
    }
  }

  lemma {:induction false} SpentAfter(log: Log, c: string, i: nat)
    requires i < |log| && log[i].Polled? && log[i].code == c
    requires log[i].outcome.Expired? || log[i].outcome.AccessDenied? || log[i].outcome.Token?
    ensures Spent(log, c)
  {
    if i < |log| - 1 {
      SpentAfter(log[..|log| - 1], c, i);
    }
  }

  lemma {:induction false} OpenedStays(log: Log, c: string, i: nat)
    requires i < |log| && Opened(log[..i], c).Some?
    ensures Opened(log, c).Some?
  {
    if i < |log| - 1 {
      assert log[..|log| - 1][..i] == log[..i];
      OpenedStays(log[..|log| - 1], c, i);
    }
  }

  /** A row stands exactly for a code that was requested and got no such answer. */
  lemma RowStandsExactly(rows: map<string, Row>, log: Log, c: string)
    requires RowsMatch(rows, log)
    ensures c in rows <==>
              (exists r :: 0 <= r < |log| && log[r].Requested? && log[r].code == c)
              && forall i :: 0 <= i < |log| && log[i].Polled? && log[i].code == c ==> log[i].outcome.Pending? || log[i].outcome.SlowDown?
  {
    OpenedExactly(log, c);
    SpentExactly(log, c);
  }

  lemma {:induction false} OpenedExactly(log: Log, c: string)
    ensures Opened(log, c).Some? <==> exists r :: 0 <= r < |log| && log[r].Requested? && log[r].code == c
  {
    if log != [] {
      OpenedExactly(log[..|log| - 1], c);
      assert forall r :: 0 <= r < |log| - 1 ==> log[..|log| - 1][r] == log[r];
    }
  }

  lemma {:induction false} SpentExactly(log: Log, c: string)
    ensures Spent(log, c) <==>
              exists i :: 0 <= i < |log| && log[i].Polled? && log[i].code == c && !log[i].outcome.Pending? && !log[i].outcome.SlowDown?
  {
    if log != [] {
      SpentExactly(log[..|log| - 1], c);
      assert forall i :: 0 <= i < |log| - 1 ==> log[..|log| - 1][i] == log[i];
    }
  }

  /** What a standing row tells of its request: whose it is, the code to type, and how long it lives. */
  lemma RowTellsRequest(rows: map<string, Row>, log: Log, c: string, r: nat)
    requires RowsMatch(rows, log) && Lawful(log) && c in rows
    requires r < |log| && log[r].Requested? && log[r].code == c
    ensures rows[c].app == log[r].app && rows[c].userCode == log[r].userCode && rows[c].expiresAt == log[r].at + 900 * SECOND
    ensures forall typed, now :: Live(rows, typed, now, c) <==> typed == log[r].userCode && now <= log[r].at + 900 * SECOND
  {
    OneRequest(log, c, r);
  }
}
