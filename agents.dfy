/**
 * The agent table of the wallboard server: the record of one call-center agent,
 * the closed set of statuses, lookup by code, and the effect of each handler that
 * changes the table (change-status, login, logout) as a pure function from the old
 * table to the new table and the response.
 */
module Agents {

  datatype Option<+T> = None | Some(value: T)

  /** Timestamps are opaque to the registry: the caller supplies them as ISO-8601 text. */
  type Instant = string

  const Available: string := "Available"
  const Active: string := "Active"
  const WrapUp: string := "Wrap Up"
  const NotReady: string := "Not Ready"
  const Offline: string := "Offline"

  /** The statuses the change-status handler accepts, in the order its error lists them. */
  const ValidStatuses: seq<string> := [Available, Active, WrapUp, NotReady, Offline]

  /**
   * One agent. Only `code`, `name` and `status` are always present; the seeded agents
   * carry `extension`, `skill` and `lastLogin`, login adds `loginTime`, logout removes it,
   * and a successful change of status adds `lastStatusChange`.
   */
  datatype Agent = Agent(
    code: string,
    name: string,
    status: string,
    extension: Option<string>,
    skill: Option<seq<string>>,
    lastLogin: Option<Instant>,
    loginTime: Option<Instant>,
    lastStatusChange: Option<Instant>)

  /** What a handler answers: the record it produced, or one of its error outcomes. */
  datatype Response =
    | Ok(agent: Agent)
    | StatusChanged(oldStatus: string, agent: Agent)
    | NotFound
    | InvalidStatus(validStatuses: seq<string>)
    | MissingField

  /** The table after a handler ran, together with that handler's response. */
  datatype Step = Step(table: seq<Agent>, response: Response)

  predicate IsValidStatus(s: Option<string>)
  {
    s.Some? && s.value in ValidStatuses
  }

  /** The login handler rejects a missing name and the empty name. */
  predicate HasName(name: Option<string>)
  {
    name.Some? && name.value != ""
  }

  predicate UniqueCodes(t: seq<Agent>)
  {
    forall i, j :: 0 <= i < j < |t| ==> t[i].code != t[j].code
  }

  predicate StatusesValid(t: seq<Agent>)
  {
    forall i :: 0 <= i < |t| ==> t[i].status in ValidStatuses
  }

  /** What every handler keeps: codes are a key and every status is one of the five. */
  predicate TableInvariant(t: seq<Agent>)
  {
    UniqueCodes(t) && StatusesValid(t)
  }

  predicate SameCodes(t: seq<Agent>, u: seq<Agent>)
  {
    |t| == |u| && forall j :: 0 <= j < |t| ==> t[j].code == u[j].code
  }

  /** The three agents the server starts with. */
  function Seed(): (t: seq<Agent>)
    ensures |t| == 3 && TableInvariant(t)
    ensures t[0].code == "A001" && t[1].code == "A002" && t[2].code == "A003"
  {
    [ Agent("A001", "John Doe", Available, Some("101"), Some(["Sales", "Support"]),
            Some("2025-09-03T08:00:00.000Z"), None, None),
      Agent("A002", "Jane Smith", Active, Some("102"), Some(["Support"]),
            Some("2025-09-03T08:15:00.000Z"), None, None),
      Agent("A003", "Bob Lee", WrapUp, Some("103"), Some(["Sales"]),
            Some("2025-09-03T07:50:00.000Z"), None, None) ]
  }

  /** The index of the first record whose code is exactly `code`, as `find` returns it. */
  function Find(t: seq<Agent>, code: string): (r: Option<nat>)
    ensures r.Some? ==> r.value < |t| && t[r.value].code == code
    ensures r.Some? ==> forall j :: 0 <= j < r.value ==> t[j].code != code
    ensures r.None? <==> forall j :: 0 <= j < |t| ==> t[j].code != code
    decreases |t|
  {
    if |t| == 0 then None
    else if t[0].code == code then Some(0)
    else match Find(t[1..], code)
      case None => None
      case Some(k) => Some(k + 1)
  }

  /** With unique codes, lookup finds the one record carrying the code. */
  lemma FindUnique(t: seq<Agent>, i: nat)
    requires UniqueCodes(t) && i < |t|
    ensures Find(t, t[i].code) == Some(i)
  {
  }

  ////////////////////////////////////////////////////////////////////////////
  // change-status

  /**
   * PATCH /api/agents/:code/status. The lookup comes first, then the check of the
   * new status against the five valid ones; only then is the record changed.
   */
  function ChangeStatusStep(t: seq<Agent>, code: string, newStatus: Option<string>, now: Instant): (s: Step)
    ensures Find(t, code).None? ==> s == Step(t, NotFound)
    ensures Find(t, code).Some? && !IsValidStatus(newStatus) ==>
      s == Step(t, InvalidStatus(ValidStatuses))
    ensures Find(t, code).Some? && IsValidStatus(newStatus) ==>
      var i := Find(t, code).value;
      && |s.table| == |t|
      && s.table[i] == t[i].(status := newStatus.value, lastStatusChange := Some(now))
      && (forall j :: 0 <= j < |t| && j != i ==> s.table[j] == t[j])
      && s.response == StatusChanged(t[i].status, s.table[i])
  {
    match Find(t, code)
    case None => Step(t, NotFound)
    case Some(i) =>
      if !IsValidStatus(newStatus) then Step(t, InvalidStatus(ValidStatuses))
      else
        var updated := t[i].(status := newStatus.value, lastStatusChange := Some(now));
        Step(t[i := updated], StatusChanged(t[i].status, updated))
  }

  lemma ChangeStatusPreservesInvariant(t: seq<Agent>, code: string, newStatus: Option<string>, now: Instant)
    requires TableInvariant(t)
    ensures var u := ChangeStatusStep(t, code, newStatus, now).table;
      TableInvariant(u) && SameCodes(t, u)
  {
  }

  /** Any of the five statuses can be set on any existing agent, itself included. */
  lemma ChangeStatusThenFind(t: seq<Agent>, i: nat, newStatus: Option<string>, now: Instant)
    requires TableInvariant(t) && i < |t| && IsValidStatus(newStatus)
    ensures var s := ChangeStatusStep(t, t[i].code, newStatus, now);
      && s.response == StatusChanged(t[i].status, s.table[i])
      && Find(s.table, t[i].code) == Some(i)
      && s.table[i].status == newStatus.value
  {
  }

  ////////////////////////////////////////////////////////////////////////////
  // login

  /** The record login creates for a code it has not seen. */
  function NewAgent(code: string, name: string, now: Instant): Agent
  {
    Agent(code, name, Available, None, None, None, Some(now), None)
  }

  /**
   * POST /api/agents/:code/login: an upsert keyed on the code. The name is checked
   * before anything else; an unknown code appends a fresh record, a known one is reset
   * to Available under the new name with a fresh login time.
   */
  function LoginStep(t: seq<Agent>, code: string, name: Option<string>, now: Instant): (s: Step)
    ensures !HasName(name) ==> s == Step(t, MissingField)
    ensures HasName(name) && Find(t, code).None? ==>
      && s.table == t + [Agent(code, name.value, Available, None, None, None, Some(now), None)]
      && s.response == Ok(s.table[|t|])
    ensures HasName(name) && Find(t, code).Some? ==>
      var i := Find(t, code).value;
      && |s.table| == |t|
      && s.table[i] == t[i].(name := name.value, status := Available, loginTime := Some(now))
      && (forall j :: 0 <= j < |t| && j != i ==> s.table[j] == t[j])
      && s.response == Ok(s.table[i])
  {
    if !HasName(name) then Step(t, MissingField)
    else match Find(t, code)
      case None =>
        var created := NewAgent(code, name.value, now);
        Step(t + [created], Ok(created))
      case Some(i) =>
        var updated := t[i].(name := name.value, status := Available, loginTime := Some(now));
        Step(t[i := updated], Ok(updated))
  }

  lemma LoginPreservesInvariant(t: seq<Agent>, code: string, name: Option<string>, now: Instant)
    requires TableInvariant(t)
    ensures var u := LoginStep(t, code, name, now).table;
      && TableInvariant(u)
      && |t| <= |u| <= |t| + 1
      && (forall j :: 0 <= j < |t| ==> u[j].code == t[j].code)
  {
  }

  /** Logging in twice never duplicates a record: the table grows only for an unknown code. */
  lemma LoginGrowsOnlyForUnknownCode(t: seq<Agent>, code: string, name: Option<string>, now: Instant)
    ensures var u := LoginStep(t, code, name, now).table;
      |u| == if HasName(name) && Find(t, code).None? then |t| + 1 else |t|
  {
  }

  /**
   * Repeated logins converge: logging in again with the same code and name leaves the
   * table exactly as a single login at the later time would.
   */
  lemma LoginConverges(t: seq<Agent>, code: string, name: Option<string>, now1: Instant, now2: Instant)
    ensures var once := LoginStep(t, code, name, now1).table;
      LoginStep(once, code, name, now2).table == LoginStep(t, code, name, now2).table
  {
  }

  ////////////////////////////////////////////////////////////////////////////
  // logout

  /** POST /api/agents/:code/logout: status becomes Offline and the login time disappears. */
  function LogoutStep(t: seq<Agent>, code: string): (s: Step)
    ensures Find(t, code).None? ==> s == Step(t, NotFound)
    ensures Find(t, code).Some? ==>
      var i := Find(t, code).value;
      && |s.table| == |t|
      && s.table[i] == t[i].(status := Offline, loginTime := None)
      && (forall j :: 0 <= j < |t| && j != i ==> s.table[j] == t[j])
      && s.response == Ok(s.table[i])
  {
    match Find(t, code)
    case None => Step(t, NotFound)
    case Some(i) =>
      var updated := t[i].(status := Offline, loginTime := None);
      Step(t[i := updated], Ok(updated))
  }

  lemma LogoutPreservesInvariant(t: seq<Agent>, code: string)
    requires TableInvariant(t)
    ensures var u := LogoutStep(t, code).table;
      TableInvariant(u) && SameCodes(t, u)
  {
  }

  /** A second logout of the same agent changes nothing more. */
  lemma LogoutIdempotent(t: seq<Agent>, code: string)
    ensures var once := LogoutStep(t, code).table;
      LogoutStep(once, code).table == once
  {
  }

  ////////////////////////////////////////////////////////////////////////////
  // histories of requests

  /** One request to a handler that changes the table. */
  datatype Request =
    | ChangeStatusRequest(code: string, status: Option<string>, now: Instant)
    | LoginRequest(code: string, name: Option<string>, now: Instant)
    | LogoutRequest(code: string)

  function Apply(t: seq<Agent>, q: Request): (s: Step)
  {
    match q
    case ChangeStatusRequest(code, status, now) => ChangeStatusStep(t, code, status, now)
    case LoginRequest(code, name, now) => LoginStep(t, code, name, now)
    case LogoutRequest(code) => LogoutStep(t, code)
  }

  /** The table after the server handled `qs` in order. */
  function Run(t: seq<Agent>, qs: seq<Request>): (u: seq<Agent>)
    decreases |qs|
  {
    if qs == [] then t else Run(Apply(t, qs[0]).table, qs[1..])
  }

  lemma ApplyPreservesInvariant(t: seq<Agent>, q: Request)
    requires TableInvariant(t)
    ensures var u := Apply(t, q).table;
      && TableInvariant(u)
      && |t| <= |u|
      && (forall j :: 0 <= j < |t| ==> u[j].code == t[j].code)
  {
  }

  /**
   * Whatever requests arrive, codes stay unique, every status stays valid, and no record
   * is removed or moved: every record keeps its place and its code.
   */
  lemma {:induction false} RunPreservesInvariant(t: seq<Agent>, qs: seq<Request>)
    requires TableInvariant(t)
    ensures var u := Run(t, qs);
      && TableInvariant(u)
      && |t| <= |u|
      && (forall j :: 0 <= j < |t| ==> u[j].code == t[j].code)
    decreases |qs|
  {
    if qs != [] {
      ApplyPreservesInvariant(t, qs[0]);
      RunPreservesInvariant(Apply(t, qs[0]).table, qs[1..]);
    }
  }

  /** From the server's start, every reachable table satisfies the invariant. */
  lemma ReachableTablesValid(qs: seq<Request>)
    ensures var u := Run(Seed(), qs);
      && TableInvariant(u) && |u| >= 3
      && forall j :: 0 <= j < 3 ==> u[j].code == Seed()[j].code
  {
    RunPreservesInvariant(Seed(), qs);
  }
}
