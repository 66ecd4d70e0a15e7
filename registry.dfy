/**
 * The server's module-level agent table as an object: the handlers that change it
 * update its `agents` field in place, the others only read it.
 */
module Wallboard {
  import opened Agents
  import opened Statistics

  class Registry {
    var agents: seq<Agent>

    /** Codes are unique and every status is one of the five valid ones. */
    ghost predicate Valid()
      reads this
    {
      TableInvariant(agents)
    }

    /** The server starts with the three seeded agents. */
    constructor ()
      ensures Valid() && agents == Seed()
    {
      agents := Seed();
    }

    /** GET /api/agents: every record, in table order, and how many there are. */
    method List() returns (data: seq<Agent>, count: nat)
      ensures data == agents && count == |agents|
    {
      data := agents;
      count := |agents|;
    }

    /** GET /api/agents/count. */
    method Count() returns (count: nat)
      ensures count == |agents|
    {
      count := |agents|;
    }

    /** PATCH /api/agents/:code/status. */
    method ChangeStatus(code: string, newStatus: Option<string>, now: Instant) returns (r: Response)
      requires Valid()
      modifies this
      ensures Valid() && SameCodes(old(agents), agents)
      ensures Step(agents, r) == ChangeStatusStep(old(agents), code, newStatus, now)
    {
      ChangeStatusPreservesInvariant(agents, code, newStatus, now);
      var found := Find(agents, code);
      if found.None? {
        return NotFound;
      }
      if !IsValidStatus(newStatus) {
        return InvalidStatus(ValidStatuses);
      }
      var i := found.value;
      var oldStatus := agents[i].status;
      agents := agents[i := agents[i].(status := newStatus.value, lastStatusChange := Some(now))];
      r := StatusChanged(oldStatus, agents[i]);
    }

    /** POST /api/agents/:code/login. */
    method Login(code: string, name: Option<string>, now: Instant) returns (r: Response)
      requires Valid()
      modifies this
      ensures Valid() && |old(agents)| <= |agents|
      ensures Step(agents, r) == LoginStep(old(agents), code, name, now)
    {
      LoginPreservesInvariant(agents, code, name, now);
      if !HasName(name) {
        return MissingField;
      }
      var found := Find(agents, code);
      if found.None? {
        var created := NewAgent(code, name.value, now);
        agents := agents + [created];
        r := Ok(created);
      } else {
        var i := found.value;
        agents := agents[i := agents[i].(name := name.value, status := Available, loginTime := Some(now))];
        r := Ok(agents[i]);
      }
    }

    /** POST /api/agents/:code/logout. */
    method Logout(code: string) returns (r: Response)
      requires Valid()
      modifies this
      ensures Valid() && SameCodes(old(agents), agents)
      ensures Step(agents, r) == LogoutStep(old(agents), code)
    {
      LogoutPreservesInvariant(agents, code);
      var found := Find(agents, code);
      if found.None? {
        return NotFound;
      }
      var i := found.value;
      agents := agents[i := agents[i].(status := Offline, loginTime := None)];
      r := Ok(agents[i]);
    }

    /** GET /api/dashboard/stats. */
    method DashboardStats() returns (d: Dashboard)
      requires Valid()
      ensures d == Stats(agents)
      ensures CountSum(d) == d.totalAgents == |agents|
    {
      d := Stats(agents);
    }
  }
}
