/**
 * The server's behaviour from its seeded start: the dashboard of the seed, a status change,
 * a refused status, an unknown code, and the first login of a new agent.
 */
module Scenarios {
  import opened Agents
  import opened Statistics
  import opened Wallboard

  /** Three agents, one each Available, Active and Wrap Up: 33% each, and the percents sum to 99. */
  lemma SeedStats()
    ensures Stats(Seed()) == Dashboard(3, StatusStat(1, 33), StatusStat(1, 33), StatusStat(1, 33),
      StatusStat(0, 0), StatusStat(0, 0))
    ensures PercentSum(Stats(Seed())) == 99
  {
    var t := Seed();
    assert t[1..][1..][1..] == [];
    assert CountStatus(t, Available) == 1;
    assert CountStatus(t, Active) == 1;
    assert CountStatus(t, WrapUp) == 1;
    assert CountStatus(t, NotReady) == 0;
    assert CountStatus(t, Offline) == 0;
  }

  /** A001 goes from Available to Active; nobody else changes. */
  lemma ChangeSeededAgentToActive(now: Instant)
    ensures var s := ChangeStatusStep(Seed(), "A001", Some(Active), now);
      && s.response == StatusChanged(Available, s.table[0])
      && s.table[0].status == Active
      && s.table[1..] == Seed()[1..]
  {
  }

  /** A bogus status on a known agent is refused with the five valid ones and changes nothing. */
  lemma BogusStatusRefused(now: Instant)
    ensures ChangeStatusStep(Seed(), "A001", Some("Bogus"), now) ==
      Step(Seed(), InvalidStatus(["Available", "Active", "Wrap Up", "Not Ready", "Offline"]))
  {
  }

  /** An unknown code is reported as not found even when the status is bogus too. */
  lemma UnknownCodeBeforeBogusStatus(now: Instant)
    ensures ChangeStatusStep(Seed(), "NOPE", Some("Bogus"), now) == Step(Seed(), NotFound)
  {
  }

  /** A099 logs in for the first time: the count goes from 3 to 4 and A099 is Available. */
  lemma FirstLoginOfNewAgent(now: Instant)
    ensures var s := LoginStep(Seed(), "A099", Some("New Guy"), now);
      && |s.table| == 4
      && s.table[3] == Agent("A099", "New Guy", Available, None, None, None, Some(now), None)
      && s.response == Ok(s.table[3])
  {
  }

  /**
   * The same requests against the object, concluded from its methods' contracts alone:
   * A001 becomes Active, A099's first login takes the count from 3 to 4, and its logout
   * leaves it Offline without a login time.
   */
  method SeededSession(now: Instant) returns (before: nat, after: nat, out: Response)
    ensures before == 3 && after == 4
    ensures out.Ok? && out.agent.code == "A099" && out.agent.status == Offline && out.agent.loginTime.None?
  {
    var registry := new Registry();
    before := registry.Count();
    var r := registry.ChangeStatus("A001", Some(Active), now);
    ChangeSeededAgentToActive(now);
    assert r.StatusChanged? && r.oldStatus == Available && registry.agents[0].status == Active;
    assert Find(registry.agents, "A099").None? by {
      assert SameCodes(Seed(), registry.agents);
      assert forall j :: 0 <= j < 3 ==> Seed()[j].code != "A099";
    }
    var login := registry.Login("A099", Some("New Guy"), now);
    after := registry.Count();
    assert Find(registry.agents, "A099") == Some(3);
    out := registry.Logout("A099");
  }
}
