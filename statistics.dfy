/**
 * GET /api/dashboard/stats: how many agents are in each of the five statuses and what
 * share of all agents that is, in whole percent rounded half up.
 */
module Statistics {
  import opened Agents

  /** The number of records whose status is exactly `s`. */
  function CountStatus(t: seq<Agent>, s: string): (n: nat)
    ensures n <= |t|
    decreases |t|
  {
    if t == [] then 0
    else (if t[0].status == s then 1 else 0) + CountStatus(t[1..], s)
  }

  /** The statuses of the table, in table order. */
  function StatusesOf(t: seq<Agent>): (r: seq<string>)
    ensures |r| == |t| && forall i :: 0 <= i < |t| ==> r[i] == t[i].status
  {
    seq(|t|, i requires 0 <= i < |t| => t[i].status)
  }

  /** Counting is the multiplicity of the status among all the table's statuses. */
  lemma {:induction false} CountIsMultiplicity(t: seq<Agent>, s: string)
    ensures CountStatus(t, s) == multiset(StatusesOf(t))[s]
    decreases |t|
  {
    if t != [] {
      CountIsMultiplicity(t[1..], s);
      assert StatusesOf(t) == [t[0].status] + StatusesOf(t[1..]);
    }
  }

  function AllCounts(t: seq<Agent>): nat
  {
    CountStatus(t, Available) + CountStatus(t, Active) + CountStatus(t, WrapUp)
      + CountStatus(t, NotReady) + CountStatus(t, Offline)
  }

  /** While every status is one of the five, the five counts add up to the table size. */
  lemma {:induction false} CountsSumToTotal(t: seq<Agent>)
    requires StatusesValid(t)
    ensures AllCounts(t) == |t|
    decreases |t|
  {
    if t != [] {
      assert StatusesValid(t[1..]) by {
        forall i | 0 <= i < |t[1..]| ensures t[1..][i].status in ValidStatuses {
          assert t[1..][i] == t[i + 1];
        }
      }
      CountsSumToTotal(t[1..]);
      assert t[0].status in ValidStatuses;
    }
  }

  /** Replacing one record moves at most one unit of count from its old to its new status. */
  lemma {:induction false} CountUpdate(t: seq<Agent>, i: nat, a: Agent, s: string)
    requires i < |t|
    ensures CountStatus(t[i := a], s) ==
      CountStatus(t, s) - (if t[i].status == s then 1 else 0) + (if a.status == s then 1 else 0)
    decreases |t|
  {
    if i > 0 {
      CountUpdate(t[1..], i - 1, a, s);
      assert t[i := a][1..] == t[1..][i - 1 := a];
    } else {
      assert t[i := a][1..] == t[1..];
    }
  }

  lemma {:induction false} CountAppend(t: seq<Agent>, a: Agent, s: string)
    ensures CountStatus(t + [a], s) == CountStatus(t, s) + (if a.status == s then 1 else 0)
    decreases |t|
  {
    if t != [] {
      CountAppend(t[1..], a, s);
      assert (t + [a])[1..] == t[1..] + [a];
    }
  }

  /**
   * `Math.round(count / total * 100)`, or 0 when there are no agents, in exact integer
   * arithmetic: `round` takes the floor of the value plus one half.
   */
  function Percent(count: nat, total: nat): (p: nat)
    ensures total == 0 ==> p == 0
    ensures count <= total ==> p <= 100
  {
    if total == 0 then 0
    else
      var p := (200 * count + total) / (2 * total);
      assert count <= total ==> p <= 100 by {
        if count <= total {
          DivBounds(200 * count + total, 2 * total);
          assert 200 * count + total <= 201 * total;
          if p > 100 {
            assert 101 * (2 * total) == 202 * total;
            MulMonotone(101, p, 2 * total);
          }
        }
      }
      p
  }

  /**
   * The percent is the nearest whole number to `100 * count / total`, a half rounded up:
   * it is less than half a unit below that ratio and at most half a unit above it.
   */
  lemma PercentIsNearest(count: nat, total: nat)
    requires total > 0
    ensures 2 * (100 * count - Percent(count, total) * total) < total
    ensures 2 * (Percent(count, total) * total - 100 * count) <= total
  {
  }

  lemma DivBounds(n: nat, d: nat)
    requires d > 0
    ensures (n / d) * d <= n < (n / d) * d + d
  {
  }

  lemma MulMonotone(a: nat, b: nat, c: nat)
    requires a <= b
    ensures a * c <= b * c
  {
  }

  datatype StatusStat = StatusStat(count: nat, percent: nat)

  /** The dashboard's figures, one pair per status, in the order the response lists them. */
  datatype Dashboard = Dashboard(
    totalAgents: nat,
    available: StatusStat,
    active: StatusStat,
    wrapUp: StatusStat,
    notReady: StatusStat,
    offline: StatusStat)

  function StatFor(t: seq<Agent>, s: string): (r: StatusStat)
    ensures r.count == CountStatus(t, s) && r.percent <= 100
    ensures r.percent == Percent(r.count, |t|)
  {
    StatusStat(CountStatus(t, s), Percent(CountStatus(t, s), |t|))
  }

  function PercentSum(d: Dashboard): int
  {
    d.available.percent + d.active.percent + d.wrapUp.percent
      + d.notReady.percent + d.offline.percent
  }

  function CountSum(d: Dashboard): int
  {
    d.available.count + d.active.count + d.wrapUp.count + d.notReady.count + d.offline.count
  }

  function Stats(t: seq<Agent>): (d: Dashboard)
    ensures d.totalAgents == |t|
    ensures d.available.count == CountStatus(t, Available) && d.active.count == CountStatus(t, Active)
    ensures d.wrapUp.count == CountStatus(t, WrapUp) && d.notReady.count == CountStatus(t, NotReady)
    ensures d.offline.count == CountStatus(t, Offline)
    ensures d.available == StatFor(t, Available) && d.active == StatFor(t, Active)
    ensures d.wrapUp == StatFor(t, WrapUp) && d.notReady == StatFor(t, NotReady) && d.offline == StatFor(t, Offline)
    ensures d.available.percent <= 100 && d.active.percent <= 100 && d.wrapUp.percent <= 100
    ensures d.notReady.percent <= 100 && d.offline.percent <= 100
    ensures |t| == 0 ==> d == Dashboard(0, StatusStat(0, 0), StatusStat(0, 0), StatusStat(0, 0),
      StatusStat(0, 0), StatusStat(0, 0))
    ensures StatusesValid(t) ==> CountSum(d) == |t|
  {
    var d := Dashboard(|t|, StatFor(t, Available), StatFor(t, Active), StatFor(t, WrapUp),
      StatFor(t, NotReady), StatFor(t, Offline));
    if StatusesValid(t) then CountsSumToTotal(t); d else d
  }

  /**
   * Each percent is off by at most a half, so with five statuses the percents of a
   * non-empty valid table add up to between 98 and 102.
   */
  lemma PercentsNearHundred(t: seq<Agent>)
    requires StatusesValid(t) && |t| > 0
    ensures 98 <= PercentSum(Stats(t)) <= 102
  {
    var d := Stats(t);
    var n := |t|;
    PercentIsNearest(d.available.count, n);
    PercentIsNearest(d.active.count, n);
    PercentIsNearest(d.wrapUp.count, n);
    PercentIsNearest(d.notReady.count, n);
    PercentIsNearest(d.offline.count, n);
    RoundedSharesSum(
      d.available.count, d.active.count, d.wrapUp.count, d.notReady.count, d.offline.count,
      d.available.percent, d.active.percent, d.wrapUp.percent, d.notReady.percent, d.offline.percent,
      n);
  }

  /** Five shares of `n` that add up to `n`, each rounded to within a half percent. */
  lemma RoundedSharesSum(c1: int, c2: int, c3: int, c4: int, c5: int,
                         p1: int, p2: int, p3: int, p4: int, p5: int, n: int)
    requires n > 0 && c1 + c2 + c3 + c4 + c5 == n
    requires 2 * (100 * c1 - p1 * n) < n && 2 * (p1 * n - 100 * c1) <= n
    requires 2 * (100 * c2 - p2 * n) < n && 2 * (p2 * n - 100 * c2) <= n
    requires 2 * (100 * c3 - p3 * n) < n && 2 * (p3 * n - 100 * c3) <= n
    requires 2 * (100 * c4 - p4 * n) < n && 2 * (p4 * n - 100 * c4) <= n
    requires 2 * (100 * c5 - p5 * n) < n && 2 * (p5 * n - 100 * c5) <= n
    ensures 98 <= p1 + p2 + p3 + p4 + p5 <= 102
  {
    var s := p1 + p2 + p3 + p4 + p5;
    SumOfProducts(p1, p2, p3, p4, p5, n);
    SumBounds(c1, c2, c3, c4, c5, p1 * n, p2 * n, p3 * n, p4 * n, p5 * n, n, s * n);
    NegativeFactor(195 - 2 * s, n);
    NonPositiveFactor(2 * s - 205, n);
  }

  lemma SumOfProducts(p1: int, p2: int, p3: int, p4: int, p5: int, n: int)
    ensures (p1 + p2 + p3 + p4 + p5) * n == p1 * n + p2 * n + p3 * n + p4 * n + p5 * n
    ensures (195 - 2 * (p1 + p2 + p3 + p4 + p5)) * n == 195 * n - 2 * ((p1 + p2 + p3 + p4 + p5) * n)
    ensures (2 * (p1 + p2 + p3 + p4 + p5) - 205) * n == 2 * ((p1 + p2 + p3 + p4 + p5) * n) - 205 * n
  {
  }

  /** The linear part: with `qi` standing for `pi * n` and `q` for their sum. */
  lemma SumBounds(c1: int, c2: int, c3: int, c4: int, c5: int,
                  q1: int, q2: int, q3: int, q4: int, q5: int, n: int, q: int)
    requires c1 + c2 + c3 + c4 + c5 == n && q == q1 + q2 + q3 + q4 + q5
    requires 2 * (100 * c1 - q1) < n && 2 * (q1 - 100 * c1) <= n
    requires 2 * (100 * c2 - q2) < n && 2 * (q2 - 100 * c2) <= n
    requires 2 * (100 * c3 - q3) < n && 2 * (q3 - 100 * c3) <= n
    requires 2 * (100 * c4 - q4) < n && 2 * (q4 - 100 * c4) <= n
    requires 2 * (100 * c5 - q5) < n && 2 * (q5 - 100 * c5) <= n
    ensures 195 * n - 2 * q < 0 && 2 * q - 205 * n <= 0
  {
  }

  lemma NegativeFactor(a: int, n: int)
    requires n > 0 && a * n < 0
    ensures a < 0
  {
  }

  lemma NonPositiveFactor(a: int, n: int)
    requires n > 0 && a * n <= 0
    ensures a <= 0
  {
  }

  ////////////////////////////////////////////////////////////////////////////
  // how the handlers move the figures

  /** A successful change of status moves one agent from its old status to its new one. */
  lemma ChangeStatusMovesOneAgent(t: seq<Agent>, code: string, newStatus: Option<string>, now: Instant, s: string)
    requires Find(t, code).Some? && IsValidStatus(newStatus)
    ensures var i := Find(t, code).value;
      var u := ChangeStatusStep(t, code, newStatus, now).table;
      && |u| == |t|
      && CountStatus(u, s) ==
         CountStatus(t, s) - (if t[i].status == s then 1 else 0) + (if newStatus.value == s then 1 else 0)
  {
    var i := Find(t, code).value;
    var u := ChangeStatusStep(t, code, newStatus, now).table;
    assert u == t[i := u[i]];
    CountUpdate(t, i, u[i], s);
  }

  /** Login of an unknown code adds one Available agent and changes no other count. */
  lemma LoginNewAgentCounts(t: seq<Agent>, code: string, name: Option<string>, now: Instant, s: string)
    requires HasName(name) && Find(t, code).None?
    ensures var u := LoginStep(t, code, name, now).table;
      && |u| == |t| + 1
      && CountStatus(u, s) == CountStatus(t, s) + (if s == Available then 1 else 0)
  {
    CountAppend(t, NewAgent(code, name.value, now), s);
  }

  /** Logout of a known agent moves it from its status to Offline. */
  lemma LogoutMovesToOffline(t: seq<Agent>, code: string, s: string)
    requires Find(t, code).Some?
    ensures var i := Find(t, code).value;
      var u := LogoutStep(t, code).table;
      CountStatus(u, s) == CountStatus(t, s) - (if t[i].status == s then 1 else 0) + (if s == Offline then 1 else 0)
  {
    var i := Find(t, code).value;
    var u := LogoutStep(t, code).table;
    assert u == t[i := u[i]];
    CountUpdate(t, i, u[i], s);
  }
}
