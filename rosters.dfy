/** The per-year salary totals on a team's roster page.

    The salary cap is a map from calendar year to cap. For every year of
    the cap the page shows the total salary and the number of the team's
    players under contract that year: a player counts from the cap's first
    year up to the last year of the contract, never past the cap's last
    year. An empty cap is reported and nothing is added up. */
module Rosters {
  import opened Wrappers

  const CapMissing := "Salary cap is not configured. Please ask the league manager to configure it."

  /** A roster player: salary and the last year of the contract, either
      of which may be unset. */
  datatype RosterPlayer = RosterPlayer(name: string, salary: Option<int>, contract: Option<int>)

  /** One year's entry: the salary added up and the number of players. */
  datatype Tally = Tally(salary: int, players: nat)

  /** The smallest year of a non-empty cap. */
  function MinYear(cap: map<int, int>): (y: int)
    requires cap != map[]
    ensures y in cap && forall x :: x in cap ==> y <= x
  {
    Extremes(cap.Keys);
    var y :| y in cap && forall x :: x in cap ==> y <= x; y
  }

  /** The largest year of a non-empty cap. */
  function MaxYear(cap: map<int, int>): (y: int)
    requires cap != map[]
    ensures y in cap && forall x :: x in cap ==> x <= y
  {
    Extremes(cap.Keys);
    var y :| y in cap && forall x :: x in cap ==> x <= y; y
  }

  lemma Extremes(s: set<int>)
    requires s != {}
    ensures exists m :: m in s && forall x :: x in s ==> m <= x
    ensures exists m :: m in s && forall x :: x in s ==> x <= m
    decreases |s|
  {
    if forall y :: y !in s {
      assert false;
    }
    var y :| y in s;
    if s != {y} {
      Extremes(s - {y});
      var lo :| lo in s - {y} && forall x :: x in s - {y} ==> lo <= x;
      var hi :| hi in s - {y} && forall x :: x in s - {y} ==> x <= hi;
      assert forall x :: x in s ==> x == y || x in s - {y};
      if y < lo {
        assert forall x :: x in s ==> y <= x;
      } else {
        assert forall x :: x in s ==> lo <= x;
      }
      if y > hi {
        assert forall x :: x in s ==> x <= y;
      } else {
        assert forall x :: x in s ==> x <= hi;
      }
    } else {
      assert forall x :: x in s ==> x == y;
    }
  }

  /** The player counts in year y: under contract that year, within the
      cap's years. */
  predicate Contributes(p: RosterPlayer, y: int, lo: int, hi: int) {
    p.contract.Some? && lo <= y <= hi && y <= p.contract.value
  }

  /** Adding the player up raises: a year it counts in has no entry in the
      cap (KeyError), or it counts in some year and has no salary
      (TypeError). */
  ghost predicate Crashes(p: RosterPlayer, cap: map<int, int>, lo: int, hi: int) {
    exists y :: Contributes(p, y, lo, hi) && (y !in cap || p.salary.None?)
  }

  /** The number of players counted in year y. */
  function CountIn(players: seq<RosterPlayer>, y: int, lo: int, hi: int): nat
    decreases |players|
  {
    if players == [] then 0
    else CountIn(players[..|players| - 1], y, lo, hi)
         + (if Contributes(players[|players| - 1], y, lo, hi) then 1 else 0)
  }

  /** The salary added up in year y. */
  function SalaryIn(players: seq<RosterPlayer>, y: int, lo: int, hi: int): int
    decreases |players|
  {
    if players == [] then 0
    else SalaryIn(players[..|players| - 1], y, lo, hi)
         + (if Contributes(players[|players| - 1], y, lo, hi) then players[|players| - 1].salary.GetOr(0) else 0)
  }

  /** The totals after the given players: one entry per cap year. */
  function Tallied(cap: map<int, int>, players: seq<RosterPlayer>, lo: int, hi: int): map<int, Tally> {
    map y | y in cap :: Tally(SalaryIn(players, y, lo, hi), CountIn(players, y, lo, hi))
  }

  /** The totals with player p added in the years before year. */
  function AddedBelow(team: map<int, Tally>, p: RosterPlayer, lo: int, hi: int, year: int): map<int, Tally> {
    map y | y in team :: if Contributes(p, y, lo, hi) && y < year
                         then Tally(team[y].salary + p.salary.GetOr(0), team[y].players + 1)
                         else team[y]
  }

  /** The inner loop: player p is added to each year it counts in, from
      the cap's first year on. */
  method AddPlayer(team: map<int, Tally>, p: RosterPlayer, cap: map<int, int>, lo: int, hi: int)
    returns (crashed: bool, r: map<int, Tally>)
    requires team.Keys == cap.Keys
    ensures crashed <==> Crashes(p, cap, lo, hi)
    ensures !crashed ==> r == AddedBelow(team, p, lo, hi, hi + 1)
  {
    r := team;
    crashed := false;
    if p.contract.None? {
      assert r == AddedBelow(team, p, lo, hi, hi + 1);
      return;
    }
    var contract := p.contract.value;
    var year := lo;
    while year <= contract && year <= hi
      invariant r == AddedBelow(team, p, lo, hi, year)
      invariant forall y :: Contributes(p, y, lo, hi) && y < year ==> y in cap && p.salary.Some?
      invariant lo <= year
      decreases hi - year
    {
      if year !in r {
        // KeyError on team_salary[year]
        assert Contributes(p, year, lo, hi);
        return true, r;
      }
      if p.salary.None? {
        // TypeError adding None
        assert Contributes(p, year, lo, hi);
        return true, r;
      }
      r := r[year := Tally(r[year].salary + p.salary.value, r[year].players + 1)];
      year := year + 1;
    }
    assert AddedBelow(team, p, lo, hi, year) == AddedBelow(team, p, lo, hi, hi + 1);
  }

  /** Adding the next player to the totals of the players before it. */
  lemma TallyStep(cap: map<int, int>, players: seq<RosterPlayer>, i: nat, lo: int, hi: int)
    requires i < |players|
    ensures Tallied(cap, players[..i + 1], lo, hi)
            == AddedBelow(Tallied(cap, players[..i], lo, hi), players[i], lo, hi, hi + 1)
  {
    assert players[..i + 1][..i] == players[..i];
  }

  /** What the roster page computes: whether the missing-cap error is
      flashed, whether the totals raise, and the totals. */
  datatype Totals = Totals(capMissing: bool, crashed: bool, team: map<int, Tally>)

  /** The accumulation of the roster view. */
  method TeamSalary(cap: map<int, int>, players: seq<RosterPlayer>) returns (r: Totals)
    ensures r.capMissing <==> cap == map[]
    ensures cap == map[] ==> r == Totals(true, false, map[])
    ensures cap != map[] ==>
      (r.crashed <==> exists i :: 0 <= i < |players| && Crashes(players[i], cap, MinYear(cap), MaxYear(cap)))
    ensures cap != map[] && !r.crashed ==> r.team == Tallied(cap, players, MinYear(cap), MaxYear(cap))
  {
    if cap == map[] {
      return Totals(true, false, map[]);
    }
    var team := map y | y in cap :: Tally(0, 0);
    var lo, hi := MinYear(cap), MaxYear(cap);
    assert team == Tallied(cap, players[..0], lo, hi);
    var i := 0;
    while i < |players|
      invariant 0 <= i <= |players|
      invariant team == Tallied(cap, players[..i], lo, hi)
      invariant forall j :: 0 <= j < i ==> !Crashes(players[j], cap, lo, hi)
    {
      var crashed;
      TallyStep(cap, players, i, lo, hi);
      crashed, team := AddPlayer(team, players[i], cap, lo, hi);
      if crashed {
        return Totals(false, true, team);
      }
      i := i + 1;
    }
    assert players[..i] == players;
    r := Totals(false, false, team);
  }

  // ----- What the totals mean -----

  /** The cap names every year from its first to its last. */
  predicate Contiguous(cap: map<int, int>) {
    cap != map[] && forall y :: MinYear(cap) <= y <= MaxYear(cap) ==> y in cap
  }

  /** The players whose contract runs at least to year y. */
  function UnderContract(players: seq<RosterPlayer>, y: int): (r: seq<RosterPlayer>)
    ensures forall p :: p in r <==> p in players && p.contract.Some? && p.contract.value >= y
    decreases |players|
  {
    if players == [] then []
    else
      var last := players[|players| - 1];
      var rest := UnderContract(players[..|players| - 1], y);
      assert forall p :: p in players <==> p in players[..|players| - 1] || p == last;
      rest + (if last.contract.Some? && last.contract.value >= y then [last] else [])
  }

  function SalaryOf(players: seq<RosterPlayer>): int
    decreases |players|
  {
    if players == [] then 0
    else SalaryOf(players[..|players| - 1]) + players[|players| - 1].salary.GetOr(0)
  }

  /** In every cap year y, the count is the number of players under
      contract at least to y, and the salary is the sum of their
      salaries. */
  lemma {:induction false} YearTotals(players: seq<RosterPlayer>, y: int, lo: int, hi: int)
    requires lo <= y <= hi
    ensures CountIn(players, y, lo, hi) == |UnderContract(players, y)|
    ensures SalaryIn(players, y, lo, hi) == SalaryOf(UnderContract(players, y))
    decreases |players|
  {
    if players != [] {
      var init := players[..|players| - 1];
      YearTotals(init, y, lo, hi);
      var u := UnderContract(init, y);
      var last := players[|players| - 1];
      if last.contract.Some? && last.contract.value >= y {
        assert (u + [last])[..|u + [last]| - 1] == u;
      } else {
        assert u + [] == u;
      }
    }
  }

  /** With every cap year present and every player under contract in the
      cap's first year salaried, adding up never raises. */
  lemma NoCrashWhenContiguous(cap: map<int, int>, players: seq<RosterPlayer>)
    requires Contiguous(cap)
    requires forall p :: p in players && p.contract.Some? && p.contract.value >= MinYear(cap) ==> p.salary.Some?
    ensures forall i :: 0 <= i < |players| ==> !Crashes(players[i], cap, MinYear(cap), MaxYear(cap))
  {
    forall i | 0 <= i < |players|
      ensures !Crashes(players[i], cap, MinYear(cap), MaxYear(cap))
    {
      assert players[i] in players;
    }
  }

  /** The years outside the cap are never touched: the totals have exactly
      the cap's years, and a year no player's contract reaches stays at
      zero. */
  lemma TotalsKeys(cap: map<int, int>, players: seq<RosterPlayer>, y: int, lo: int, hi: int)
    requires y in cap
    requires forall p :: p in players && p.contract.Some? ==> p.contract.value < y
    ensures Tallied(cap, players, lo, hi).Keys == cap.Keys
    ensures Tallied(cap, players, lo, hi)[y] == Tally(0, 0)
  {
    NothingCounted(players, y, lo, hi);
  }

  lemma {:induction false} NothingCounted(players: seq<RosterPlayer>, y: int, lo: int, hi: int)
    requires forall p :: p in players && p.contract.Some? ==> p.contract.value < y
    ensures CountIn(players, y, lo, hi) == 0 && SalaryIn(players, y, lo, hi) == 0
    decreases |players|
  {
    if players != [] {
      var init := players[..|players| - 1];
      assert forall p :: p in init ==> p in players;
      assert players[|players| - 1] in players;
      NothingCounted(init, y, lo, hi);
    }
  }
}
