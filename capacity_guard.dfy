/** `Scheduler/capacity.py`: the capacity guard the web app runs before it
    builds a workbook. Each court hosts 14 players a round (seven positions,
    two teams) and every active player is owed three games. */
module CapacityGuard {
  import opened Text
  import opened Frame

  /** Players a court holds in one round. */
  const SlotsPerCourtRound: int := 14
  /** Games each active player is owed. */
  const GamesPerPlayer: int := 3

  /** `_count_active`'s test on one `Active` cell: stripped and upper-cased,
      it reads `YES` or is empty. */
  predicate IsActive(v: string) {
    var u := Upper(Strip(v));
    u == "YES" || u == ""
  }

  /** The test ignores letter case and whitespace around the value. */
  lemma IsActiveIgnoresCaseAndPadding(p: string, s: string, q: string)
    requires AllSpaces(p) && AllSpaces(q)
    ensures IsActive(p + Lower(s) + q) <==> IsActive(s)
  {
    StripPadding(p, Lower(s), q);
    StripLower(s);
    UpperOfLower(Strip(s));
  }

  /** `_count_active`: the rows whose `Active` cell passes the test, or every
      row when the table has no `Active` column. */
  function CountActive(t: Table<string>): (n: nat)
    requires WellFormed(t)
    ensures n <= |t.rows|
    ensures "Active" !in t.columns ==> n == |t.rows|
  {
    if "Active" in t.columns then Count(Column(t, "Active"), IsActive) else |t.rows|
  }

  /** With an `Active` column, every row counts exactly when every cell passes
      the test, and none counts exactly when none does. */
  lemma CountActiveExtremes(t: Table<string>)
    requires WellFormed(t) && "Active" in t.columns
    ensures CountActive(t) == |t.rows| <==> forall i :: 0 <= i < |t.rows| ==> IsActive(t.rows[i]["Active"])
    ensures CountActive(t) == 0 <==> forall i :: 0 <= i < |t.rows| ==> !IsActive(t.rows[i]["Active"])
  {
    var col := Column(t, "Active");
    CountAll(col, IsActive);
    CountNone(col, IsActive);
  }

  /** Why a report is or is not ok. */
  datatype Verdict =
    | NoActivePlayers          // nobody is marked active
    | Shortfall(short: int)    // the slots fall `short` below the games owed
    | Enough                   // every active player can get three games

  /** The dictionary `capacity_report` returns; `message` is reduced to its verdict. */
  datatype Report = Report(ok: bool, verdict: Verdict, active: int, capacity: int, required: int)

  /** `capacity_report` once the active players are counted. */
  function Assess(active: nat, courts: int, rounds: int): (r: Report)
    ensures r.active == active
    ensures r.capacity == courts * SlotsPerCourtRound * rounds
    ensures r.required == active * GamesPerPlayer
    ensures r.ok <==> r.verdict == Enough
    ensures active == 0 ==> !r.ok && r.verdict == NoActivePlayers
    ensures active > 0 ==> (r.ok <==> r.capacity >= r.required)
    ensures r.verdict.Shortfall? ==> active > 0 && r.verdict.short == r.required - r.capacity > 0
  {
    var capacity := courts * SlotsPerCourtRound * rounds;
    var required := active * GamesPerPlayer;
    if active == 0 then Report(false, NoActivePlayers, 0, capacity, required)
    else if capacity < required then Report(false, Shortfall(required - capacity), active, capacity, required)
    else Report(true, Enough, active, capacity, required)
  }

  /** `capacity_report(df, num_courts, num_rounds)`. */
  function CapacityReport(t: Table<string>, courts: int, rounds: int): (r: Report)
    requires WellFormed(t)
    ensures 0 <= r.active <= |t.rows|
    ensures "Active" !in t.columns ==> r.active == |t.rows|
    ensures r.ok ==> r.active > 0 && r.capacity >= r.required
    ensures |t.rows| == 0 ==> !r.ok && r.verdict == NoActivePlayers
  {
    Assess(CountActive(t), courts, rounds)
  }

  /** Twenty players on one court over three rounds: 42 slots against the 60
      needed, short by 18. */
  lemma TwentyPlayersOneCourtThreeRounds()
    ensures Assess(20, 1, 3) == Report(false, Shortfall(18), 20, 42, 60)
  {
  }

  /** Adding courts or rounds never turns an ok report into a warning. */
  lemma MoreSlotsStayOk(active: nat, courts: int, rounds: int, courts': int, rounds': int)
    requires 0 <= courts <= courts' && 0 <= rounds <= rounds'
    requires Assess(active, courts, rounds).ok
    ensures Assess(active, courts', rounds').ok
  {
    assert courts * rounds <= courts' * rounds by {
      MulMono(courts, courts', rounds);
    }
    assert courts' * rounds <= courts' * rounds' by {
      MulMono(rounds, rounds', courts');
    }
  }

  lemma MulMono(a: int, b: int, c: int)
    requires a <= b && c >= 0
    ensures a * c <= b * c
  {
  }
}
