/** `scheduler/capacity.py`: the other capacity check in the repository. It
    upper-cases the `Active` cell without stripping it and has no separate
    verdict for an empty roster. */
module CapacityCheck {
  import opened Text
  import opened Frame
  import CapacityGuard

  /** The row filter: the upper-cased cell, unstripped, is `YES` or empty. */
  predicate IsActive(v: string) {
    var u := Upper(v);
    u == "YES" || u == ""
  }

  /** `players = len(active_df)`: rows passing the filter, or every row when
      there is no `Active` column. */
  function CountPlayers(t: Table<string>): (n: nat)
    requires WellFormed(t)
    ensures n <= |t.rows|
    ensures "Active" !in t.columns ==> n == |t.rows|
  {
    if "Active" in t.columns then Count(Column(t, "Active"), IsActive) else |t.rows|
  }

  /** The dictionary `capacity_report` returns, without its message. */
  datatype Report = Report(ok: bool, capacity: int, required: int, players: int)

  /** `capacity_report(df, num_courts, num_rounds)`. */
  function CapacityReport(t: Table<string>, courts: int, rounds: int): (r: Report)
    requires WellFormed(t)
    ensures r.players == CountPlayers(t) <= |t.rows|
    ensures r.capacity == courts * rounds * CapacityGuard.SlotsPerCourtRound
    ensures r.required == r.players * CapacityGuard.GamesPerPlayer
    ensures r.ok <==> r.capacity >= r.required
  {
    var players := CountPlayers(t);
    var required := players * 3;
    var capacity := courts * rounds * 14;
    if capacity < required then Report(false, capacity, required, players)
    else Report(true, capacity, required, players)
  }

  /** An empty roster (or one nobody is active in) is reported ok whenever the
      capacity is not negative, where the guard in `Scheduler/capacity.py`
      refuses it. */
  lemma NoPlayersIsOk(t: Table<string>, courts: int, rounds: int)
    requires WellFormed(t) && CountPlayers(t) == 0
    requires courts >= 0 && rounds >= 0
    ensures CapacityReport(t, courts, rounds).ok
    ensures CapacityGuard.CountActive(t) == 0 ==> !CapacityGuard.CapacityReport(t, courts, rounds).ok
  {
    assert courts * rounds >= 0 by {
      CapacityGuard.MulMono(0, courts, rounds);
    }
  }

  /** Both checks agree on the slots and, for the same count, on the verdict
      whenever somebody is active. */
  lemma SameVerdictForActiveRoster(active: nat, courts: int, rounds: int)
    requires active > 0
    ensures CapacityGuard.Assess(active, courts, rounds).ok <==> courts * rounds * 14 >= active * 3
  {
    assert courts * 14 * rounds == courts * rounds * 14;
  }

  /** When the two counts agree and are positive, the two `capacity_report`s
      agree: the same players, slots, games owed and verdict. */
  lemma ReportsAgree(t: Table<string>, courts: int, rounds: int)
    requires WellFormed(t) && CapacityGuard.CountActive(t) == CountPlayers(t) > 0
    ensures CapacityGuard.CapacityReport(t, courts, rounds).ok == CapacityReport(t, courts, rounds).ok
    ensures CapacityGuard.CapacityReport(t, courts, rounds).active == CapacityReport(t, courts, rounds).players
    ensures CapacityGuard.CapacityReport(t, courts, rounds).capacity == CapacityReport(t, courts, rounds).capacity
    ensures CapacityGuard.CapacityReport(t, courts, rounds).required == CapacityReport(t, courts, rounds).required
  {
    var n := CountPlayers(t);
    var g := CapacityGuard.CapacityReport(t, courts, rounds);
    var c := CapacityReport(t, courts, rounds);
    assert g == CapacityGuard.Assess(n, courts, rounds);
    var cap := courts * rounds * 14;
    assert g.capacity == cap && c.capacity == cap by {
      SlotsCommute(courts, rounds);
    }
    assert g.required == n * 3 && c.required == n * 3;
  }

  /** The guard counts slots as courts · 14 · rounds, this check as
      courts · rounds · 14. */
  lemma SlotsCommute(courts: int, rounds: int)
    ensures courts * CapacityGuard.SlotsPerCourtRound * rounds == courts * rounds * CapacityGuard.SlotsPerCourtRound
  {
  }

  /** Without an `Active` column both checks count every row, so on a
      non-empty roster they give the same verdict. */
  lemma ReportsAgreeWithoutActiveColumn(t: Table<string>, courts: int, rounds: int)
    requires WellFormed(t) && "Active" !in t.columns && |t.rows| > 0
    ensures CapacityGuard.CapacityReport(t, courts, rounds).ok == CapacityReport(t, courts, rounds).ok
  {
    ReportsAgree(t, courts, rounds);
  }

  /** A cell this filter accepts is accepted by the stripping guard too: an
      upper-cased `YES` holds no whitespace to strip. */
  lemma ActiveHereIsActiveThere(v: string)
    requires IsActive(v)
    ensures CapacityGuard.IsActive(v)
  {
    if Upper(v) == "YES" {
      assert Trimmed(v) by {
        assert !IsSpace(Upper(v)[0]) && !IsSpace(Upper(v)[2]);
      }
      StripTrimmed(v);
    }
  }

  /** So this check never counts more players than the guard counts active. */
  lemma CountsNoMoreThanGuard(t: Table<string>)
    requires WellFormed(t)
    ensures CountPlayers(t) <= CapacityGuard.CountActive(t)
  {
    if "Active" in t.columns {
      forall v | IsActive(v) ensures CapacityGuard.IsActive(v) {
        ActiveHereIsActiveThere(v);
      }
      CountMono(Column(t, "Active"), IsActive, CapacityGuard.IsActive);
    }
  }

  /** `" yes"` is active for the guard and inactive here. */
  lemma PaddedYesDiffers()
    ensures CapacityGuard.IsActive(" yes") && !IsActive(" yes")
  {
    assert " yes" == " " + Lower("YES") + "";
    CapacityGuard.IsActiveIgnoresCaseAndPadding(" ", "YES", "");
    assert Upper(" yes")[0] == ' ';
  }
}
