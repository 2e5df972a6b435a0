/**
 * The ten-year term of office: the `for year` loop of main() in
 * hamurabi.py, which stops before trading in year 10, and the rating the
 * ruler receives at the end.
 */
module Term {
  import opened Hamurabi

  /** The four verdicts of lines 166-194, from worst to best. */
  datatype Tier = NationalFink | Unpleasant | NotTooBad | Fantastic

  function Rank(t: Tier): int
  {
    match t
    case NationalFink => 0
    case Unpleasant => 1
    case NotTooBad => 2
    case Fantastic => 3
  }

  /**
   * Lines 161-194: the wealth (acres per person) and the average
   * percentage starved pick the first verdict whose test holds. All the
   * comparisons are strict, so 33 percent starved with exactly 7 acres a
   * head is not yet a national fink.
   */
  function Rating(pctStarve: real, acres: int, population: int): (t: Tier)
    requires population >= 1
    ensures t == NationalFink <==> pctStarve > 33.0 || acres < 7 * population
    ensures t == Unpleasant <==>
      !(pctStarve > 33.0 || acres < 7 * population) && (pctStarve > 10.0 || acres < 9 * population)
    ensures t == NotTooBad <==>
      !(pctStarve > 10.0 || acres < 9 * population) && (pctStarve > 3.0 || acres < 10 * population)
    ensures t == Fantastic <==> pctStarve <= 3.0 && acres >= 10 * population
  {
    WealthBelow(acres, population, 7);
    WealthBelow(acres, population, 9);
    WealthBelow(acres, population, 10);
    var wealth := acres as real / population as real;
    if pctStarve > 33.0 || wealth < 7.0 then NationalFink
    else if pctStarve > 10.0 || wealth < 9.0 then Unpleasant
    else if pctStarve > 3.0 || wealth < 10.0 then NotTooBad
    else Fantastic
  }

  /** At the edge of the worst verdict: 33 percent starved and 7 acres a head. */
  lemma FinkBoundaryIsStrict(population: int)
    requires population >= 1
    ensures Rating(33.0, 7 * population, population) == Unpleasant
  {
  }

  /** Starving fewer people or holding more land never earns a worse verdict. */
  lemma RatingMonotone(pct0: real, acres0: int, pct1: real, acres1: int, population: int)
    requires population >= 1 && pct1 <= pct0 && acres0 <= acres1
    ensures Rank(Rating(pct0, acres0, population)) <= Rank(Rating(pct1, acres1, population))
  {
    var t0, t1 := Rating(pct0, acres0, population), Rating(pct1, acres1, population);
    if t1 == NationalFink {
      assert t0 == NationalFink;
    } else if t1 == Unpleasant {
      assert t0 == NationalFink || t0 == Unpleasant;
    } else if t1 == NotTooBad {
      assert t0 != Fantastic;
    }
  }

  /** How the game ends. */
  datatype Ending =
    | Finished(final: State, tier: Tier)   // the term is served and rated
    | ImpeachedIn(year: int, dead: int)    // too many starved in one year
    | QuitIn(year: int, q: Question)       // a negative answer ended the game
    | RefusedIn(year: int, q: Question)    // an answer the prompt would ask again for

  predicate ValidSchedule(draws: seq<Draws>, orders: seq<Orders>)
  {
    |draws| == 9 && |orders| == 9 && forall i :: 0 <= i < 9 ==> ValidDraws(draws[i])
  }

  /**
   * Lines 36-194 from `year` on: each year the infants arrive and the
   * plague may strike; year 10 stops there and the term is rated, years 1
   * to 9 go on with the draws and answers of that year. A term that ends
   * rated ends in a valid state, and the number of people starved over the
   * term never goes down.
   */
  function RunFrom(s: State, year: int, draws: seq<Draws>, orders: seq<Orders>): (e: Ending)
    requires Valid(s) && 1 <= year <= 10 && ValidSchedule(draws, orders)
    ensures e.Finished? ==> Valid(e.final) && e.final.totalDead >= s.totalDead
    ensures e.Finished? ==> e.tier == Rating(e.final.pctStarve, e.final.acres, e.final.population)
    ensures !e.Finished? ==> year <= e.year <= 9
    ensures year == 10 ==> e.Finished? && e.final == Arrive(s)
    // years 1 to 9 are governed from the state after the arrivals and the plague
    ensures year <= 9 ==>
      var o := Govern(Arrive(s), year, draws[year - 1], orders[year - 1]);
      && (o.Impeached? ==> e == ImpeachedIn(year, o.dead))
      && (o.Quits? ==> e == QuitIn(year, o.q))
      && (o.Refused? ==> e == RefusedIn(year, o.q))
      && (o.Survived? ==> e == RunFrom(o.next, year + 1, draws, orders))
      && (!e.Finished? && e.year == year <==> !o.Survived?)
    decreases 10 - year
  {
    var a := Arrive(s);
    if year == 10 then Finished(a, Rating(a.pctStarve, a.acres, a.population))
    else
      match Govern(a, year, draws[year - 1], orders[year - 1])
      case Survived(n) =>
        assert n.totalDead >= a.totalDead by {
          YearTotalDead(a, year, draws[year - 1], orders[year - 1]);
        }
        RunFrom(n, year + 1, draws, orders)
      case Impeached(dead) => ImpeachedIn(year, dead)
      case Quits(q) => QuitIn(year, q)
      case Refused(q) => RefusedIn(year, q)
  }

  /** A year never lowers the count of people starved over the term. */
  lemma YearTotalDead(s: State, year: int, d: Draws, o: Orders)
    requires Valid(s) && ValidDraws(d) && 1 <= year <= 9
    requires Govern(s, year, d, o).Survived?
    ensures Govern(s, year, d, o).next.totalDead >= s.totalDead
  {
    AnswersDecideYear(s, year, d, o);
    YearStarvation(s, year, d, o);
  }

  /** The whole game, from the state main() sets up. */
  function Game(draws: seq<Draws>, orders: seq<Orders>): (e: Ending)
    requires ValidSchedule(draws, orders)
    ensures e.Finished? ==> Valid(e.final) && e.tier == Rating(e.final.pctStarve, e.final.acres, e.final.population)
    ensures !e.Finished? ==> 1 <= e.year <= 9
  {
    RunFrom(Initial, 1, draws, orders)
  }

  /**
   * Lines 36-194 as the source runs them: a loop over the years with the
   * arrivals at the top, a `break` in year 10 before any trading, and the
   * rating after the loop.
   */
  method PlayTerm(draws: seq<Draws>, orders: seq<Orders>) returns (e: Ending)
    requires ValidSchedule(draws, orders)
    ensures e == Game(draws, orders)
  {
    var s := Initial;
    var year := 1;
    while true
      invariant 1 <= year <= 10 && Valid(s)
      invariant RunFrom(s, year, draws, orders) == Game(draws, orders)
      decreases 10 - year
    {
      ghost var before := s;
      var population := s.population + s.infants;
      if s.plagueChance <= 0 {
        population := population / 2;
      }
      s := s.(population := population);
      assert s == Arrive(before);
      if year == 10 {
        break;
      }
      var outcome := PlayYear(s, year, draws[year - 1], orders[year - 1]);
      match outcome {
        case Survived(n) =>
          s := n;
        case Impeached(dead) =>
          return ImpeachedIn(year, dead);
        case Quits(q) =>
          return QuitIn(year, q);
        case Refused(q) =>
          return RefusedIn(year, q);
      }
      year := year + 1;
    }
    e := Finished(s, Rating(s.pctStarve, s.acres, s.population));
  }
}
