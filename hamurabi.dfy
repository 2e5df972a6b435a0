/**
 * One year of Hamurabi: the body of the `for year` loop of main() in
 * hamurabi.py, with the four questions put to the ruler and every random
 * draw supplied as an explicit input.
 */
module Hamurabi {
  import opened RandomDraws

  /** The variables main() carries from one year into the next. */
  datatype State = State(
    population: int,    // people in the city
    acres: int,         // land the city owns
    bushels: int,       // grain in store
    harvYield: int,     // bushels harvested per acre last year
    eaten: int,         // bushels the rats ate last year
    infants: int,       // people who come to the city at the start of the year
    plagueChance: int,  // the plague strikes when this is at most 0
    dead: int,          // people starved in the last year whose starvation was counted
    pctStarve: real,    // running average of the percentage starved
    totalDead: int)     // people starved over the whole term

  /** The state main() sets up before the first year. */
  const Initial := State(95, 3000 / 3, 2800, 3, 3000 - 2800, 5, 1, 0, 0.0, 0)

  /** What holds of the state at the start of every year of the term. */
  predicate Valid(s: State)
  {
    && s.population >= 1 && s.acres >= 0 && s.bushels >= 0
    && 1 <= s.harvYield <= 5 && s.eaten >= 0 && s.infants >= 1
    && s.dead >= 0 && s.totalDead >= 0
    && 0.0 <= s.pctStarve <= 100.0
  }

  /** The city starts valid, and with 10 acres a head once the first infants arrive. */
  lemma InitialValid()
    ensures Valid(Initial)
    ensures Arrive(Initial).acres == 10 * Arrive(Initial).population
  {
  }

  /**
   * Wealth is acres per person, a real quotient in the source. For a
   * positive population it lies below or above k exactly when the acres
   * lie below or above k per person.
   */
  lemma WealthBelow(acres: int, population: int, k: int)
    requires population >= 1
    ensures acres as real / population as real < k as real <==> acres < k * population
    ensures acres as real / population as real > k as real <==> acres > k * population
  {
    var w := acres as real / population as real;
    assert w * population as real == acres as real;
    if acres < k * population {
      assert w * population as real < k as real * population as real;
    } else {
      assert w * population as real >= k as real * population as real;
    }
    if acres > k * population {
      assert w * population as real > k as real * population as real;
    } else {
      assert w * population as real <= k as real * population as real;
    }
  }

  /** The draws of one year, already turned into integers (see RandomDraws). */
  datatype Draws = Draws(
    landValue: int,  // price of an acre this year
    harvYield: int,  // rand_gosub_800: bushels per planted acre
    rats: int,       // rand_gosub_800: the rats eat only when this is even
    births: int,     // rand_gosub_800: birth-rate factor
    plague: int)     // next year's plague signal

  predicate ValidDraws(d: Draws)
  {
    17 <= d.landValue <= 26 && 1 <= d.harvYield <= 5 && 1 <= d.rats <= 5 && 1 <= d.births <= 5
  }

  /**
   * The five calls of random.random() in a year, in the order the source
   * makes them: the land price, the yield, the rats, the births and next
   * year's plague signal. The draws they give are always in range.
   */
  function DrawsFrom(rLand: real, rYield: real, rRats: real, rBirths: real, rPlague: real): (d: Draws)
    requires 0.0 <= rLand < 1.0 && 0.0 <= rYield < 1.0 && 0.0 <= rRats < 1.0
    requires 0.0 <= rBirths < 1.0 && 0.0 <= rPlague < 1.0
    ensures ValidDraws(d)
    ensures d.rats % 2 == 0 <==> 0.2 <= rRats < 0.4 || 0.6 <= rRats < 0.8
    ensures d.plague <= 0 <==> rPlague < 0.2
  {
    Draws(LandValue(rLand), RandGosub(rYield), RandGosub(rRats), RandGosub(rBirths), PlagueSignal(rPlague))
  }

  /** The numbers the ruler types in answer to the four questions. */
  datatype Orders = Orders(buy: int, sell: int, feed: int, plant: int)

  datatype Question = Buy | Sell | Feed | Plant

  /**
   * One pass through one of the prompt loops: a negative answer makes the
   * steward quit (the game ends), an acceptable one is returned, any other
   * makes the loop ask again.
   */
  datatype Reply = Quit | AskAgain | Accept(n: nat)

  function Ask(num: int, acceptable: bool): (r: Reply)
    ensures r == Quit <==> num < 0
    ensures r.Accept? <==> num >= 0 && acceptable
    ensures r.Accept? ==> r.n == num
  {
    if num < 0 then Quit else if acceptable then Accept(num) else AskAgain
  }

  /** buy_acres_320: a purchase is accepted when the grain pays for it. */
  function BuyReply(landValue: int, bushels: int, num: int): (r: Reply)
    ensures r == Quit <==> num < 0
    ensures r.Accept? <==> num >= 0 && bushels - landValue * num >= 0
    ensures r.Accept? ==> r.n == num
  {
    Ask(num, landValue * num <= bushels)
  }

  /** sell_acres_340: a sale is accepted when at least one acre is kept. */
  function SellReply(acres: int, num: int): (r: Reply)
    ensures r == Quit <==> num < 0
    ensures r.Accept? <==> num >= 0 && acres - num >= 1
    ensures r.Accept? ==> r.n == num
  {
    Ask(num, num < acres)
  }

  /** feed_people_400: the food handed out must be in store. */
  function FeedReply(bushels: int, num: int): (r: Reply)
    ensures r == Quit <==> num < 0
    ensures r.Accept? <==> num >= 0 && bushels - num >= 0
    ensures r.Accept? ==> r.n == num
  {
    Ask(num, num <= bushels)
  }

  /**
   * plant_seeds_440: the city must own the acres, have half a bushel of
   * seed for each (rounded down), and one person to tend every ten acres.
   */
  function PlantReply(acres: int, population: int, bushels: int, num: int): (r: Reply)
    ensures r == Quit <==> num < 0
    ensures r.Accept? <==> 0 <= num && num <= acres && num <= 10 * population && bushels >= num / 2
    ensures r.Accept? ==> r.n == num
  {
    if num < 0 then Quit
    else if num <= acres then
      if bushels - num / 2 < 0 then AskAgain
      else if num <= 10 * population then Accept(num)
      else AskAgain
    else AskAgain
  }

  /**
   * All four answers of a year are accepted, each against the state in
   * which it is asked: the sale only when nothing is bought, the food
   * against the grain left after trading, the seed against what is left
   * after feeding.
   */
  predicate OrdersAccepted(population: int, acres: int, bushels: int, landValue: int, o: Orders): (ok: bool)
    ensures var tradedAcres := if o.buy == 0 then acres - o.sell else acres + o.buy;
      var tradedBushels := if o.buy == 0 then bushels + landValue * o.sell else bushels - landValue * o.buy;
      ok <==>
        && BuyReply(landValue, bushels, o.buy).Accept?
        && (o.buy == 0 ==> SellReply(acres, o.sell).Accept?)
        && FeedReply(tradedBushels, o.feed).Accept?
        && PlantReply(tradedAcres, population, tradedBushels - o.feed, o.plant).Accept?
  {
    var tradedAcres := if o.buy == 0 then acres - o.sell else acres + o.buy;
    var tradedBushels := if o.buy == 0 then bushels + landValue * o.sell else bushels - landValue * o.buy;
    && 0 <= o.buy && landValue * o.buy <= bushels
    && (o.buy == 0 ==> 0 <= o.sell < acres)
    && 0 <= o.feed <= tradedBushels
    && 0 <= o.plant <= tradedAcres && o.plant <= 10 * population
    && tradedBushels - o.feed - o.plant / 2 >= 0
  }

  /**
   * Lines 44-51: the infants join the city, then the plague, if it strikes,
   * carries off the larger half of the people.
   */
  function Arrive(s: State): (r: State)
    ensures r == s.(population := r.population)
    ensures s.plagueChance > 0 ==> r.population == s.population + s.infants
    ensures s.plagueChance <= 0 ==>
      r.population + (s.population + s.infants + 1) / 2 == s.population + s.infants
    ensures Valid(s) ==> Valid(r)
  {
    var population := s.population + s.infants;
    s.(population := if s.plagueChance <= 0 then population / 2 else population)
  }

  /**
   * Lines 80-91: a purchase, or else a sale, at this year's price. Trading
   * at one price never changes what land and grain are worth together.
   */
  function Trade(s: State, landValue: int, buy: int, sell: int): (r: State)
    ensures r == s.(acres := r.acres, bushels := r.bushels)
    ensures r.bushels + landValue * r.acres == s.bushels + landValue * s.acres
    ensures r.acres == if buy != 0 then s.acres + buy else if sell > 0 then s.acres - sell else s.acres
  {
    if buy == 0 then
      if sell > 0 then s.(acres := s.acres - sell, bushels := s.bushels + landValue * sell)
      else s
    else s.(acres := s.acres + buy, bushels := s.bushels - landValue * buy)
  }

  /**
   * Lines 113-116: the rats eat only when their draw is even, and then a
   * half or a quarter of the store, rounded down.
   */
  function RatsEat(bushels: int, rats: int): (eaten: int)
    requires bushels >= 0 && 1 <= rats <= 5
    ensures 0 <= eaten && 2 * eaten <= bushels
    ensures rats % 2 == 1 ==> eaten == 0
    ensures rats == 2 ==> 2 * eaten <= bushels < 2 * eaten + 2
    ensures rats == 4 ==> 4 * eaten <= bushels < 4 * eaten + 4
  {
    if rats % 2 == 0 then bushels / rats else 0
  }

  /** Division of naturals agrees with the floor of their real quotient. */
  lemma FloorOfQuotient(n: int, d: int)
    requires n >= 0 && d >= 1
    ensures (n as real / d as real).Floor == n / d
  {
    var q, m := n / d, n % d;
    assert n == q * d + m && 0 <= m < d;
    assert n as real == q as real * d as real + m as real;
    assert n as real / d as real == q as real + m as real / d as real;
    assert 0.0 <= m as real / d as real < 1.0;
  }

  /** Python's int(w / p / 100 + 1) on non-negative reals, as integer division. */
  lemma TruncatedBirthRate(w: int, p: int)
    requires w >= 0 && p >= 1
    ensures (w as real / p as real / 100.0 + 1.0).Floor == w / (100 * p) + 1
  {
    assert w as real / p as real / 100.0 == w as real / (100 * p) as real;
    FloorOfQuotient(w, 100 * p);
    var y := w as real / (100 * p) as real;
    assert (y + 1.0).Floor == y.Floor + 1;
  }

  /**
   * Lines 123-124: next year's infants, int(c * (20 * acres + bushels) /
   * population / 100 + 1) computed on reals. At least one child always
   * comes.
   */
  function Infants(births: int, acres: int, bushels: int, population: int): (n: int)
    requires 1 <= births <= 5 && acres >= 0 && bushels >= 0 && population >= 1
    ensures n >= 1
  {
    var prosperity := births * (20 * acres + bushels);
    (prosperity as real / population as real / 100.0 + 1.0).Floor
  }

  /** The real-valued birth formula is an integer floor quotient plus one. */
  lemma InfantsExact(births: int, acres: int, bushels: int, population: int)
    requires 1 <= births <= 5 && acres >= 0 && bushels >= 0 && population >= 1
    ensures Infants(births, acres, bushels, population)
            == births * (20 * acres + bushels) / (100 * population) + 1
  {
    TruncatedBirthRate(births * (20 * acres + bushels), population);
  }

  /** How one year ends. */
  datatype YearOutcome =
    | Survived(next: State)   // the ruler governs another year
    | Impeached(dead: int)    // too many starved: declare_national_fink_565
    | Quits(q: Question)      // a negative answer: steward_quits_850
    | Refused(q: Question)    // an answer the prompt loop does not accept; it asks again

  function Stopped(q: Question, r: Reply): (o: YearOutcome)
  {
    if r == Quit then Quits(q) else Refused(q)
  }

  /**
   * Lines 128-151 when the people were not all fed: those without a full
   * stomach starve; more than 45 percent of the city starving ends the
   * term, otherwise the survivors are the new population and the running
   * average and total of the starved are brought up to date.
   */
  function Starve(s: State, year: int, fed: int): (r: YearOutcome)
    requires Valid(s) && 1 <= year && 0 <= fed <= s.population
    ensures r.Survived? || r.Impeached?
    ensures r.Impeached? <==> 20 * (s.population - fed) > 9 * s.population
    ensures r.Impeached? ==> r.dead == s.population - fed
    ensures r.Survived? ==>
      && r.next.population == fed && r.next.dead == s.population - fed
      && r.next.totalDead == s.totalDead + r.next.dead
      && r.next.pctStarve == Average(year, s.pctStarve, s.population - fed, s.population)
      && r.next == s.(population := fed, dead := r.next.dead, pctStarve := r.next.pctStarve,
                      totalDead := r.next.totalDead)
      && Valid(r.next)
  {
    var dead := s.population - fed;
    if 20 * dead > 9 * s.population then Impeached(dead)
    else
      var pct := Average(year, s.pctStarve, dead, s.population);
      AverageBounded(year, s.pctStarve, dead, s.population);
      Survived(s.(population := fed, dead := dead, pctStarve := pct, totalDead := s.totalDead + dead))
  }

  /**
   * Line 149: the average percentage starved after `year` years, from the
   * average after the years before and this year's dead.
   */
  function Average(year: int, pct: real, dead: int, population: int): (a: real)
    requires year >= 1 && population >= 1
    // `year` averages carry the weight of the `year - 1` before and this year's share
    ensures a * year as real == (year - 1) as real * pct + (dead * 100) as real / population as real
    // a year starving the same share as the average so far leaves the average unchanged
    ensures (dead * 100) as real / population as real == pct ==> a == pct
  {
    ((year - 1) as real * pct + (dead * 100) as real / population as real) / year as real
  }

  /** The running average of percentages stays a percentage. */
  lemma AverageBounded(year: int, pct: real, dead: int, population: int)
    requires 1 <= year && 0.0 <= pct <= 100.0 && 0 <= dead <= population && population >= 1
    ensures 0.0 <= Average(year, pct, dead, population) <= 100.0
  {
    var share := (dead * 100) as real / population as real;
    ShareBounded(dead, population);
    assert (year - 1) as real == year as real - 1.0;
    assert Average(year, pct, dead, population) == ((year as real - 1.0) * pct + share) / year as real;
    MeanBounded(year as real, pct, share);
  }

  /** This year's percentage starved is a percentage. */
  lemma ShareBounded(dead: int, population: int)
    requires 0 <= dead <= population && population >= 1
    ensures 0.0 <= (dead * 100) as real / population as real <= 100.0
  {
    var p := population as real;
    assert (dead * 100) as real <= 100.0 * p;
    QuotientAtMost((dead * 100) as real, p, 100.0);
  }

  /** Weighing `y - 1` percentages against one more gives a percentage. */
  lemma MeanBounded(y: real, pct: real, share: real)
    requires 1.0 <= y && 0.0 <= pct <= 100.0 && 0.0 <= share <= 100.0
    ensures 0.0 <= ((y - 1.0) * pct + share) / y <= 100.0
  {
    var w := y - 1.0;
    assert 0.0 <= w * pct <= w * 100.0 by {
      ScaleBetween(w, pct, 100.0);
    }
    var x := w * pct + share;
    assert w * 100.0 + 100.0 == 100.0 * y;
    assert 0.0 <= x <= 100.0 * y;
    QuotientAtMost(x, y, 100.0);
    assert x == (y - 1.0) * pct + share;
  }

  /** Scaling by a non-negative factor keeps order. */
  lemma ScaleBetween(w: real, a: real, b: real)
    requires 0.0 <= w && 0.0 <= a <= b
    ensures 0.0 <= w * a <= w * b
  {
    assert w * b - w * a == w * (b - a);
  }

  /** A quotient by a positive real of something within `0..c` times it lies within `0..c`. */
  lemma QuotientAtMost(x: real, y: real, c: real)
    requires y > 0.0 && 0.0 <= x <= c * y
    ensures 0.0 <= x / y <= c
  {
    var q := x / y;
    assert q * y == x;
    assert (c - q) * y == c * y - x;
    PositiveFactor(q, y);
    PositiveFactor(c - q, y);
  }

  /** A product with a positive factor is non-negative only if the other factor is. */
  lemma PositiveFactor(a: real, y: real)
    requires y > 0.0 && a * y >= 0.0
    ensures a >= 0.0
  {
  }

  /**
   * Lines 94-133 once all answers are accepted: food and seed leave the
   * store, the harvest comes in, the rats eat, and next year's infants and
   * plague signal are drawn. The rats take at most half of what was left
   * after food and seed, the harvest is the yield times the planted acres,
   * and the city's land and people are not touched.
   */
  function Harvest(t: State, d: Draws, feed: int, plant: int): (u: State)
    requires Valid(t) && ValidDraws(d)
    requires 0 <= feed && 0 <= plant && t.bushels - feed - plant / 2 >= 0
    ensures Valid(u)
    ensures var seeded := t.bushels - feed - plant / 2;
      u == t.(bushels := u.bushels, harvYield := d.harvYield, eaten := RatsEat(seeded, d.rats),
              infants := Infants(d.births, t.acres, u.bushels, t.population), plagueChance := d.plague)
    ensures var seeded := t.bushels - feed - plant / 2;
      && u.bushels == seeded - u.eaten + u.harvYield * plant
      && 2 * u.eaten <= seeded
      && (d.rats % 2 == 1 ==> u.eaten == 0)
      && u.bushels >= seeded / 2
  {
    var seeded := t.bushels - feed - plant / 2;
    var harvested := plant * d.harvYield;
    assert harvested >= 0;
    var eaten := RatsEat(seeded, d.rats);
    var bushels := seeded - eaten + harvested;
    assert bushels >= seeded / 2;
    t.(bushels := bushels, harvYield := d.harvYield, eaten := eaten,
       infants := Infants(d.births, t.acres, bushels, t.population), plagueChance := d.plague)
  }

  /**
   * Lines 94-151: the harvest, then the starvation test unless more
   * people were fed than live in the city (the `continue` at line 137,
   * which leaves the population and the starvation figures untouched).
   */
  function Grow(t: State, year: int, d: Draws, feed: int, plant: int): (r: YearOutcome)
    requires Valid(t) && ValidDraws(d) && 1 <= year
    requires 0 <= feed && 0 <= plant && t.bushels - feed - plant / 2 >= 0
    ensures r.Survived? || r.Impeached?
    ensures r.Survived? ==> Valid(r.next)
  {
    var u := Harvest(t, d, feed, plant);
    var fed := feed / 20;
    if t.population < fed then Survived(u) else Starve(u, year, fed)
  }

  /**
   * Lines 70-151: one year after the arrivals, for years 1 to 9. Each
   * answer is put to its prompt in the state in which the source asks it;
   * the first one that is not accepted ends the year.
   */
  function Govern(s: State, year: int, d: Draws, o: Orders): (r: YearOutcome)
    requires Valid(s) && ValidDraws(d) && 1 <= year <= 9
    ensures r.Survived? ==> Valid(r.next)
  {
    var buy := BuyReply(d.landValue, s.bushels, o.buy);
    var sell := if o.buy == 0 then SellReply(s.acres, o.sell) else Accept(0);
    if !buy.Accept? then Stopped(Buy, buy)
    else if !sell.Accept? then Stopped(Sell, sell)
    else
      var t := Trade(s, d.landValue, o.buy, o.sell);
      var feed := FeedReply(t.bushels, o.feed);
      if !feed.Accept? then Stopped(Feed, feed)
      else
        var plant := PlantReply(t.acres, t.population, t.bushels - o.feed, o.plant);
        if !plant.Accept? then Stopped(Plant, plant)
        else Grow(t, year, d, o.feed, o.plant)
  }

  /** The answer the ruler gave to question q. */
  function Answer(o: Orders, q: Question): int
  {
    match q
    case Buy => o.buy
    case Sell => o.sell
    case Feed => o.feed
    case Plant => o.plant
  }

  /**
   * The year runs to its end exactly when every answer is accepted where
   * it is asked, and the steward quits only over a negative answer.
   */
  lemma AnswersDecideYear(s: State, year: int, d: Draws, o: Orders)
    requires Valid(s) && ValidDraws(d) && 1 <= year <= 9
    ensures (Govern(s, year, d, o).Survived? || Govern(s, year, d, o).Impeached?)
            <==> OrdersAccepted(s.population, s.acres, s.bushels, d.landValue, o)
    ensures Govern(s, year, d, o).Quits? ==> Answer(o, Govern(s, year, d, o).q) < 0
  {
    var t := Trade(s, d.landValue, o.buy, o.sell);
    if o.buy == 0 && 0 <= o.sell < s.acres {
      assert t.bushels == s.bushels + d.landValue * o.sell;
    }
  }

  /**
   * The grain of a year that runs to its end: food and seed leave the
   * traded store, the rats take at most half of what is left, and the
   * harvest is the yield times the planted acres (the bookkeeping that
   * play-hamurabi-vs-apple-1.py checks at lines 270-274).
   */
  lemma YearBookkeeping(s: State, year: int, d: Draws, o: Orders)
    requires Valid(s) && ValidDraws(d) && 1 <= year <= 9
    requires Govern(s, year, d, o).Survived?
    ensures var t, n := Trade(s, d.landValue, o.buy, o.sell), Govern(s, year, d, o).next;
      && n.acres == t.acres
      && n.harvYield == d.harvYield && n.plagueChance == d.plague
      && n.bushels == t.bushels - o.feed - o.plant / 2 - n.eaten + n.harvYield * o.plant
      && 2 * n.eaten <= t.bushels - o.feed - o.plant / 2
      && (d.rats % 2 == 1 ==> n.eaten == 0)
      && (d.rats % 2 == 0 ==> n.eaten == (t.bushels - o.feed - o.plant / 2) / d.rats)
      && n.bushels >= (t.bushels - o.feed - o.plant / 2) / 2
      && n.infants == Infants(d.births, n.acres, n.bushels, s.population)
  {
    AnswersDecideYear(s, year, d, o);
    var t := Trade(s, d.landValue, o.buy, o.sell);
    assert Govern(s, year, d, o) == Grow(t, year, d, o.feed, o.plant);
    var u := Harvest(t, d, o.feed, o.plant);
    if o.feed / 20 <= t.population {
      assert Govern(s, year, d, o) == Starve(u, year, o.feed / 20);
    }
  }

  /**
   * The starvation test of lines 135-151. When more people were fed than
   * live in the city the year leaves the population and the starvation
   * figures as they were; otherwise those not fed starve, the survivors
   * are the new population, and the ruler is impeached exactly when more
   * than 45 percent of the city starved.
   */
  lemma YearStarvation(s: State, year: int, d: Draws, o: Orders)
    requires Valid(s) && ValidDraws(d) && 1 <= year <= 9
    requires OrdersAccepted(s.population, s.acres, s.bushels, d.landValue, o)
    ensures var r, p, fed := Govern(s, year, d, o), s.population, o.feed / 20;
      && (p < fed ==>
            && r.Survived? && r.next.population == p && r.next.dead == s.dead
            && r.next.pctStarve == s.pctStarve && r.next.totalDead == s.totalDead)
      && (p >= fed ==>
            && (r.Impeached? <==> 20 * (p - fed) > 9 * p)
            && (r.Impeached? ==> r.dead == p - fed)
            && (r.Survived? ==>
                  && r.next.population == fed <= p && r.next.dead == p - fed
                  && r.next.totalDead == s.totalDead + r.next.dead
                  && r.next.pctStarve == Average(year, s.pctStarve, p - fed, p)))
  {
    GovernAccepted(s, year, d, o);
    var t := Trade(s, d.landValue, o.buy, o.sell);
    assert t.population == s.population && t.dead == s.dead;
    assert t.pctStarve == s.pctStarve && t.totalDead == s.totalDead;
    GrowStarvation(t, year, d, o.feed, o.plant);
  }

  /** A year whose answers are all accepted goes on to the harvest with the traded state. */
  lemma GovernAccepted(s: State, year: int, d: Draws, o: Orders)
    requires Valid(s) && ValidDraws(d) && 1 <= year <= 9
    requires OrdersAccepted(s.population, s.acres, s.bushels, d.landValue, o)
    ensures var t := Trade(s, d.landValue, o.buy, o.sell);
      && Valid(t) && t.bushels - o.feed - o.plant / 2 >= 0 && 0 <= o.feed && 0 <= o.plant
      && Govern(s, year, d, o) == Grow(t, year, d, o.feed, o.plant)
  {
    AnswersDecideYear(s, year, d, o);
  }

  /** The starvation test as Grow applies it to the state after trading. */
  lemma GrowStarvation(t: State, year: int, d: Draws, feed: int, plant: int)
    requires Valid(t) && ValidDraws(d) && 1 <= year
    requires 0 <= feed && 0 <= plant && t.bushels - feed - plant / 2 >= 0
    ensures var r, p, fed := Grow(t, year, d, feed, plant), t.population, feed / 20;
      && (p < fed ==>
            && r.Survived? && r.next.population == p && r.next.dead == t.dead
            && r.next.pctStarve == t.pctStarve && r.next.totalDead == t.totalDead)
      && (p >= fed ==>
            && (r.Impeached? <==> 20 * (p - fed) > 9 * p)
            && (r.Impeached? ==> r.dead == p - fed)
            && (r.Survived? ==>
                  && r.next.population == fed <= p && r.next.dead == p - fed
                  && r.next.totalDead == t.totalDead + r.next.dead
                  && r.next.pctStarve == Average(year, t.pctStarve, p - fed, p)))
  {
    var u := Harvest(t, d, feed, plant);
    if feed / 20 <= t.population {
      assert Grow(t, year, d, feed, plant) == Starve(u, year, feed / 20);
    }
  }

  /**
   * Lines 70-101 as the source runs them: the answers are taken one by one
   * and the local variables updated after each; the rest of the year is
   * EndYear.
   */
  method PlayYear(s: State, year: int, d: Draws, o: Orders) returns (r: YearOutcome)
    requires Valid(s) && ValidDraws(d) && 1 <= year <= 9
    ensures r == Govern(s, year, d, o)
  {
    var acres, bushels := s.acres, s.bushels;

    var buyReply := BuyReply(d.landValue, bushels, o.buy);
    if !buyReply.Accept? {
      return Stopped(Buy, buyReply);
    }
    if o.buy == 0 {
      var sellReply := SellReply(acres, o.sell);
      if !sellReply.Accept? {
        return Stopped(Sell, sellReply);
      }
      if o.sell > 0 {
        acres := acres - o.sell;
        bushels := bushels + d.landValue * o.sell;
      }
    } else {
      acres := acres + o.buy;
      bushels := bushels - d.landValue * o.buy;
    }
    assert s.(acres := acres, bushels := bushels) == Trade(s, d.landValue, o.buy, o.sell);

    var feedReply := FeedReply(bushels, o.feed);
    if !feedReply.Accept? {
      return Stopped(Feed, feedReply);
    }
    var plantReply := PlantReply(acres, s.population, bushels - o.feed, o.plant);
    if !plantReply.Accept? {
      return Stopped(Plant, plantReply);
    }
    r := EndYear(s.(acres := acres, bushels := bushels), year, d, o.feed, o.plant);
  }

  /**
   * Lines 94-133 as the source runs them: the store is updated statement
   * by statement and the draws are taken in the source's order.
   */
  method Reap(t: State, d: Draws, feed: int, plant: int) returns (u: State)
    requires Valid(t) && ValidDraws(d)
    requires 0 <= feed && 0 <= plant && t.bushels - feed - plant / 2 >= 0
    ensures u == Harvest(t, d, feed, plant)
  {
    var bushels := t.bushels;
    bushels := bushels - feed;
    bushels := bushels - plant / 2;
    ghost var seeded := bushels;

    var harvYield := d.harvYield;
    var harvested := plant * harvYield;

    var eaten := 0;
    if d.rats % 2 == 0 {
      eaten := bushels / d.rats;
    }
    assert eaten == RatsEat(seeded, d.rats);
    bushels := bushels - eaten + harvested;

    var infants := Infants(d.births, t.acres, bushels, t.population);
    u := t.(bushels := bushels, harvYield := harvYield, eaten := eaten,
            infants := infants, plagueChance := d.plague);
  }

  /**
   * Lines 94-151 as the source runs them: the harvest, then the
   * `continue` and the impeachment as early returns.
   */
  method EndYear(t: State, year: int, d: Draws, feed: int, plant: int) returns (r: YearOutcome)
    requires Valid(t) && ValidDraws(d) && 1 <= year
    requires 0 <= feed && 0 <= plant && t.bushels - feed - plant / 2 >= 0
    ensures r == Grow(t, year, d, feed, plant)
  {
    var next := Reap(t, d, feed, plant);
    var population := t.population;
    var fullTummies := feed / 20;
    if population < fullTummies {
      return Survived(next);
    }
    var dead := population - fullTummies;
    if 20 * dead > 9 * population {
      return Impeached(dead);
    }
    var pctStarve := ((year - 1) as real * next.pctStarve + (dead * 100) as real / population as real) / year as real;
    r := Survived(next.(population := fullTummies, dead := dead, pctStarve := pctStarve,
                        totalDead := next.totalDead + dead));
  }
}
