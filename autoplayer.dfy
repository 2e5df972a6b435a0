/**
 * The automated player of play-hamurabi-vs-apple-1.py: the grain reserve
 * it aims for, its two searches over how many acres to sell or buy, and
 * the food and seed it then hands out. The answers it gives are ones the
 * game of hamurabi.py accepts.
 */
module Autoplayer {
  import opened Hamurabi

  function Max(a: int, b: int): int { if a >= b then a else b }

  function Min(a: int, b: int): int { if a <= b then a else b }

  /**
   * calculate_grain_target: the grain to hold so that the people can be
   * fed and the land seeded in a worst year (one bushel an acre, rats
   * eating a share of the store set by the risk multiplier). On the last
   * turn no harvest is counted on, so it is just a year's food and seed;
   * before that it is that need divided by the risk multiplier (rounded
   * down) plus a bushel for every acre.
   */
  function GrainTarget(population: int, acres: int, risk: int, turn: int): (t: int)
    requires population >= 0 && acres >= 0 && risk >= 1
    ensures t >= 0
    ensures turn == 10 ==> t == 20 * population + acres / 2
    ensures turn != 10 ==>
      t >= acres && risk * (t - acres) <= 20 * population + acres / 2 < risk * (t - acres + 1)
  {
    QuotientBounds(population * 20 + acres / 2, risk);
    var grainNeeded := population * 20 + acres / 2;
    var badHarvest := if turn == 10 then 0 else acres;
    var ratsMultiplier := if turn == 10 then 1 else risk;
    grainNeeded / ratsMultiplier + badHarvest
  }

  /** The quotient of a natural number times the divisor falls at most one divisor short of it. */
  lemma QuotientBounds(n: int, r: int)
    requires n >= 0 && r >= 1
    ensures n / r >= 0 && r * (n / r) <= n < r * (n / r + 1)
  {
    assert n == r * (n / r) + n % r;
    assert r * (n / r + 1) == r * (n / r) + r;
  }

  /** Dividing by a positive number keeps the order of non-negative numbers. */
  lemma DivMonotone(x: int, y: int, r: int)
    requires 0 <= x <= y && r >= 1
    ensures x / r <= y / r
  {
    QuotientsOrdered(x, y, r, x / r, y / r, x % r, y % r);
  }

  /** Two numbers written as quotient times r plus a remainder below r keep their order in the quotients. */
  lemma QuotientsOrdered(x: int, y: int, r: int, qx: int, qy: int, mx: int, my: int)
    requires 0 <= x <= y && r >= 1
    requires x == r * qx + mx && 0 <= mx < r
    requires y == r * qy + my && 0 <= my < r
    ensures qx <= qy
  {
    assert r * (qx - qy) < r;
    ProductBelowFactor(r, qx - qy);
  }

  lemma ProductBelowFactor(r: int, d: int)
    requires r >= 1 && r * d < r
    ensures d <= 0
  {
    assert r * d == r + r * (d - 1);
  }

  /** More people or more land never lowers the grain target. */
  lemma GrainTargetMonotone(population0: int, acres0: int, population1: int, acres1: int, risk: int, turn: int)
    requires 0 <= population0 <= population1 && 0 <= acres0 <= acres1 && risk >= 1
    ensures GrainTarget(population0, acres0, risk, turn) <= GrainTarget(population1, acres1, risk, turn)
  {
    DivMonotone(acres0, acres1, 2);
    var need0, need1 := population0 * 20 + acres0 / 2, population1 * 20 + acres1 / 2;
    DivMonotone(need0, need1, if turn == 10 then 1 else risk);
  }

  /**
   * Lines 402-415: the sale search stops at candidate k when selling k
   * acres would leave a surplus above the target, or leave fewer acres
   * than `turn` per person.
   */
  predicate SaleStops(population: int, given: int, acres: int, cost: int, turn: int, risk: int, k: int): (stop: bool)
    requires population >= 1 && risk >= 1 && 0 <= k <= acres
    ensures var grainNeeded := GrainTarget(population, acres - k, risk, turn);
      stop <==> given + cost * k - grainNeeded > grainNeeded
                || (acres - k) as real / population as real < turn as real
  {
    WealthBelow(acres - k, population, turn);
    var bushels := given + cost * k;
    var grainNeeded := GrainTarget(population, acres - k, risk, turn);
    var surplus := bushels - grainNeeded;
    surplus > grainNeeded || acres - k < turn * population
  }

  /**
   * What calc_land_sales returns: a sale that keeps two acres, such that
   * every candidate up to it passed both tests and the next one failed a
   * test or was the last; a sale of zero when the land is two acres or
   * fewer or the search stopped at 0 or 1.
   */
  predicate SaleResult(population: int, given: int, acres: int, cost: int, turn: int, risk: int, sell: int)
    requires population >= 1 && acres >= 0 && risk >= 1
  {
    && 0 <= sell <= Max(0, acres - 2)
    && (sell > 0 ==>
          && (forall j :: 0 <= j <= sell ==> !SaleStops(population, given, acres, cost, turn, risk, j))
          && (sell + 1 == acres - 1 || SaleStops(population, given, acres, cost, turn, risk, sell + 1)))
    && (sell == 0 ==>
          acres <= 2 || SaleStops(population, given, acres, cost, turn, risk, 0)
                     || SaleStops(population, given, acres, cost, turn, risk, 1))
  }

  /** At most one sale meets the description, so it fixes the search's result. */
  lemma SaleResultUnique(population: int, given: int, acres: int, cost: int, turn: int, risk: int, sell0: int, sell1: int)
    requires population >= 1 && acres >= 0 && risk >= 1
    requires SaleResult(population, given, acres, cost, turn, risk, sell0)
    requires SaleResult(population, given, acres, cost, turn, risk, sell1)
    ensures sell0 == sell1
  {
  }

  /**
   * calc_land_sales: tries 0, 1, ... acres-1 acres for sale, stops at the
   * first candidate the tests reject and commits the candidate before the
   * last one tried. The result keeps at least two acres unsold, is zero
   * when there is already grain to spare or too little land, and every
   * sale up to it passed both tests.
   */
  method CalcLandSales(population: int, given: int, acres: int, cost: int, turn: int, risk: int)
    returns (sell: int)
    requires population >= 1 && acres >= 0 && risk >= 1
    ensures SaleResult(population, given, acres, cost, turn, risk, sell)
    ensures given > 2 * GrainTarget(population, acres, risk, turn) || acres < turn * population ==> sell == 0
  {
    var last := 0;  // the value the loop variable sell_acres is left with
    var candidate := 0;
    while candidate < acres
      invariant 0 <= candidate <= acres
      invariant last == Max(0, candidate - 1)
      invariant forall j :: 0 <= j < candidate ==> !SaleStops(population, given, acres, cost, turn, risk, j)
    {
      last := candidate;
      if SaleStops(population, given, acres, cost, turn, risk, candidate) {
        break;
      }
      candidate := candidate + 1;
    }
    sell := Max(0, last - 1);
    if acres >= 1 && (given > 2 * GrainTarget(population, acres, risk, turn) || acres < turn * population) {
      assert SaleStops(population, given, acres, cost, turn, risk, 0);
    }
  }

  /**
   * Lines 423-449: the purchase search stops at candidate k when the
   * surplus left after paying for k acres (the price is taken off twice,
   * at lines 423 and 425) falls short of what the risk multiplier asks,
   * when the land would need more than ten acres a person to tend it, or
   * when the city would own more than twelve acres a person.
   */
  predicate BuyStops(population: int, given: int, acres: int, cost: int, turn: int, risk: int, k: int): (stop: bool)
    requires population >= 1 && acres >= 0 && risk >= 1 && k >= 0
    ensures var grainNeeded := GrainTarget(population, acres + k, risk, turn);
      var surplus := given - cost * k - k * cost - grainNeeded;
      stop <==> || (risk == 1 && surplus < 0)
                || (risk == 2 && (surplus as real) < grainNeeded as real / 2.0)
                || acres + k > 10 * population
                || (acres + k) as real / population as real > 12.0
  {
    WealthBelow(acres + k, population, 12);
    var bushels := given - cost * k;
    var grainNeeded := GrainTarget(population, acres + k, risk, turn);
    var surplus := bushels - k * cost - grainNeeded;
    || (risk == 1 && surplus < 0)
    || (risk == 2 && 2 * surplus < grainNeeded)
    || acres + k > 10 * population
    || acres + k > 12 * population
  }

  /**
   * What calc_land_purchases returns: a purchase of at most acres - 2,
   * such that every candidate up to it passed all tests and the next one
   * failed a test or was the last; a purchase of zero when the land is two
   * acres or fewer or the search stopped at 0 or 1.
   */
  predicate PurchaseResult(population: int, given: int, acres: int, cost: int, turn: int, risk: int, buy: int)
    requires population >= 1 && acres >= 0 && risk >= 1
  {
    && 0 <= buy <= Max(0, acres - 2)
    && (buy > 0 ==>
          && (forall j :: 0 <= j <= buy ==> !BuyStops(population, given, acres, cost, turn, risk, j))
          && (buy + 1 == acres - 1 || BuyStops(population, given, acres, cost, turn, risk, buy + 1)))
    && (buy == 0 ==>
          acres <= 2 || BuyStops(population, given, acres, cost, turn, risk, 0)
                     || BuyStops(population, given, acres, cost, turn, risk, 1))
  }

  /** At most one purchase meets the description, so it fixes the search's result. */
  lemma PurchaseResultUnique(population: int, given: int, acres: int, cost: int, turn: int, risk: int, buy0: int, buy1: int)
    requires population >= 1 && acres >= 0 && risk >= 1
    requires PurchaseResult(population, given, acres, cost, turn, risk, buy0)
    requires PurchaseResult(population, given, acres, cost, turn, risk, buy1)
    ensures buy0 == buy1
  {
  }

  /**
   * calc_land_purchases: tries 0, 1, ... acres-1 acres to buy, stops at
   * the first candidate the tests reject and commits the candidate before
   * the last one tried. With the risk multipliers the player uses (1 and
   * 2), a purchase leaves the grain target covered even after paying for
   * the land twice over, so the game accepts it.
   */
  method CalcLandPurchases(population: int, given: int, acres: int, cost: int, turn: int, risk: int)
    returns (buy: int)
    requires population >= 1 && acres >= 1 && risk >= 1
    ensures PurchaseResult(population, given, acres, cost, turn, risk, buy)
    ensures buy > 0 ==> acres + buy <= 10 * population && acres + buy <= 12 * population
    ensures buy > 0 && (risk == 1 || risk == 2) ==>
      given - 2 * cost * buy >= GrainTarget(population, acres + buy, risk, turn)
  {
    var last := 0;  // the value the loop variable buy_acres is left with
    var candidate := 0;
    while candidate < acres
      invariant 0 <= candidate <= acres
      invariant last == Max(0, candidate - 1)
      invariant forall j :: 0 <= j < candidate ==> !BuyStops(population, given, acres, cost, turn, risk, j)
    {
      last := candidate;
      if BuyStops(population, given, acres, cost, turn, risk, candidate) {
        break;
      }
      candidate := candidate + 1;
    }
    buy := Max(0, last - 1);
    if buy > 0 {
      assert !BuyStops(population, given, acres, cost, turn, risk, buy);
      if risk == 1 || risk == 2 {
        PurchaseLeavesTarget(population, given, acres, cost, turn, risk, buy);
      }
    }
  }

  /** A candidate the purchase search passes leaves the target covered after paying twice. */
  lemma PurchaseLeavesTarget(population: int, given: int, acres: int, cost: int, turn: int, risk: int, k: int)
    requires population >= 1 && acres >= 0 && k >= 0 && (risk == 1 || risk == 2)
    requires !BuyStops(population, given, acres, cost, turn, risk, k)
    ensures given - 2 * cost * k >= GrainTarget(population, acres + k, risk, turn)
  {
    assert cost * k + k * cost == 2 * cost * k;
  }

  /** Grain left after paying twice over for the land means the price could be paid once. */
  lemma PaymentCovered(bushels: int, cost: int, buy: int, target: int)
    requires cost >= 0 && buy >= 0 && target >= 0
    requires bushels - 2 * cost * buy >= target
    ensures 0 <= cost * buy <= bushels
  {
    assert 2 * cost * buy == cost * buy + cost * buy;
  }

  /** Food and seed as the plan takes them out of a non-negative store. */
  lemma Allotment(population: int, acres: int, bushels: int, feed: int, plant: int)
    requires population >= 1 && acres >= 1 && bushels >= 0
    requires feed == Min(20 * (population - StarveAllowance(population)), bushels)
    requires plant == Min(Min(acres, 10 * population), bushels - feed)
    ensures 0 <= feed <= bushels
    ensures 0 <= plant <= acres && plant <= 10 * population
    ensures plant / 2 <= bushels - feed
  {
  }

  /**
   * Answers built the way the plan builds them, from a trade that keeps
   * land and affords its price, pass every prompt of the game.
   */
  lemma PlanAccepted(population: int, acres: int, bushels: int, cost: int, sell: int, buy: int, feed: int, plant: int)
    requires population >= 1 && acres >= 1 && bushels >= 0 && cost >= 0
    requires 0 <= sell < acres && 0 <= buy && (sell == 0 || buy == 0) && cost * buy <= bushels
    requires feed == Min(20 * (population - StarveAllowance(population)), bushels + cost * sell - cost * buy)
    requires plant == Min(Min(acres - sell + buy, 10 * population), bushels + cost * sell - cost * buy - feed)
    ensures bushels + cost * sell - cost * buy >= 0
    ensures OrdersAccepted(population, acres, bushels, cost, Orders(buy, sell, feed, plant))
  {
    assert cost * sell >= 0;
    Allotment(population, acres - sell + buy, bushels + cost * sell - cost * buy, feed, plant);
  }

  /** int(math.ceil(population * .03)): the people the plan lets starve. */
  function StarveAllowance(population: int): (n: int)
    requires population >= 0
    ensures 100 * (n - 1) < 3 * population <= 100 * n
    ensures 0 <= n <= population
  {
    (3 * population + 99) / 100
  }

  /** One turn's answers, and the land and grain they leave the city with. */
  datatype TurnPlan = TurnPlan(sell: int, buy: int, finalAcres: int, finalBushels: int, feed: int, plant: int)

  /**
   * Lines 285-291 of play_game: the land trade of a turn. The player sells
   * first and looks at buying only when it sells nothing, so it never does
   * both; it keeps at least two acres when it sells, and a purchase it
   * makes leaves the grain target covered and is affordable.
   */
  method TradeLand(population: int, bushels: int, acres: int, cost: int, turn: int, risk: int)
    returns (sell: int, buy: int)
    requires population >= 1 && acres >= 1 && risk >= 1
    ensures SaleResult(population, bushels, acres, cost, turn, risk, sell)
    ensures sell == 0 ==> PurchaseResult(population, bushels, acres, cost, turn, risk, buy)
    ensures sell > 0 ==> buy == 0
    ensures 0 <= buy <= Max(0, acres - 2)
    ensures buy > 0 ==> acres + buy <= 10 * population
    ensures bushels >= 0 && cost >= 0 && (risk == 1 || risk == 2) ==>
      && cost * buy <= bushels
      && (buy > 0 ==> bushels - 2 * cost * buy >= GrainTarget(population, acres + buy, risk, turn))
  {
    sell := CalcLandSales(population, bushels, acres, cost, turn, risk);
    buy := 0;
    if sell == 0 {
      buy := CalcLandPurchases(population, bushels + cost * sell, acres - sell, cost, turn, risk);
      if buy > 0 && bushels >= 0 && cost >= 0 && (risk == 1 || risk == 2) {
        PaymentCovered(bushels, cost, buy, GrainTarget(population, acres + buy, risk, turn));
      }
    }
  }

  /**
   * Lines 285-301 of play_game: trade land, then feed all but the
   * starvation allowance and plant what land, labour and grain allow. For
   * the risk multipliers the player uses, every answer it sends is one the
   * game accepts.
   */
  method PlanTurn(population: int, bushels: int, acres: int, cost: int, turn: int, risk: int)
    returns (p: TurnPlan)
    requires population >= 1 && acres >= 1 && risk >= 1
    ensures SaleResult(population, bushels, acres, cost, turn, risk, p.sell)
    ensures p.sell == 0 ==> PurchaseResult(population, bushels, acres, cost, turn, risk, p.buy)
    ensures p.sell > 0 ==> p.buy == 0
    ensures p.sell >= 0 && p.buy >= 0
    ensures p.finalAcres == acres - p.sell + p.buy && p.finalAcres >= 1
    ensures p.finalBushels == bushels + cost * p.sell - cost * p.buy
    ensures p.feed == Min(20 * (population - StarveAllowance(population)), p.finalBushels)
    ensures p.plant == Min(Min(p.finalAcres, 10 * population), p.finalBushels - p.feed)
    ensures p.finalBushels >= 0 ==>
      && 0 <= p.feed <= p.finalBushels
      && 0 <= p.plant <= p.finalAcres && p.plant <= 10 * population
      && p.plant / 2 <= p.finalBushels - p.feed
    ensures bushels >= 0 && cost >= 0 && (risk == 1 || risk == 2) ==>
      && p.finalBushels >= 0
      && OrdersAccepted(population, acres, bushels, cost, Orders(p.buy, p.sell, p.feed, p.plant))
  {
    var sell, buy := TradeLand(population, bushels, acres, cost, turn, risk);
    var finalAcres := acres - sell + buy;
    var finalBushels := bushels + cost * sell - cost * buy;
    var starve := StarveAllowance(population);
    var feed := Min((population - starve) * 20, finalBushels);
    var plant := Min(Min(finalAcres, population * 10), finalBushels - feed);
    if finalBushels >= 0 {
      Allotment(population, finalAcres, finalBushels, feed, plant);
    }
    if bushels >= 0 && cost >= 0 && (risk == 1 || risk == 2) {
      PlanAccepted(population, acres, bushels, cost, sell, buy, feed, plant);
    }
    p := TurnPlan(sell, buy, finalAcres, finalBushels, feed, plant);
  }
}
