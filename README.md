# Hamurabi in Dafny

This project models two Python programs in Dafny.

- `hamurabi.py` is a port of the BASIC game *Hamurabi*. The ruler of Sumeria governs a city for a ten-year term. Each year opens with the new arrivals and, possibly, the plague. In each of years 1 to 9 the ruler then says how many acres to buy, how many to sell if none are bought, how much grain to feed the people and how many acres to plant. Then the harvest comes in, the rats eat, children are born and the plague may strike. Starving more than 45 percent of the people in one year means impeachment. Year 10 brings only the arrivals, and then the ruler gets one of four verdicts, set by the average share of people starved and by the acres held per person.
- `play-hamurabi-vs-apple-1.py` is an automated player. It works out a grain reserve to aim for, searches for how much land to sell or buy, and then decides how much to feed and how much to plant.

The model has four modules, one per file:

- `RandomDraws` (`random_draws.dfy`) handles the game's calls to `random.random()`. Each call is an explicit real number in [0, 1), and these functions turn it into the integer the game uses: the five-sided die `rand_gosub_800`, the price of land and the plague signal.
- `Hamurabi` (`hamurabi.dfy`) models one year of the `for year` loop.
  - The year's state is a `State` value and the year's draws are a `Draws` value. `DrawsFrom` builds the `Draws` of a year from its five calls of `random.random()` through `RandomDraws`.
  - The four prompts are functions that say whether an answer is accepted, asked again, or makes the steward quit.
  - `Govern` is the year as a function. `PlayYear`, `Reap` and `EndYear` run it statement by statement as the source does, and each is proved equal to its function.
- `Term` (`term.dfy`) models the ten-year loop and the final verdict. `RunFrom` is the loop as a recursive function. `PlayTerm` is the loop as the source writes it, with the `break` in year 10, and it is proved equal to `Game`.
- `Autoplayer` (`autoplayer.dfy`) models the player's grain target and its sale and purchase searches. These are methods with loops, proved against predicates that say when each search stops. It also models the plan for one turn, with a proof that every answer the plan sends is one the game accepts.

Python's float comparisons are restated in exact terms:

- `dead > .45 * population` becomes `20 * dead > 9 * population`.
- `acres / population < k` becomes `acres < k * population`, and `> k` becomes `acres > k * population`. `WealthBelow` proves each pair is the same.
- `int(math.ceil(population * .03))` becomes `(3 * population + 99) / 100`.
- The average percentage starved is an exact real.

Notes on the code as written:

- The verdicts use strict comparisons. With 33 percent starved and exactly 7 acres a head, the ruler is rated unpleasant, not a national fink (`FinkBoundaryIsStrict`).
- The comment at line 130 of `hamurabi.py` (quoting BASIC line 541) speaks of a 15% chance of plague. The code's signal `int(10 * (2 * r - .3))` is at most 0 exactly when `r < 0.2`, which is a 20% chance (`PlagueSignal`).
- A refused answer is asked again; it does not end the game.
- The port trades in nine years, not ten. `if year == 10: break` (lines 67-68) leaves before any question in year 10. The BASIC line it quotes, `270 IF Z=11 THEN 860` (line 66), counts reports with `Z` (set to 0 at line 21 and raised at line 37), so the BASIC game trades for ten years. The model follows the port: a schedule holds nine years of answers.
- When more people are fed than live in the city, the year takes the `continue` at line 137. That leaves the population, the number starved and the average unchanged.
- Population never drops to zero. Infants are at least one, the plague halves a population of at least two, and a survivable year keeps at least 11/20 of the people. `Valid` carries `population >= 1`, so the divisions by population cannot fail.
- The purchase search takes the land price off the grain twice: once in `bushels` at line 423 and again in `surplus` at line 425. `CalcLandPurchases` states what that gives: a purchase leaves the grain target covered even after paying twice.

## Model

| member | source | states |
|---|---|---|
| RandomDraws.Trunc | hamurabi.py:302 | Python's `int()` on a real lands within one of the real, truncating toward zero from either side |
| RandomDraws.RandGosub | hamurabi.py:299-302 | the die gives 1..5, and face c comes up exactly when the draw lies in [(c-1)/5, c/5) |
| RandomDraws.LandValue | hamurabi.py:71 | the price of an acre is 17..26, and each price corresponds to a tenth of the draws |
| RandomDraws.PlagueSignal | hamurabi.py:133 | the signal is in -3..16, and it is at most 0 (plague next year) exactly when the draw is below 0.2 |
| Hamurabi.InitialValid | hamurabi.py:18-34 | the state main() sets up is valid, and after the first infants arrive the city holds 10 acres a head, as line 164 reports |
| Hamurabi.DrawsFrom | hamurabi.py:71-133 | the five draws of a year, taken in the source's order, are always in range; the rats eat exactly when their draw is in [0.2, 0.4) or [0.6, 0.8), and the plague strikes next year exactly when its draw is below 0.2 |
| Hamurabi.Ask | hamurabi.py:202-208 | one pass of a prompt loop: quit exactly on a negative number, accept exactly a non-negative acceptable one, and return that same number |
| Hamurabi.BuyReply | hamurabi.py:198-208 | a purchase is accepted exactly when it is non-negative and the grain pays for it; a negative answer quits |
| Hamurabi.SellReply | hamurabi.py:211-221 | a sale is accepted exactly when it is non-negative and keeps at least one acre; a negative answer quits |
| Hamurabi.FeedReply | hamurabi.py:224-238 | food is accepted exactly when it is non-negative and in store; a negative answer quits |
| Hamurabi.PlantReply | hamurabi.py:241-271 | planting is accepted exactly when it is non-negative, within the land owned, within ten acres a person, and has seed for half its acres |
| Hamurabi.OrdersAccepted | hamurabi.py:78-100 | the four answers are all accepted exactly when each passes its prompt against the state in which it is asked: the buy, the sell only when nothing is bought, the food against the traded grain, the seed against what is left after feeding |
| Hamurabi.Arrive | hamurabi.py:44-51 | the infants join; under plague the people lost are the larger half; only the population changes; validity is kept |
| Hamurabi.Trade | hamurabi.py:80-91 | only land and grain change; land plus grain valued at the year's price is conserved; the new acreage is old plus purchase or minus sale |
| Hamurabi.RatsEat | hamurabi.py:111-116 | the rats eat nothing on an odd draw, and at most half the store; on draws 2 and 4 they eat the floor of a half or a quarter |
| Hamurabi.Infants | hamurabi.py:123-124 | at least one child comes each year |
| Hamurabi.InfantsExact | hamurabi.py:123-124 | the real-valued birth formula equals the integer quotient `births * (20 * acres + bushels) / (100 * population)` plus one |
| Hamurabi.TruncatedBirthRate | hamurabi.py:124 | truncating `w / p / 100 + 1` on non-negative reals is integer division by `100 * p`, plus one |
| Hamurabi.Starve | hamurabi.py:143-151 | impeachment happens exactly when more than 45% of the people starved; otherwise the fed survive, the dead add to the total, the average starved becomes line 149's running average, only the starvation fields change, and validity is kept |
| Hamurabi.Average | hamurabi.py:149 | the average percentage starved after year `year`: `year` times it is `year - 1` times the earlier average plus this year's `dead * 100 / population`, on exact reals, so a year at the average leaves it unchanged (and `AverageBounded` keeps it within 0..100) |
| Hamurabi.AverageBounded | hamurabi.py:149 | the running average of percentages starved stays between 0 and 100 |
| Hamurabi.Harvest | hamurabi.py:94-133 | the new state is the old one with the rats' take given by `RatsEat` on the grain left after food and seed, the infants given by `Infants` on the new store, the new yield and plague signal, and nothing else changed; the store is that grain minus the rats plus yield times acres planted, and at least half of it; validity is kept |
| Hamurabi.Grow | hamurabi.py:94-151 | once the answers are in, the year ends in survival or impeachment, and a surviving state is valid |
| Hamurabi.Govern | hamurabi.py:70-151 | the state after a survived year is valid |
| Hamurabi.AnswersDecideYear | hamurabi.py:77-101 | the year runs to its end exactly when all four answers pass their prompts in turn; the game quits only over a negative answer |
| Hamurabi.GovernAccepted | hamurabi.py:78-101 | when all four answers are accepted, the year goes on to the harvest with the traded state, which is valid and holds the food and seed |
| Hamurabi.YearBookkeeping | hamurabi.py:80-124 | after a survived year the grain equals traded grain, minus food, seed and rats, plus the harvest; the rats take nothing on an odd draw and the floor of the remaining grain divided by the draw on an even one; the infants are `Infants` of the new store and the population before starvation |
| Hamurabi.YearStarvation | hamurabi.py:126-151 | with more people fed than live in the city, the population and the starvation figures stay as they were; otherwise impeachment happens exactly when more than 45% starve, the survivors are the fed, and the average starved is line 149's running average |
| Hamurabi.GrowStarvation | hamurabi.py:126-151 | the starvation test as the harvest step applies it: the `continue` leaves the figures as they were; otherwise impeachment exactly over 45%, the fed survive, and the average becomes line 149's running average |
| Hamurabi.PlayYear | hamurabi.py:70-100 | the statement-by-statement year gives exactly the outcome `Govern` specifies |
| Hamurabi.Reap | hamurabi.py:94-133 | the statement-by-statement harvest gives exactly the state `Harvest` specifies |
| Hamurabi.EndYear | hamurabi.py:94-151 | the harvest, the `continue` and the impeachment as early returns give exactly the outcome `Grow` specifies |
| Hamurabi.WealthBelow | hamurabi.py:161 | for a positive population, `acres / population` on reals is below k exactly when `acres < k * population`, and above k exactly when `acres > k * population` |
| Term.Rating | hamurabi.py:161-194 | each of the four verdicts is chosen exactly when its test holds and no earlier one's does, stated in integers |
| Term.FinkBoundaryIsStrict | hamurabi.py:166-172 | 33 percent starved with exactly 7 acres a head rates unpleasant, not national fink |
| Term.RatingMonotone | hamurabi.py:166-194 | starving fewer people or holding more land never gives a worse verdict |
| Term.RunFrom | hamurabi.py:36-151 | a term that is served ends in a valid state with no fewer total starved, and is rated by `Rating`; any other ending happens in a year between the current one and 9; from year 10 the term is served and its final state is that year's arrival and plague, with no trading; in years 1 to 9 the year is governed from the state after the arrival and plague, the game ends in that year exactly when that year's `Govern` does not survive, with its impeachment, quit or refusal, and otherwise goes on from the survived state |
| Term.Game | hamurabi.py:14-194 | a game from main()'s starting state that is served to the end finishes valid and rated by `Rating`; any other ending happens in one of years 1 to 9 |
| Term.YearTotalDead | hamurabi.py:151 | a survived year never lowers the total starved |
| Term.PlayTerm | hamurabi.py:36-194 | the loop with its `break` in year 10 and the rating afterwards gives exactly the ending `Game` specifies |
| Autoplayer.GrainTarget | play-hamurabi-vs-apple-1.py:379-391 | on turn 10 the target is a year's food and seed; before that it is the acres plus the floor of food and seed divided by the risk multiplier |
| Autoplayer.QuotientBounds | play-hamurabi-vs-apple-1.py:391 | the floor quotient times the divisor is at most the number and less than one divisor below it |
| Autoplayer.DivMonotone | play-hamurabi-vs-apple-1.py:384 | dividing two ordered non-negative numbers by the same positive divisor keeps their order |
| Autoplayer.GrainTargetMonotone | play-hamurabi-vs-apple-1.py:379-391 | more people or more land never lowers the grain target |
| Autoplayer.SaleStops | play-hamurabi-vs-apple-1.py:402-415 | the sale search stops at candidate k exactly when the surplus after selling exceeds the target, or the real-valued wealth `(acres - k) / population` falls below `turn` |
| Autoplayer.SaleResultUnique | play-hamurabi-vs-apple-1.py:394-418 | at most one sale meets `SaleResult`, so that description fixes what `calc_land_sales` returns |
| Autoplayer.CalcLandSales | play-hamurabi-vs-apple-1.py:394-418 | the result meets `SaleResult`: it keeps two acres, every candidate up to it passes both tests and the next fails one or is the last (zero when the search stops at 0 or 1); it is zero when grain is already in surplus or land is scarce |
| Autoplayer.BuyStops | play-hamurabi-vs-apple-1.py:423-449 | the purchase search stops at candidate k exactly when, for risk 1, the surplus after paying twice is negative; for risk 2, it is below half the target on reals; or the land exceeds ten acres a person; or the real-valued wealth exceeds 12 |
| Autoplayer.PurchaseResultUnique | play-hamurabi-vs-apple-1.py:420-450 | at most one purchase meets `PurchaseResult`, so that description fixes what `calc_land_purchases` returns |
| Autoplayer.CalcLandPurchases | play-hamurabi-vs-apple-1.py:420-450 | the result meets `PurchaseResult`: every candidate up to it passes all tests and the next fails one or is the last (zero when the search stops at 0 or 1); a purchase leaves at most ten acres a person, and for risk 1 or 2 it leaves the grain target covered after paying twice |
| Autoplayer.PurchaseLeavesTarget | play-hamurabi-vs-apple-1.py:423-440 | a candidate that passes the surplus test for risk 1 or 2 leaves grain worth the target after paying its price twice |
| Autoplayer.PaymentCovered | play-hamurabi-vs-apple-1.py:423-425 | grain left after paying twice over means the price could be paid once |
| Autoplayer.Allotment | play-hamurabi-vs-apple-1.py:297-301 | feed and seed taken as the plan takes them fit the store, the land and the labour |
| Autoplayer.PlanAccepted | play-hamurabi-vs-apple-1.py:285-301 | answers built as the plan builds them, from an affordable trade that keeps land, pass all four of the game's prompts |
| Autoplayer.StarveAllowance | play-hamurabi-vs-apple-1.py:297-298 | the allowance is the ceiling of 3% of the population, between 0 and the population |
| Autoplayer.TradeLand | play-hamurabi-vs-apple-1.py:285-292 | the sale is the one `calc_land_sales` returns (`SaleResult`); when nothing is sold the purchase is the one `calc_land_purchases` returns (`PurchaseResult`), otherwise nothing is bought; a purchase is at most ten acres a person and, for risk 1 or 2, affordable |
| Autoplayer.PlanTurn | play-hamurabi-vs-apple-1.py:285-301 | the sale and purchase are the two searches' results as in `TradeLand`; the plan's land and grain follow from them; food is all but the starvation allowance's share, capped by the grain, and seed is capped by land, labour and grain; food and seed fit the store, the land and the labour; for risk 1 or 2 the game accepts every answer sent |

## Left out

- Console input and output: `echo`, the report lines, `input_numeric` and its default of 0 for an empty line, and `beeping_end_990` with `sys.exit`. The game's endings are values of `Ending`.
- The prompt loops are modelled one pass at a time. An answer the loop would ask for again ends the modelled year as `Refused`, and the orders of a year are a fixed value.
- `random.random()` is a parameter. The term takes each year's `Draws` as given; `DrawsFrom` shows how five reals in [0, 1) become one.
- The random count of would-be assassins in the "not too bad" verdict is printed output only. Line 187, like line 164, lacks the `f` prefix, so it prints the braces literally.
- Hamurabi.Starve: the float test `dead > .45 * population` is modelled by its exact value. The model does not capture a float product that rounds across `dead`.
- Hamurabi.Infants: the formula is computed on exact reals. The model does not capture a float quotient that rounds across an integer.
- Hamurabi.Average: line 149's running average is computed on exact reals. The model does not capture the rounding of Python's float division and sums, which can leave the average a hair off the exact value and so move a verdict whose test sits exactly on a boundary.
- Autoplayer.StarveAllowance: `math.ceil(population * .03)` is modelled by its exact value. The model does not capture a float product that rounds above an exact integer.
- Autoplayer.CalcLandPurchases: the branch for the risk multiplier 1.5 (lines 433-436) is not modelled. The multiplier is an integer here, and the program only uses 2 and 1 (lines 176 and 195-196).
- Autoplayer.CalcLandPurchases: requires `acres >= 1`. With no land, `range(0, acres)` is empty, `buy_acres` is never bound and the `return` at play-hamurabi-vs-apple-1.py:450 raises `UnboundLocalError`; the model leaves that crash out. The requirement holds wherever the player calls the search, because the game never lets a sale take the last acre (`num < acres`, hamurabi.py:219) and no other step lowers the land.
- The risk schedule of `play_game` (2 until turn 10, then 1) is a parameter of each planning method.
- The player's serial-port dialogue with the game, its regular expressions, `game_log` and the CSV export, the running totals, and the `possible_values` forecast after line 301 are not modelled. They only parse, print or record.
