# Lion's Share — a Dafny model of the puzzle generator's core

The Lion's Share module shows a pride of lions in one year of their history
and asks the player to split the prey between them. `Start()` in
`Assets/LionsShareModule.cs` does four things that are pure integer work:

1. It decodes the built-in pride table into `Lion` records whose status
   timelines cover sixteen years.
2. It picks one year's lions:
   - shuffle the lions and trim them to eight;
   - drop a few more;
   - hand some slots to visiting lions;
   - validate the result, retrying on failure;
   - move the lead huntress to the front.
3. It computes each lion's entitlement:
   - a base by status and kinship with the King;
   - a bonus from the bomb's lit indicators;
   - a bonus from the serial-number letters.
   It then removes unborn, absent and dead lions from the instance.
4. It turns the entitlements into whole percentages that sum to 100. The
   lead huntress absorbs the rounding remainder. The player's starting
   portions are drawn at random so that they also sum to 100.

This project models those four parts as pure Dafny functions over sequences
and proves what they promise. The modules are:

- `Common`: the `Option` and `Result` types, the faults the code can throw, and `Sum` and `Count` with their lemmas.
- `Lions`: the `LionStatus` enumeration and the `Lion` record, plus the string operations the decoder uses (`Split`, `Join`, `Replace` of one character, `PadRight`) and the decoder itself.
- `Selection`: one pass through the `retry:` label as the function `Attempt`, whose every random draw is a parameter.
- `Portions`: truncating percentages, the lead-huntress adjustment, and the random fill of the starting portions.
- `Entitlement`: base entitlement, bonuses, the unborn/absent/dead pass, and `Apportion`, which chains them.
- `Pride`: the module's own table, with proofs about it. These cover decoding, name uniqueness, and mothers being adults whenever a cub is unborn. The end-to-end result is that every accepted instance from the real table is apportioned without an exception, and its portions sum to 100.

How the C# is represented:

- **Enum casts.** The cast `(LionStatus)(ch - '0')` can produce values outside the eight names. These are the constructor `Unnamed(code)`.
- **Null references.** A null string or lion is `None`. A roster lion's empty mother field is `Some("")`, which is a different value.
- **Exceptions.** An exception is a `Failure` carrying the fault:
  - `RemoveAt` or indexing out of range is `IndexOutOfRange`;
  - division by a zero total is `DivideByZero`.
- **The retry loop.** `goto retry` becomes the outcome `Rejected`. Properties are stated about `Accepted` outcomes.

Where the code departs from its own comments (lines 147, 166 and 180), the model follows the code:

- **Sibling test.** `Mother == kingsMother` is plain string equality. Two lions with an empty mother field count as siblings, so in year 0 Ahadi is Mohatu's sibling (`Pride.EmptyMothersAreSiblings`). With no King, `kingsMother` is null and no roster lion is a sibling.
- **Unborn cubs.** The unborn-cub step (line 186) only increments column 3 of the displayed table. It never adds to `entitlement`, so the unborn-cub step does not change the portions. An unborn cub still earns its own indicator and serial bonuses, as described next.
- **Bonuses.** Every lion gets the indicator and serial bonuses, including lions that the pass later removes (`Entitlement.EveryLionEarnsBonuses`). Their entitlement still counts in the total, and their slots still hold a raw portion that the lead-huntress adjustment takes into account.
- **Extra removals.** The extra removal count is read from `{0, 1, 1, 1, 2, 3}` at `Range(0, 5)`, which never reaches the trailing 3 (`Selection.ExtraRemovals`).

## Model

| member | source | states |
|---|---|---|
| Lions.StatusOfCode | Assets/LionsShareModule.cs:29-39 | the cast from an integer code gives one of the eight named statuses exactly for codes 0..7, and an unnamed value otherwise |
| Lions.CodeRoundTrip | Assets/LionsShareModule.cs:29-39 | casting a code to the enum and back returns the code |
| Lions.StatusRoundTrip | Assets/LionsShareModule.cs:29-39 | casting a status to its code and back returns the status |
| Lions.DigitStatus | Assets/LionsShareModule.cs:73 | the status of a character has code `ch - '0'`, and is named exactly for '0'..'7' |
| Lions.Split | Assets/LionsShareModule.cs:72 | splitting yields at least one piece, and no piece contains the separator |
| Lions.JoinSplit | Assets/LionsShareModule.cs:72 | joining the pieces of a split with the separator restores the string |
| Lions.SplitJoin | Assets/LionsShareModule.cs:72 | splitting a join of separator-free pieces returns exactly those pieces |
| Lions.Without | Assets/LionsShareModule.cs:72 | removing carriage returns keeps every other character, adds none, and leaves a string without one unchanged |
| Lions.WithoutAppend | Assets/LionsShareModule.cs:72 | removing carriage returns distributes over concatenation, so the kept characters keep their order and multiplicity |
| Lions.WithoutSingle | Assets/LionsShareModule.cs:72 | a single character is dropped exactly when it is the carriage return |
| Lions.PadRight | Assets/LionsShareModule.cs:73 | padding keeps the string as a prefix and fills up to the width with the fill character |
| Lions.Timeline | Assets/LionsShareModule.cs:73 | a timeline has max(16, digit count) entries: each digit's status, then Dead |
| Lions.ParseLine | Assets/LionsShareModule.cs:72-73 | a line with fewer than four comma-separated fields throws an index fault; otherwise the lion's name is field 0, it is male exactly when field 1 is "m", its mother is field 2 (never null), and its timeline has max(16, digit count) entries: each digit's status, then Dead |
| Lions.ParseLines | Assets/LionsShareModule.cs:72-73 | the table decodes exactly when every line does, into one lion per line in order |
| Lions.DecodedTimeline | Assets/LionsShareModule.cs:54-73 | a decoded lion whose digit field has at most 16 characters has exactly 16 statuses: digit `d` becomes the status with code `d`, and every later year is Dead |
| Pride.RosterDecodes | Assets/LionsShareModule.cs:54-73 | decoding the built-in table succeeds, yields the eighteen lions of its rows, and every timeline has exactly 16 entries |
| Pride.RosterDigits | Assets/LionsShareModule.cs:54-71 | every digit field of the table uses only the digits 0 to 7 |
| Pride.RosterStatusNamed | Assets/LionsShareModule.cs:54-73 | every roster lion has a named status in every observed year |
| Pride.RosterNamesDistinct | Assets/LionsShareModule.cs:54-71 | no two roster lions share a name |
| Pride.RosterUnbornMother | Assets/LionsShareModule.cs:54-71 | whenever a roster lion is unborn, its mother field names a roster lion who is an adult that year |
| Pride.LastTwoAlwaysPresent | Assets/LionsShareModule.cs:70-71 | Sarabi and Sarafina are part of the pride in all sixteen years |
| Pride.RosterAttemptsDoNotCrash | Assets/LionsShareModule.cs:86-102 | every year of the table has at least two lions present, so with three or more visitors in the pool no attempt throws |
| Pride.CubMotherStays | Assets/LionsShareModule.cs:109-111 | in an instance of roster lions and visitors that passed the mother check, every unborn lion's mother is present and is not removed |
| Pride.RosterApportions | Assets/LionsShareModule.cs:86-210 | every accepted instance drawn from the table has its lead huntress at position 0 and is apportioned without an exception; its portions are percentages summing to exactly 100, and the lead's portion is at least her exact proportional share |
| Pride.EmptyMothersAreSiblings | Assets/LionsShareModule.cs:137-150 | with Mohatu as King in year 0, Ahadi's empty mother field matches his, so Ahadi is owed 7 units and not 5 |
| Selection.PresentIn | Assets/LionsShareModule.cs:89 | the present lions are exactly the roster lions whose status that year is not Null, drawn from the roster |
| Selection.RemoveAt | Assets/LionsShareModule.cs:91 | removing position `i` shifts the later elements down one and drops exactly that element |
| Selection.RemoveDrawn | Assets/LionsShareModule.cs:93-94 | a run of removals succeeds exactly when there are no more draws than elements; the result is shorter by the number of draws and is a sub-multiset |
| Selection.Trim | Assets/LionsShareModule.cs:90-91 | trimming leaves min(n, 8) lions, all from the input; a list of at most 8 is untouched |
| Selection.ExtraRemovals | Assets/LionsShareModule.cs:92 | the extra removal count is at most 2, because the draw never reaches the table's last entry |
| Selection.VisitorLion | Assets/LionsShareModule.cs:99-100 | a visitor is Visiting in the chosen year and Null in every other observed year |
| Selection.RemoveFirst | Assets/LionsShareModule.cs:101 | removing a value present in the list shortens it by one; removing an absent value changes nothing; nothing new appears |
| Selection.DrawVisitors | Assets/LionsShareModule.cs:95-101 | each drawn visitor comes from the pool |
| Selection.DrawnVisitorsDistinct | Assets/LionsShareModule.cs:95-101 | visitors drawn from a pool with distinct names have distinct names: none is drawn twice |
| Selection.PlaceVisitors | Assets/LionsShareModule.cs:96-102 | the loop succeeds exactly when the pool is large enough; it overwrites only slots 1..k, with the k-th draw in slot 1, and never slot 0 or any slot above k |
| Selection.LeadIndex | Assets/LionsShareModule.cs:105-107 | the lead huntress is the first female adult, and there is none exactly when no lion is a female adult |
| Selection.MoveToFront | Assets/LionsShareModule.cs:118-119 | moving the lead to the front yields a permutation with the lead first and the others in their former order |
| Selection.ReorderKeepsChecks | Assets/LionsShareModule.cs:109-119 | moving a lion to the front changes neither the mother check nor the number of lions that receive prey |
| Selection.Validate | Assets/LionsShareModule.cs:104-119 | an instance is accepted exactly when there is a lead huntress, every unborn lion's mother is present by name and at least two lions receive prey; the accepted list is a permutation with the lead first that still passes the checks |
| Selection.Candidates | Assets/LionsShareModule.cs:89-102 | the candidate list has at most 8 lions, each either a roster lion present that year or a visitor from the pool |
| Selection.AcceptedInstance | Assets/LionsShareModule.cs:88-119 | an accepted instance has 2 to 8 lions; its first is the first female adult among the candidates; it is a permutation of the candidates; it passes all three checks; every lion has a non-Null status that year |
| Selection.AttemptDoesNotCrash | Assets/LionsShareModule.cs:89-102 | with at least two lions present and at least three visitors in the pool, no removal or visitor draw throws |
| Portions.RawPortions | Assets/LionsShareModule.cs:201-202 | each raw portion is the truncated quotient of entitlement × 100 by the total |
| Portions.QuotientSumBounds | Assets/LionsShareModule.cs:199-202 | summed truncated quotients fall short of the exact sum by less than one per element |
| Portions.RawPortionsBounds | Assets/LionsShareModule.cs:199-209 | the raw portions sum to at most 100, and the remainder `100 - sum` is at most n - 1 |
| Portions.TargetPortions | Assets/LionsShareModule.cs:199-210 | with a zero total the division throws; otherwise the portions sum to exactly 100, position 0 gets its raw portion plus a remainder in [0, n-1], and every other position keeps its raw portion |
| Portions.TargetPortionsArePercentages | Assets/LionsShareModule.cs:199-210 | every correct portion lies in [0, 100], and the lead's portion is at least her exact proportional share, because the remainder she receives covers every position's truncation loss, her own included |
| Portions.LeadLossBound | Assets/LionsShareModule.cs:201-205 | the summed truncated quotients plus the first position's truncation loss never exceed the exact total |
| Portions.TargetPortionsTenSeven | Assets/LionsShareModule.cs:199-210 | entitlements 10 and 7 give raw portions 58 and 41 and correct portions 59 and 41 |
| Portions.InitialPortions | Assets/LionsShareModule.cs:216-218 | for up to ten lions, every possible sequence of draws ends the fill loop with portions summing to exactly 100, each between 10 and 100 |
| Entitlement.KingsMother | Assets/LionsShareModule.cs:137 | the King's mother is the mother of the first King, or null when no lion is King |
| Entitlement.BaseEntitlement | Assets/LionsShareModule.cs:140-159 | the base is positive exactly for a King, adult, cub or visitor, is 10 exactly for the King, and never exceeds 10 |
| Entitlement.TiersOrdered | Assets/LionsShareModule.cs:144-157 | for any King's mother, King > adult > cub > visitor > 0 |
| Entitlement.SiblingsGetMore | Assets/LionsShareModule.cs:147-154 | a King's sibling is owed exactly 2 units more than a non-sibling adult, or 1 more than a non-sibling cub |
| Entitlement.NoKingNoSiblings | Assets/LionsShareModule.cs:137-154 | with no King present, an adult with a mother field is owed 5 and a cub 3 |
| Entitlement.UpperName | Assets/LionsShareModule.cs:164 | upper-casing keeps the length and maps each ASCII letter to its capital |
| Entitlement.UpperNameIdempotent | Assets/LionsShareModule.cs:164 | upper-casing twice is the same as once |
| Entitlement.Multiplier | Assets/LionsShareModule.cs:167-170 | the per-indicator multiplier is 4 exactly for the King, 3 exactly for an adult sibling of the King, 2 exactly for any other male and 1 exactly for any other female |
| Entitlement.IndicatorBonus | Assets/LionsShareModule.cs:166-172 | the indicator bonus is at most 4 per lit indicator |
| Entitlement.IndicatorBonusAppend | Assets/LionsShareModule.cs:167-170 | the indicator bonus of two indicator lists together is the sum of their bonuses |
| Entitlement.IndicatorBonusSingle | Assets/LionsShareModule.cs:167-170 | one indicator earns the full multiplier exactly when it shares any letter with the upper-cased name, and nothing otherwise |
| Entitlement.SerialBonus | Assets/LionsShareModule.cs:174-177 | the serial bonus is at most the number of serial letters |
| Entitlement.SerialBonusPositions | Assets/LionsShareModule.cs:175 | the serial bonus is the number of serial positions whose letter occurs in the upper-cased name, so repeated letters count every time |
| Entitlement.BonusesIgnoreCase | Assets/LionsShareModule.cs:164-175 | neither bonus changes when the name is upper-cased first |
| Entitlement.Breakdown | Assets/LionsShareModule.cs:140-178 | a lion's table row carries its base entitlement and an empty cub column; it owes at least the base and at most 10 + 4 per indicator + 1 per serial letter |
| Entitlement.EveryLionEarnsBonuses | Assets/LionsShareModule.cs:160-199 | whenever apportioning succeeds, the entitlement behind every position is its base plus its indicator bonus plus its serial bonus, for the lions the pass removes as well as those it keeps; the slots are empty exactly for the removed lions, and the portions are the target portions of these entitlements |
| Entitlement.TotalAtLeastClaimants | Assets/LionsShareModule.cs:113-114 | if every lion has a named, non-Null status, the total entitlement is at least the number of lions that receive prey |
| Entitlement.IndexOfMother | Assets/LionsShareModule.cs:186 | the lookup finds the first remaining lion carrying the mother's name, and fails exactly when no remaining lion carries it |
| Entitlement.NullFrom | Assets/LionsShareModule.cs:182-191 | continuing the pass from any point removes exactly the unborn, absent and dead lions, and adds one cub unit per remaining unborn lion |
| Entitlement.NullOut | Assets/LionsShareModule.cs:180-191 | after the pass, a slot is empty exactly when its lion is unborn, absent or dead; the other lions are untouched; the cub column sums to the number of unborn lions |
| Entitlement.UnbornFromCount | Assets/LionsShareModule.cs:184-186 | the positional count of unborn lions agrees with a plain count |
| Entitlement.NullOutSucceeds | Assets/LionsShareModule.cs:180-191 | the pass cannot throw when every unborn lion's mother stays in the instance; when it does not throw, every unborn lion's mother is present by name |
| Entitlement.WithCubs | Assets/LionsShareModule.cs:186-199 | filling in the cub column leaves every lion's entitlement unchanged |
| Entitlement.Apportion | Assets/LionsShareModule.cs:136-210 | apportioning throws exactly when the pass fails or the total is zero; otherwise it records the pass's slots and cub column, keeps the lead in slot 0, and returns the target portions of the unchanged entitlements |
| Entitlement.ApportionAccepted | Assets/LionsShareModule.cs:113-114 | for a validated instance (every lion present with a named status, at least two claimants) whose unborn lions' mothers stay, apportioning does not throw |
| Entitlement.ApportionedPortions | Assets/LionsShareModule.cs:199-210 | whenever apportioning succeeds the total is positive, there is one portion per lion, the portions are percentages summing to exactly 100, and the lead gets at least her raw share and at least her exact proportional share |
| Entitlement.DeadMotherAccepted | Assets/LionsShareModule.cs:104-118 | the checks as written accept an instance whose unborn cub's mother is present by name but dead, and leave it in place |
| Entitlement.DeadMotherChecks | Assets/LionsShareModule.cs:104-115 | on that instance the lead-huntress, mother and claimant checks all pass |
| Entitlement.DeadMotherCrashes | Assets/LionsShareModule.cs:180-191 | the pass over that instance throws, because the dead mother's slot is already empty when the cub looks her up |
| Entitlement.DeadMotherDoesNotStay | Assets/LionsShareModule.cs:108-110 | that instance violates the intended condition: no lion with the mother's name stays |
| Entitlement.DeadMotherRejected | Assets/LionsShareModule.cs:108-110 | the corrected check rejects that instance |
| Entitlement.ValidateStaying | Assets/LionsShareModule.cs:104-118 | the corrected validation accepts exactly what the original accepts when every unborn lion's mother also stays; the lead is then first, the lions are a permutation of the candidates, and the pass cannot throw |
| Entitlement.StayingApportions | Assets/LionsShareModule.cs:104-210 | every instance the corrected validation accepts, with named statuses, is apportioned without an exception |

## Findings

| source | as written | input that shows it | evidently intended | confidence | as-written member | corrected member |
|---|---|---|---|---|---|---|
| Assets/LionsShareModule.cs:108-110 | the mother check only asks for a lion with the mother's name, while the pass at line 186 searches only lions not yet removed | year 0, `[female Adult "Lead", Dead "Mom", Unborn cub of "Mom", male Adult "Pal"]` is accepted, and `IndexOf` returns -1 at the cub, so the indexer throws | the mother must also stay (not be unborn, absent or dead) | not executed; the proof is for the model. The built-in table never produces such an instance, because every unborn cub's mother is an adult that year (`Pride.RosterUnbornMother`) | Entitlement.DeadMotherCrashes | Entitlement.ValidateStaying |

## Left out

- Presentation. Unity rendering is not modelled:
  - the mesh lookup and sorting (lines 82-84);
  - the pie-slice colours and their shuffle (128-134);
  - the slice angles, text meshes and slot activation (220-235).
  These are presentation and floating-point work.
- Logging. The `Debug.LogFormat` calls and the formatted `StringBuilder` table (123-126, 193-214) produce output only. The portion arithmetic inside that loop is modelled.
- Bomb queries. `Bomb.GetOnIndicators()` and `Bomb.GetSerialNumberLetters()` are parameters: a sequence of strings and a sequence of characters.
- Randomness. Every `Random.Range` draw is a parameter constrained to its range (`Selection.Drawn`).
  - `Shuffle` is an extension method from a library outside this file. It is modelled as any permutation of the present lions.
  - In `Portions.InitialPortions` the draws are arbitrary values chosen in their ranges.
- The unbounded `goto retry` loop. One pass is an `Attempt`, and the properties are about accepted attempts. Whether the loop terminates is not modelled.
- The visitor-pool literal (line 49). Its text separates entries with `;`, but it is split on `,` twice. Each piece then splits into a one-element array, so `arr[1]` throws `IndexOutOfRangeException` inside the static initializer, and the type cannot be initialised at all. The pool is therefore a parameter: a list of (name, is-male) pairs with distinct names, none of them a roster name (`Pride.Stranger`).
- The predicate form of `IndexOf` (line 186) is an extension method outside this file. It is modelled as "first matching position, or -1". With -1, the indexer throws.
- `Start()`'s bookkeeping: `_moduleIdCounter`, `_moduleId` and `_lionNames` are not modelled.
- Integer width. All arithmetic is unbounded. The values involved are small (an entitlement is at most 10 + 4 per lit indicator + 1 per serial letter), so C#'s 32-bit `int` never wraps here.
- Entitlement.UpperName: upper-cases ASCII letters only, because `ToUpperInvariant`'s full Unicode table is not modelled. Every roster and visitor name is ASCII.
- Lion identity. C# compares lions by reference: `lions[i] == leadHuntress`. The model compares lions by value and gives the lead-huntress remainder to position 0, where the reordering put her. The list never holds the same object twice.
- Selection.StatusAt: reads Null beyond the end of a timeline, where C# would throw. Every lion the code builds has sixteen statuses, and the year is below sixteen.
- Selection.RemoveFirst: states the length change and that no new element appears, not the full contents. `Selection.RemoveFirstAt` pins the result down for a value whose first occurrence is known.
- Entitlement.Breakdown: its own contract states the base and cub columns and bounds the total, not the bonus columns; `Entitlement.EveryLionEarnsBonuses` states those for every lion of an apportioned instance.
- Entitlement.NullOut: states the total of the unborn-cub column, not which mother each unit is credited to.
- Portions.InitialPortions: requires at most ten lions so that the starting tens do not already exceed 100. An accepted instance has at most eight.
