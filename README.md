# Flags — a verified model

Flags is a bomb-defusal puzzle module. It exists in two language versions: `FlagsModule` (English) and `FlagsModulePL` (Polish). A round goes like this:

- It shows one main country.
- It draws seven candidate countries and a number from 1 to 7.
- An eight-row priority chain fixes the expected order of the candidates. The chain reads the main country and four bomb facts: the serial number, an unlit BOB indicator, the number of lit indicators, and an RJ-45 port.
- The player moves a cursor over the candidates. They must submit the candidate that stands at place `number` in that order.
- A Twitch Plays chat command (`SUBMIT`, `LEFT`, `RIGHT`, `CYCLE`, `SET x`, `SUBMIT x`) can drive the same buttons.

The two versions share everything except:
- their field names and rule labels;
- their chat-command handler.

This project models the two handlers separately and proves how their behaviour relates.

Modules:

- `Text` (`text.dfy`): the .NET string operations used: `ToUpperInvariant`, `Trim`, `char.IsWhiteSpace`, `char.IsLetter`, and the ordinal string order.
- `Sorting` (`sorting.dfy`): LINQ `OrderBy(...).ThenBy(...)`, as a stable insertion sort on a two-part key. It comes with the proofs that:
  - the result is a permutation;
  - the result is sorted;
  - the result is stable (candidates with equal keys keep their order);
  - the result is the only arrangement with all three properties.
- `Catalog` (`catalog.dfy`): the country record and the JSON catalog. Reference identity of records is their catalog index.
- `RuleEngine` (`rule_engine.dfy`):
  - `GetOrder` / `getOrder` and `GetRule` / `getRule`, as two functions over the same chain;
  - the `Currency[2]` exception, as an `IndexOutOfRange` outcome;
  - the labels of both languages.
- `Cursor` (`cursor.dfy`): the wrap-around arithmetic of `OnLeft` / `OnRight` and the five-slot window of `UpdateScreen`.
- `Draw` (`draw.dfy`): `List<int>.Remove` on the list of undrawn indices.
- `Flags` (`flags_module.dfy`): the class `FlagsModule`. Its fields are `number`, `position`, `canInteract`, `order`, `mainCountry`, `countries` and `numbers`. Its methods are `Start`, `OnLeft`, `OnRight` and `OnSubmit`. Both versions share it, because these members are the same code in both.
- `Twitch` (`twitch.dfy`): what both `ProcessTwitchCommand`s share:
  - command normalisation;
  - the digit target;
  - the button commands and the seven-press cycle;
  - the name search `Seek`;
  - the loops that drive the buttons.
- `TwitchEn` / `TwitchPl` (`twitch_en.dfy`, `twitch_pl.dfy`): the two command parsers, the effect of a command in each language, and the two `ProcessTwitchCommand` methods, each proved against its effect function.

A chat command's coroutine either:
- runs to its end (`Completed`);
- throws (`Threw`): the English `Substring(0, 4)` / `Substring(0, 7)` on a command of fewer than four / seven UTF-16 code units;
- or never ends (`NeverEnds`): a `while` loop whose `OnRight` presses cannot move a solved module's cursor.

The methods report a loop that can never end instead of entering it. The presses such a loop would make change nothing.

The bomb facts are a record passed in. `Random.Range` is a nondeterministic choice within its bounds.

Behaviour of the code worth noting:

- Only indices 0..35 are drawn, because `numbers` starts as `Enumerable.Range(0, 36)`, even when the catalog holds more records.
- The English `SET <name>` looks only among the seven candidates. The Polish one looks in the whole catalog.
- Not every English command outside the recognised verbs is a no-op. A short command throws, and on a solved module `SET n` / `SET <name>` can wait forever.
- The comment above the override says "submit France four times". The code returns France seven times, and `Repeat(FranceIndex, 7)` follows the code.

## Model

| member | source | states |
|---|---|---|
| Text.IsWhiteSpace | Assets/Flags/FlagsModule.cs:252 | exactly the characters `char.IsWhiteSpace` accepts: the Unicode space separators (U+0020, U+00A0, U+1680, U+2000..U+200A, U+202F, U+205F, U+3000), the line and paragraph separators U+2028 and U+2029, U+0009..U+000D and U+0085; the ensures adds that upper-casing leaves them unchanged |
| Text.Upper | Assets/Flags/FlagsModule.cs:252 | `ToUpperInvariant` keeps the length, turns each ASCII lower-case letter into its capital (32 code points lower) and keeps every other character |
| Text.CodeUnits | Assets/Flags/FlagsModule.cs:276 | a character of the Basic Multilingual Plane is one code unit equal to itself; any other is a high surrogate followed by a low surrogate |
| Text.Utf16 | Assets/Flags/FlagsModule.cs:276 | a string's `Length` in code units is at least its number of characters and at most twice it |
| Text.BmpUtf16 | Assets/Flags/FlagsModulePL.cs:279 | a string of Basic Multilingual Plane characters is stored one code unit per character, each equal to its character |
| Text.StartsWith | Assets/Flags/FlagsModule.cs:276 | the character-level prefix test that `Substring(0, n) == p` amounts to; `SubstringIsPrefix` proves the equivalence |
| Text.SubstringIsPrefix | Assets/Flags/FlagsModule.cs:276 | on a string of at least `|p|` code units, `Substring(0, |p|) == p` holds exactly when the string starts with `p`, for any prefix `p` of the Basic Multilingual Plane, because no surrogate is a character |
| Text.TrimStart | Assets/Flags/FlagsModule.cs:252 | the result is a suffix of the input; exactly the leading white space is removed, and the result starts with something else |
| Text.TrimEnd | Assets/Flags/FlagsModule.cs:252 | the result is a prefix of the input; exactly the trailing white space is removed, and the result ends with something else |
| Text.Trim | Assets/Flags/FlagsModule.cs:252 | `Trim()` returns the slice `s[a..b]` of its input with only white space before `a` and after `b`, and it neither starts nor ends with white space |
| Text.TrimIsSlice | Assets/Flags/FlagsModulePL.cs:255 | a prefix of a suffix of a string, with only white space cut off at either end, is the middle slice of the string bounded by that white space |
| Text.StrLess | Assets/Flags/FlagsModule.cs:65 | the string order `OrderBy` sorts names, ISO codes, capitals, continents and currencies by, taken as the ordinal order; `StrLessIrreflexive`, `StrLessTransitive` and `StrLessTotal` make it a strict total order |
| Text.StrLessIrreflexive | Assets/Flags/FlagsModulePL.cs:65 | no string sorts before itself |
| Twitch.Normalize | Assets/Flags/FlagsModulePL.cs:255 | a normalised command is the slice of the upper-cased raw command left after removing exactly its leading and trailing white space |
| Twitch.KeywordTests | Assets/Flags/FlagsModule.cs:276 | the `Substring(0, 4) == "SET "` and `Substring(0, 7) == "SUBMIT "` tests are prefix tests, and the two keywords take four and seven code units |
| Twitch.LongerThanKeyword | Assets/Flags/FlagsModulePL.cs:279 | a command longer in code units than the `SET ` / `SUBMIT ` it starts with has a non-empty argument |
| Text.IsLetter | Assets/Flags/FlagsModule.cs:79 | the letters `char.IsLetter` accepts among U+0000..U+024F: A-Z, a-z, U+00AA, U+00B5, U+00BA, U+00C0..U+00D6, U+00D8..U+00F6 and U+00F8..U+024F; the ensures adds that a letter is never white space |
| Text.CountLetters | Assets/Flags/FlagsModule.cs:79 | the letter count is at most the length of the string, and is zero exactly when no character is a letter |
| Text.CountLettersCounts | Assets/Flags/FlagsModule.cs:79 | `Count(char.IsLetter)` is exactly the number of indices of the string holding a letter, the value row 4 compares with 9 |
| Text.LetterIndicesSnoc | Assets/Flags/FlagsModulePL.cs:79 | the letter positions of a string are those of its prefix plus the last index if it holds a letter |
| Text.CountLettersAppend | Assets/Flags/FlagsModulePL.cs:79 | the letters of a concatenation are the letters of its two parts |
| Sorting.SortBy | Assets/Flags/FlagsModule.cs:65 | `OrderBy` returns a permutation of its input, of the same length |
| Sorting.SortBySorted | Assets/Flags/FlagsModule.cs:70 | the result of `OrderBy(..).ThenBy(..)` is in non-decreasing key order |
| Sorting.SortByStable | Assets/Flags/FlagsModule.cs:75 | `OrderBy` is stable: for every key, the elements carrying it keep their input order |
| Sorting.SortByUnique | Assets/Flags/FlagsModule.cs:80 | a sorted, stable arrangement of the input is exactly what `OrderBy` returns |
| Sorting.LeTotal | Assets/Flags/FlagsModule.cs:85 | any two keys compare one way or the other |
| Sorting.LeTransitive | Assets/Flags/FlagsModule.cs:90 | the key order is transitive |
| Sorting.LeAntisymmetric | Assets/Flags/FlagsModule.cs:93 | keys that compare both ways are equal |
| Text.StrLessTransitive | Assets/Flags/FlagsModulePL.cs:65 | the ordinal string order is transitive |
| Text.StrLessTotal | Assets/Flags/FlagsModulePL.cs:93 | two distinct strings are ordered one way or the other |
| RuleEngine.OrderFor | Assets/Flags/FlagsModule.cs:60-93 | the override row yields entry 13 seven times; every other row yields a permutation of the candidates; `RowOrderIsStableSort` adds its key order |
| RuleEngine.RowKey | Assets/Flags/FlagsModule.cs:65-93 | the key selectors: name in rows 1 and 7, dial code then name in row 2, ISO code in row 3, capital in row 4, continent then name in row 5, currency then name in row 6; `RowOrderIsStableSort` states the resulting order |
| RuleEngine.Applies | Assets/Flags/FlagsModule.cs:58-89 | the condition of each row, the last one always true; `SelectRuleIsFirstMatch` states that a row is selected exactly when its condition is the first to hold |
| RuleEngine.WhiteFlagApplies | Assets/Flags/FlagsModule.cs:58-59 | the serial shares a character with "WHITEFLAG", BOB is unlit and entry 13 is a candidate; `WhiteFlagLabel` and `WhiteFlagOverride` give its effect |
| RuleEngine.SerialHasAnyOf | Assets/Flags/FlagsModule.cs:58 | `serial.Any("WHITEFLAG".Contains)`: some character of the serial is one of the letters; a helper of `WhiteFlagApplies` |
| RuleEngine.NorthAmericaApplies | Assets/Flags/FlagsModule.cs:64 | the main continent is "North America" and no indicator is lit |
| RuleEngine.DialCodeApplies | Assets/Flags/FlagsModule.cs:69 | the main dial code exceeds 100 and an RJ-45 port is present |
| RuleEngine.IsoCodeApplies | Assets/Flags/FlagsModule.cs:74 | the currency has a third character and the upper-cased main name contains it; `SelectRuleThrows` covers the currency too short to read |
| RuleEngine.CapitalApplies | Assets/Flags/FlagsModule.cs:79 | the main capital has more than nine letters, counted as `CountLettersCounts` states |
| RuleEngine.ContinentApplies | Assets/Flags/FlagsModule.cs:84 | the main continent is "Europe" and the currency is not "EUR" |
| RuleEngine.CurrencyApplies | Assets/Flags/FlagsModule.cs:89 | some candidate is on the main country's continent, as `list.Find(...) != null` tests |
| RuleEngine.GetOrder | Assets/Flags/FlagsModule.cs:55-94 | the order throws exactly when the currency is read too short; under the override it is entry 13 seven times, otherwise a permutation of the candidates; `GetOrderFollowsRule` ties it to the row `SelectRule` picks |
| RuleEngine.SelectRule | Assets/Flags/FlagsModule.cs:96-135 | the selected row's condition holds; `SelectRuleIsFirstMatch` adds that no earlier row's does |
| RuleEngine.GetRule | Assets/Flags/FlagsModulePL.cs:96-135 | the label chain throws exactly where the order chain throws; `LabelNamesOrder` ties the label to the row of the returned order |
| RuleEngine.Label | Assets/Flags/FlagsModulePL.cs:101-134 | the sixteen label strings of both languages; "White Flag (Unicorn)" labels exactly the override row, and `LabelInjective` adds that the labels of one language are pairwise distinct |
| RuleEngine.Repeat | Assets/Flags/FlagsModule.cs:60 | `Enumerable.Repeat(x, n)` has `n` elements, all `x` |
| RuleEngine.SelectRuleIsFirstMatch | Assets/Flags/FlagsModule.cs:96-135 | a row is selected exactly when its condition holds, no earlier row's does, and past row 3 the currency could be read |
| RuleEngine.SelectRuleThrows | Assets/Flags/FlagsModule.cs:115 | the chain throws exactly when rows 0-2 fail and the main currency has fewer than three characters |
| RuleEngine.GetOrderFollowsRule | Assets/Flags/FlagsModule.cs:55-94 | `GetOrder` returns the ordering of the row `GetRule` selects, and throws exactly when it throws |
| RuleEngine.LabelInjective | Assets/Flags/FlagsModulePL.cs:101-134 | distinct rows carry distinct labels, in both languages |
| RuleEngine.LabelNamesOrder | Assets/Flags/FlagsModulePL.cs:96-135 | the label `getRule` returns names the row whose ordering `getOrder` returned |
| RuleEngine.WhiteFlagLabel | Assets/Flags/FlagsModulePL.cs:99-101 | "White Flag (Unicorn)" is returned exactly when the serial shares a letter with WHITEFLAG, BOB is unlit and entry 13 is a candidate |
| RuleEngine.WhiteFlagOverride | Assets/Flags/FlagsModule.cs:58-60 | entry 13 repeated seven times is the order exactly under the same condition, for seven distinct candidates |
| RuleEngine.RowOrderIsStableSort | Assets/Flags/FlagsModule.cs:62-93 | outside the override, each row's order is a permutation of the candidates, sorted by that row's key, with equal keys in draw order |
| RuleEngine.RowOrderIsUnique | Assets/Flags/FlagsModulePL.cs:64-93 | any key-sorted arrangement that keeps equal keys in draw order is the row's order |
| RuleEngine.WellFormedNeverThrows | Assets/Flags/FlagsModule.cs:74 | with every currency at least three characters long, neither chain throws, and seven candidates give a seven-element order |
| Draw.Remove | Assets/Flags/FlagsModule.cs:151 | `List<int>.Remove(x)` shortens the list by one when `x` is present and leaves it unchanged otherwise |
| Draw.RemoveTakesOneCopy | Assets/Flags/FlagsModulePL.cs:151 | `Remove` takes away one copy of `x` and nothing else |
| Draw.RemoveFromIncreasing | Assets/Flags/FlagsModule.cs:145 | `numbers.Remove(x)` on a drawn value drops exactly `x` and shortens the list by one |
| Flags.SubmitVerdict | Assets/Flags/FlagsModule.cs:222-245 | a submission reports nothing once solved, a pass exactly when the choice is right, and a strike otherwise |
| Flags.FlagsModule.IsAnswer | Assets/Flags/FlagsModule.cs:225 | the candidate at the cursor is `order[number - 1]`; `OnSubmit` locks exactly when it holds |
| Flags.FlagsModule.constructor | Assets/Flags/FlagsModule.cs:45-53 | a fresh module has the cursor at 0, is unlocked, has no candidates and holds `numbers = 0..35` |
| Catalog.Range | Assets/Flags/FlagsModule.cs:53 | `Enumerable.Range(0, n)`, the initial `numbers`; a helper of the constructor and of `Start`, whose contracts state its contents |
| Flags.FlagsModule.Start | Assets/Flags/FlagsModule.cs:137-155 | the main country and seven candidates are eight distinct indices below 36; `numbers` keeps exactly the 28 others, in order; `order` is `GetOrder`'s result; `number` lies in 1..7 |
| Flags.FlagsModule.DrawCandidates | Assets/Flags/FlagsModule.cs:147-152 | the seven candidates are distinct indices below 36 other than the main one, and `numbers` keeps exactly the rest, in increasing order |
| Flags.FlagsModule.OnLeft | Assets/Flags/FlagsModule.cs:192-203 | the cursor moves one step left, wrapping around, and stays still once solved |
| Flags.FlagsModule.OnRight | Assets/Flags/FlagsModulePL.cs:205-216 | the cursor moves one step right, wrapping around, and stays still once solved |
| Flags.FlagsModule.OnSubmit | Assets/Flags/FlagsModule.cs:218-246 | the module locks exactly when `countries[position]` is `order[number - 1]`; the cursor never moves and a solved module reports nothing |
| Cursor.StepLeft | Assets/Flags/FlagsModule.cs:199 | a left step is a subtraction of one modulo seven |
| Cursor.StepRight | Assets/Flags/FlagsModulePL.cs:212 | a right step is an addition of one modulo seven |
| Cursor.StepsRight | Assets/Flags/FlagsModule.cs:270-274 | any number of right steps keeps the cursor in 0..6; `StepsRightIsModular` gives where it lands |
| Cursor.StepsRightIsModular | Assets/Flags/FlagsModule.cs:270-274 | `k` right steps add `k` modulo seven |
| Cursor.StepsAreInverse | Assets/Flags/FlagsModulePL.cs:199 | a left step undoes a right step and vice versa |
| Cursor.SevenStepsRightIsIdentity | Assets/Flags/FlagsModulePL.cs:273-277 | seven right steps return the cursor to its start |
| Cursor.Distance | Assets/Flags/FlagsModule.cs:282-285 | fewer than seven right steps reach any slot, none exactly when already there |
| Cursor.DistanceShrinks | Assets/Flags/FlagsModulePL.cs:285-288 | each right step away from the goal brings it one step closer |
| Cursor.DistanceOfSteps | Assets/Flags/FlagsModule.cs:289-292 | fewer than seven right steps are measured back by `Distance` |
| Cursor.Window | Assets/Flags/FlagsModule.cs:178-184 | the five shown slots are the cursor and two neighbours either side, in range and pairwise distinct |
| Twitch.TargetIn | Assets/Flags/FlagsModule.cs:279-288 | one digit from 1 to 7 selects that slot; otherwise a listed name selects that name; nothing else selects anything |
| Twitch.Seek | Assets/Flags/FlagsModulePL.cs:294-297 | a name search makes at most `bound` presses, and stopping early means the highlighted name matches |
| Twitch.SeekMisses | Assets/Flags/FlagsModule.cs:289-292 | every slot the search passes shows another name |
| Twitch.SeekReaches | Assets/Flags/FlagsModulePL.cs:294 | a name at slot `j` is reached no later than `j` |
| Twitch.SeekFindsCandidate | Assets/Flags/FlagsModule.cs:288-292 | a search for a candidate's name ends on it in under seven presses |
| Twitch.SeekFindsSlot | Assets/Flags/FlagsModule.cs:289 | with distinct names the search ends on the very slot showing the name |
| Twitch.SeekAbsent | Assets/Flags/FlagsModulePL.cs:291-297 | a name no candidate shows uses all presses and, bounded at seven, leaves the cursor where it was |
| Twitch.CommonEffect | Assets/Flags/FlagsModule.cs:254-274 | `SUBMIT` submits, `LEFT` / `RIGHT` step the cursor if unlocked, `CYCLE` returns it to its start, and only the throwing branch throws |
| Twitch.SlotEffect | Assets/Flags/FlagsModule.cs:279-286 | `SET n` lands on slot `n - 1`, except on a solved module with the cursor elsewhere, where it never ends |
| Twitch.CandidateNames | Assets/Flags/FlagsModule.cs:288 | the candidates' upper-cased names are the catalog's names at the drawn indices |
| Twitch.CandidatesAreKnown | Assets/Flags/FlagsModulePL.cs:291 | every candidate's name is a catalog name |
| Catalog.UpperNames | Assets/Flags/FlagsModule.cs:288 | the upper-cased names of the candidates, which the English name lookup searches; `CandidateNames` and `CandidatesAreKnown` relate them to the catalog |
| Catalog.AllUpperNames | Assets/Flags/FlagsModulePL.cs:291 | the upper-cased names of the whole catalog, which the Polish name lookup searches; `UnknownNameReturns` gives the effect of a name found there but not among the candidates |
| Twitch.RunCommon | Assets/Flags/FlagsModulePL.cs:257-277 | running a button or cycle command through the module does what `CommonEffect` says |
| Twitch.SetToSlot | Assets/Flags/FlagsModule.cs:282-285 | the digit loop ends on the target slot after `Distance` presses, or never ends on a solved module |
| Twitch.SeekCandidate | Assets/Flags/FlagsModule.cs:288-293 | the English name loop ends where `Seek` stops, or never ends on a solved module that highlights another name |
| Twitch.PressUntilShown | Assets/Flags/FlagsModule.cs:289-292 | on a live module the English name loop makes exactly the presses `Seek` counts and ends on the name |
| Twitch.PressToFirstMatch | Assets/Flags/FlagsModule.cs:289-292 | the `while` loop itself: when the first slot to the right showing the name lies `total` presses away, the loop makes exactly those presses and leaves the module valid |
| Twitch.SeekBounded | Assets/Flags/FlagsModulePL.cs:291-298 | the Polish name loop makes at most seven presses and ends where `Seek` stops |
| Twitch.PressAtMostSeven | Assets/Flags/FlagsModulePL.cs:293-296 | the Polish loop makes the presses `Seek` counts with a bound of seven on a live module, and none that move the cursor on a solved one |
| TwitchEn.ParseCommand | Assets/Flags/FlagsModule.cs:252-277 | a command that is not a bare keyword takes the `SET ` / `SUBMIT ` branch exactly when it starts with `SET ` or `SUBMIT `, and is split at that keyword; it throws exactly when it has fewer than four UTF-16 code units, or fewer than seven without starting with `SET ` |
| TwitchEn.ParseSetCommand | Assets/Flags/FlagsModule.cs:276-277 | `SET ` + any text selects that text, with no submit |
| TwitchEn.ParseSubmitCommand | Assets/Flags/FlagsModule.cs:295-296 | `SUBMIT ` + any text selects that text, then submits |
| TwitchEn.WideCharactersCountTwice | Assets/Flags/FlagsModule.cs:276 | "SET" followed by two characters outside the Basic Multilingual Plane has seven code units, so neither `Substring` throws and the command is ignored |
| TwitchEn.CommandEffect | Assets/Flags/FlagsModule.cs:251-298 | the English command throws exactly on the throwing branch, never ends only on a solved module, and the cursor stays in range |
| TwitchEn.SetDigitSelectsSlot | Assets/Flags/FlagsModule.cs:279-286 | on a live module `SET n` / `SUBMIT n` highlights slot `n - 1` |
| TwitchEn.SetNameStopsOnFirstMatch | Assets/Flags/FlagsModule.cs:288-293 | on a live module `SET <name>` stops at the first slot to the right showing the name |
| TwitchEn.SubmitNameSelectsCandidate | Assets/Flags/FlagsModule.cs:288-296 | on a live module `SUBMIT <name>` highlights and submits that candidate |
| TwitchEn.SubmitUnmatchedStillSubmits | Assets/Flags/FlagsModule.cs:295-296 | `SUBMIT <x>` presses submit, without moving, even when `x` designates nothing |
| TwitchEn.NeverEndsOnlyWhenSolved | Assets/Flags/FlagsModule.cs:282-292 | the English command never ends exactly when the module is solved and its target is another slot or another candidate |
| TwitchEn.RunGoto | Assets/Flags/FlagsModule.cs:276-297 | the `SET` / `SUBMIT` branch does what `CommandEffect` says |
| TwitchEn.ProcessTwitchCommand | Assets/Flags/FlagsModule.cs:251-298 | any chat command moves the cursor, submits and locks as `CommandEffect` says |
| TwitchEn.RunCommand | Assets/Flags/FlagsModule.cs:254-297 | a parsed command, run through the module's buttons, has the effect `CommandEffect` gives |
| TwitchPl.ParseCommand | Assets/Flags/FlagsModulePL.cs:279-280 | no command throws; the `SET ` / `SUBMIT ` branch is taken exactly when the command is longer than four / seven UTF-16 code units and starts with that keyword, and its argument is non-empty |
| TwitchPl.ParseSetCommand | Assets/Flags/FlagsModulePL.cs:279-280 | `SET ` + a non-empty text selects that text, with no submit |
| TwitchPl.ParseSubmitCommand | Assets/Flags/FlagsModulePL.cs:300-301 | `SUBMIT ` + a non-empty text selects that text, then submits |
| TwitchPl.ParsersAgree | Assets/Flags/FlagsModulePL.cs:279 | on normalised commands the Polish parser equals the English one, except that it ignores what the English one throws on |
| TwitchPl.CommandEffect | Assets/Flags/FlagsModulePL.cs:254-303 | the Polish command never throws and never ends only on a digit target of a solved module |
| TwitchPl.UnknownNameReturns | Assets/Flags/FlagsModulePL.cs:291-297 | a catalog name that no candidate shows leaves the cursor where it was |
| TwitchPl.EffectsAgree | Assets/Flags/FlagsModulePL.cs:282-298 | where the English command ends, the Polish one has the same effect, and it never ends only where the English one never ends |
| TwitchPl.PolishRefinesEnglish | Assets/Flags/FlagsModulePL.cs:255-302 | on every raw chat command the Polish module agrees with the English one where that one ends, and ignores what the English one throws on |
| TwitchPl.ModulesAgree | Assets/Flags/FlagsModulePL.cs:254-303 | the same agreement, for the candidates and catalog of a module in play |
| TwitchPl.RunGoto | Assets/Flags/FlagsModulePL.cs:279-302 | the `SET` / `SUBMIT` branch does what `CommandEffect` says |
| TwitchPl.ProcessTwitchCommand | Assets/Flags/FlagsModulePL.cs:254-303 | any chat command moves the cursor, submits and locks as `CommandEffect` says |
| TwitchPl.RunCommand | Assets/Flags/FlagsModulePL.cs:257-302 | a parsed command, run through the module's buttons, has the effect `CommandEffect` gives |

## Left out

- String order: `OrderBy` on strings uses the culture-sensitive default comparer, which is modelled as the ordinal order of code points. The two differ on mixed-case and accented text: for example, ordinal order puts the string "Port Vila" before "Port of Spain" because 'V' < 'o', while the culture order puts them the other way round. The sorting proofs (`SortBySorted`, `SortByStable`, `SortByUnique`) use only that the order is irreflexive, transitive and total (`StrLessIrreflexive`, `StrLessTransitive`, `StrLessTotal`), so they hold for any strict total order on strings. The culture order is one on the catalog's values only if no two distinct values compare equal under it (it ranks, for example, a precomposed "é" equal to "e" followed by U+0301, and ignores a soft hyphen); such ties, which the stable sort would keep in draw order, are not modelled.
- Text.Upper is `ToUpperInvariant` for ASCII letters only; other characters are left unchanged.
- Text.IsLetter is `char.IsLetter` for Latin letters up to U+024F; letters of other scripts are not recognised.
- JSON deserialisation with Newtonsoft is not modelled. The catalog is a given sequence. The class takes a catalog with at least 36 records whose currencies have at least three characters, which is all the chain reads.
- `KMBombInfo` is not modelled; its four answers are a `Facts` record given to the module.
- `Random.Range` is a nondeterministic choice within its bounds, not a distribution.
- Rendering, sound, interaction punch, `Destroy`, `numberDisplay.text`, textures and the scroll dots of `UpdateScreen` are side effects with no logic. Only the window's index arithmetic is modelled.
- `Debug.LogFormat` output and the static module-id counter are left out; the name of the fired rule is `GetRule`'s result.
- `Awake` (attaching the handlers) and the `TwitchHelpMessage` string are left out.
- The write of the drawn index into `CountryID` / `KrajID` is not modelled. A record's identity is its catalog index, which is the value written.
- `WaitForSeconds` and `yield` are not modelled. A command runs as plain sequencing, without delays or cancellation by a later command.
- Twitch.SetToSlot and Twitch.SeekCandidate: a loop that can never end is reported as `NeverEnds` without being entered, because its presses would change nothing.
- Twitch.SeekBounded: the counter's value after the last comparison (`cycle++` increments it once more) is not observable and is not kept.
- Flags.FlagsModule.Start: a catalog holding fewer than 36 entries, for which `countryInfo[main]` throws, is excluded by the constructor's precondition rather than modelled as an error.
- RuleEngine.IsoCodeApplies reads `Currency[2]` as the third character, not the third UTF-16 code unit, and `CurrencyReadable` counts characters; the two agree on currencies whose first three characters lie in the Basic Multilingual Plane, as every ISO 4217 code does.
