# Secret Santa ("amigo secreto") in Dafny

A model of the logic of `src/app.js`, a browser app for a Secret-Santa gift exchange:

- the organiser builds a list of participant names;
- the app draws a random pairing in which nobody gives to themselves, retrying up to a hundred times;
- each pairing is saved in a shared key-value store under a random code `REGALO-XXXXXX`;
- each participant later types their code once to learn whom they give a present to, and the code is then deleted.

An attempt at the drawing fails when a giver has nobody left to draw but themselves. With a list free of duplicates, this happens only at the last giver, who is then alone in the pool (`Drawing.DeadEndOnlyAtLastGiver`).

Modules, one per component of the app:

- `Text` (`text.dfy`): `trim`, and an ASCII-only `toUpperCase`, on what users type.
- `Seqs` (`seqs.dfy`): the array operations `filter`, `indexOf` and `splice`.
- `Oracle` and `Codes` (`codes.dfy`): `Math.random` as an oracle, and `generateRandomCode`.
- `Roster` (`roster.dfy`): the `participants` list as class `Organizer`, with `addParticipant` and `removeParticipant`.
- `Drawing` (`drawing.dfy`): the retry loop of `generateCodes` and one attempt of it.
- `Storage` (`storage.dfy`): `window.storage` as class `SharedStore`, holding a `map` from code to record.
- `Sorteo` (`sorteo.dfy`): `generateCodes` as a whole, meaning the size check, the drawing and the save loop.
- `Redemption` (`redemption.dfy`): `revealWithCode`.

`Math.random` is a parameter `rand: nat -> real`. Every value it gives lies in [0, 1). The n-th call made by the app reads `rand(n)`. Each method takes the number of calls made so far (`cursor`) and returns the number after its own calls. The order of the calls follows the code. For each giver there is one call for the receiver's index and then six for the code's characters. A giver who meets a dead end makes no calls. So the drawing is proved for every possible sequence of random numbers.

## Model

| member | source | states |
|---|---|---|
| Text.LeadingWhitespace | src/app.js:29 | the count of leading characters `trim()` strips: all of them are whitespace, and the next character, if any, is not |
| Text.TrailingWhitespace | src/app.js:29 | the count of trailing characters `trim()` strips: all of them are whitespace, and the character before them, if any, is not |
| Text.Trim | src/app.js:29 | `trim()` returns a string with no whitespace at either end and no longer than the input |
| Text.TrimKeepsInfix | src/app.js:29 | `trim()` keeps one contiguous piece of the input, and what it cuts off on each side is whitespace |
| Text.TrimOfTrimmed | src/app.js:29 | a string with no whitespace at either end is left unchanged by `trim()` |
| Text.TrimIdempotent | src/app.js:29 | trimming twice gives the same result as trimming once |
| Text.TrimEmptyIff | src/app.js:29-37 | a typed name is refused as empty exactly when it is all whitespace, including when it is empty |
| Text.ToUpper | src/app.js:161 | the model's ASCII-only upper-casing keeps the length and maps each character on its own |
| Text.UpperChar | src/app.js:161 | the model's upper-casing of one character turns a-z into A-Z and leaves every other character as it is |
| Text.Normalize | src/app.js:161 | a typed code after `trim()` and the model's ASCII-only upper-casing has no whitespace at either end, is no longer than what was typed, and holds no lower-case ASCII letter |
| Text.NormalizeEmptyIff | src/app.js:161-169 | a typed code is refused as empty exactly when it is all whitespace |
| Text.NormalizeIdempotent | src/app.js:161 | normalising a code that is already normalised changes nothing |
| Seqs.Without | src/app.js:50 | `filter(p => p !== x)` keeps the order of the input and drops every `x`, and every other element keeps its number of copies |
| Seqs.SubsequenceMultiset | src/app.js:50 | a subsequence never holds more copies of an element than its source |
| Seqs.WithoutUnique | src/app.js:50 | the filter is the only order-preserving selection that drops exactly the `x`s: it removes exactly the entries equal to the name and keeps the rest in their order |
| Seqs.NoDupIffSingleCounts | src/app.js:39-44 | a list has no duplicate exactly when no element occurs twice in it |
| Seqs.WithoutKeepsNoDup | src/app.js:50 | filtering keeps a list free of duplicates |
| Seqs.IndexOf | src/app.js:103 | `indexOf` gives -1 exactly when the element is absent, and otherwise gives the position of its first occurrence |
| Seqs.RemoveAt | src/app.js:103 | `splice(i, 1)` removes the element at `i`, keeps the others in order, and shortens the list by one |
| Oracle.Pick | src/app.js:22 | `Math.floor(Math.random() * k)` is an index below `k` |
| Oracle.PickReachesEveryIndex | src/app.js:98 | every index below `k` can be the one picked |
| Codes.AlphabetAt | src/app.js:19 | the 36-character alphabet is A-Z followed by 0-9, each at its ASCII position |
| Codes.CodeChar | src/app.js:22 | every drawn character is an upper-case letter or a digit |
| Codes.CodeCharAt | src/app.js:22 | the drawn character is the alphabet's character at the index `Math.floor(Math.random() * chars.length)` |
| Codes.Drawn | src/app.js:21-23 | the loop of `generateRandomCode` run k times draws exactly k characters |
| Codes.DrawnAt | src/app.js:21-23 | the i-th random character of a code comes from the i-th oracle value of the loop |
| Codes.DrawnCodeIsCode | src/app.js:18-25 | the prefix followed by six drawn characters is a well-formed code |
| Codes.GenerateRandomCode | src/app.js:18-25 | the code is `REGALO-` followed by 6 alphabet characters (13 in all), each drawn from one oracle value in turn, using 6 oracle values |
| Codes.IndexIn | src/app.js:19 | every code character has a position in the alphabet |
| Codes.OracleFor | src/app.js:22 | for any code characters there is a run of `Math.random` whose values all lie in [0, 1) |
| Codes.OracleForDraws | src/app.js:21-23 | that run makes the loop draw exactly those characters |
| Codes.EveryCodeIsGenerated | src/app.js:18-25 | every string of the code format is what `generateRandomCode` returns for some run of `Math.random` |
| Codes.CodeIsNormalized | src/app.js:20-23 | a code typed back exactly as it is displayed normalises to itself |
| Roster.AppendKeepsRoster | src/app.js:39-44 | appending a trimmed, non-empty name that is not yet listed keeps the list free of duplicates and of blank or untrimmed names |
| Roster.WithoutKeepsRoster | src/app.js:50 | removing a name keeps that invariant |
| Roster.Organizer.constructor | src/app.js:1 | the list starts empty |
| Roster.Organizer.AddParticipant | src/app.js:27-47 | an empty trimmed name is refused and so is a name already listed, and the list is then unchanged; any other trimmed name is appended at the end; the invariant is kept |
| Roster.Organizer.RemoveParticipant | src/app.js:49-52 | the list becomes the old list with every copy of the name removed; the invariant is kept |
| Roster.DuplicateNameScenario | src/app.js:34-44 | adding "Ana" twice succeeds the first time, is refused as a duplicate the second time, and leaves one name |
| Drawing.OnlyGiverLeft | src/app.js:91-96 | when no possible receiver is left, the pool held only copies of the giver |
| Drawing.ChosenIsAvailable | src/app.js:91-99 | the chosen receiver is in the pool and is not the giver |
| Drawing.MoveToDrawn | src/app.js:98-103 | moving the chosen receiver from the pool to the drawn receivers keeps the pool equal to everyone not yet drawn |
| Drawing.DrawStep | src/app.js:89-103 | one giver's turn extends a partial drawing, and the pool that is left is the participants not yet drawn |
| Drawing.EmptyPoolCompletes | src/app.js:86-104 | a partial drawing that empties the pool is complete |
| Drawing.DrawAttempt | src/app.js:85-104 | a valid attempt gives one assignment per participant, with givers in list order, nobody drawing themselves, and receivers forming a permutation of the list; an invalid attempt stopped at a giver who had only themselves left; every code is well formed; 7 oracle values are used per assigned giver |
| Drawing.Draw | src/app.js:80-107 | the loop stops after 1 to 100 attempts; on success the result is a complete drawing; on failure all 100 attempts were made and the last one ended in a dead end |
| Drawing.DeadEndOnlyAtLastGiver | src/app.js:89-96 | with a list free of duplicates, an attempt can only get stuck at the last giver, when that giver is the only participant not yet drawn |
| Drawing.DrawingIsBijection | src/app.js:89-104 | in a complete drawing over a list free of duplicates, everyone gives once and receives exactly once |
| Drawing.ThreeCycles | src/app.js:89-104 | a permutation of three distinct names with no name left in its place is one of the two 3-cycles |
| Drawing.ThreeDrawingsAreCycles | src/app.js:89-104 | every complete drawing of three distinct names a, b, c is a→b→c→a or a→c→b→a |
| Drawing.ForwardCycleIsDrawing | src/app.js:89-104 | a→b→c→a is a complete drawing of three distinct names, whatever the codes |
| Drawing.BackwardCycleIsDrawing | src/app.js:89-104 | a→c→b→a is a complete drawing of three distinct names, whatever the codes |
| Drawing.ThreeCyclesAreDrawings | src/app.js:89-104 | with givers a, b, c in order, either 3-cycle of receivers is a complete drawing |
| Drawing.ThreeParticipants | src/app.js:84-107 | for any three distinct names (Ana, Beto and Cata, say), the complete drawings are exactly the two 3-cycles, a→b→c→a and a→c→b→a |
| Drawing.PoolAfterSwap | src/app.js:89-103 | after a→b and b→a, only c is left in the pool, and no receiver was drawn more often than listed |
| Drawing.DeadEndIsPossible | src/app.js:91-96 | after a→b and b→a, the attempt is stuck at c, so an attempt can fail |
| Storage.SharedStore.Set | src/app.js:118-126 | `set` writes or overwrites one key and changes nothing else |
| Storage.SharedStore.Get | src/app.js:172 | `get` returns the record for a present key and nothing for an absent one |
| Storage.SharedStore.Delete | src/app.js:187 | `delete` removes that key only |
| Sorteo.RecordOf | src/app.js:118-124 | the record saved for an assignment holds its giver, its receiver and the drawing id |
| Sorteo.SaveAll | src/app.js:117-127 | after the save loop, the store keys are the old keys plus every code, and keys that are not codes keep their old records |
| Sorteo.LastWriteWins | src/app.js:117-127 | the record under a code comes from the last assignment saved with that code, so a repeated code keeps only the later pairing |
| Sorteo.SavedUnderOwnCode | src/app.js:116-127 | when the codes are distinct, each code holds the giver, receiver and drawing id of its own assignment |
| Sorteo.GenerateCodes | src/app.js:73-135 | fewer than 3 participants is refused, and only then; giving up happens only after all 100 attempts, the last stuck at a dead end, and writes nothing; otherwise a complete drawing with well-formed codes is saved code by code and the store is updated with it |
| Redemption.Reveal | src/app.js:161-183 | a typed code is refused as empty exactly when it is blank; it reveals a receiver exactly when its normalised form is a stored key, and the receiver is the one stored under that key |
| Redemption.AfterReveal | src/app.js:186-187 | after typing a code, the store keeps every other key with its record, and keeps the typed key exactly when it was stored but not revealed |
| Redemption.RevealWithCode | src/app.js:159-193 | the outcome and the new store contents are those given by `Reveal` and `AfterReveal` |
| Redemption.RevealCases | src/app.js:161-187 | a blank code is refused; a code not in the store is "invalid or already used"; in both cases the store is unchanged; a stored code reveals its receiver, and its key and only its key is removed |
| Redemption.SecondRedemptionFails | src/app.js:186-187 | once a code has revealed a receiver, typing it again in any spelling that normalises to it is "invalid or already used" |
| Redemption.OtherCodesUnaffected | src/app.js:187 | redeeming one code does not change the answer for any other code |
| Redemption.IssuedCodeRevealsReceiver | src/app.js:117-127 | after a drawing with distinct codes has been saved, each giver's code, typed as displayed, reveals that giver's receiver |
| Redemption.RedeemTwice | src/app.js:159-193 | redeeming a stored code twice in a row gives its receiver, then a refusal |

## Left out

- UI glue is not modelled: `switchMode`, `updateParticipantsList`, `showCodes`, `resetOrganizer`, `resetParticipant`, the Enter-key listeners, and the DOM updates, `alert`s and error texts inside the modelled functions. Each outcome datatype names the case that the UI would report.
- `copyCode` is not modelled. It only calls the browser clipboard API.
- `window.storage` is modelled as a synchronous in-memory map. Its asynchrony, failures and sharing between sessions are not modelled. So these paths are left out: the `catch` of `generateCodes`, which can leave a partly saved drawing; the `catch` of `revealWithCode`, which shows "invalid or already used" for any storage or JSON error; and the race in which two sessions read the same code before either deletes it.
- JSON encoding of records is not modelled. A record is a datatype with `giver`, `receiver` and `sorteoId`.
- `sorteoId` is a parameter of `Sorteo.GenerateCodes` and is not built from `Date.now()`.
- The distribution of `Math.random` and floating-point rounding are not modelled. `Oracle.Pick` uses exact real arithmetic, and only the range of the chosen index is relied on.
- Text.UpperChar, Text.ToUpper, Text.Normalize: map only a-z to A-Z. The length bound of `Text.Normalize` holds only for this ASCII-only mapping. The full Unicode case mapping of `toUpperCase` is not modelled. That includes accented letters such as é → É, ſ → S and ı → I, and the mappings that change length, such as ß → SS and the ligatures ﬁ, ﬀ, ﬂ, ﬅ, ﬆ → FI, FF, FL, ST, ST.
- Redemption.RevealWithCode: typed text that is not a code can still upper-case to a stored code in JavaScript. For example, `regalo-ſ1x2y3` becomes `REGALO-S1X2Y3`, which `revealWithCode` would reveal. Because `Text.ToUpper` is ASCII-only, the model answers "invalid or already used" for such input instead. For text made of ASCII characters and whitespace, the model's answer is exact.
- Sorteo.GenerateCodes: does not promise that the codes of a drawing are distinct, because the source never checks for a repeated code. `Sorteo.LastWriteWins` states what a repeated code does. `Sorteo.SavedUnderOwnCode` and `Redemption.IssuedCodeRevealsReceiver` assume distinct codes.
