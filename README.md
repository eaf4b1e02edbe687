# Dragalia save editor: character and profile core

A model of the core of a command-line editor for offline Dragalia Lost
save files. The save file is a JSON document. The editor reads it once,
edits it in memory and writes it back after every change. Its core has two
parts.

- `json_handling.py`, class `DragaliaSaveFile`. It holds the document, with
  four parts: the profile (`user_data`), the roster (`chara_list`), the
  five adventurer encyclopedia bonuses and the unit-story ledger. Its
  operations are:
  - adding or refreshing one character (`add_char`);
  - synthesising a fully built record (`_create_max_character`);
  - adding the missing catalog characters (`add_all_missing_chars`);
  - rebuilding every owned character (`max_all_current_chars`);
  - doing both (`max_out_character_list`);
  - editing the profile and writing the document (`modify_user_data`,
    `_update`).
- `dragalia_save_editor_interface.py`. From it the model takes:
  - the helpers `_pretty_print`, `_restructure_id`, `_proper` and
    `_return_if_exists`;
  - the currency cases of `_modify_user_data`;
  - `_set_character_filter` and the filter test of `_view_characters`.

## How the model is built

- The modules are:
  - `Decimal`: Python's `str`/`int` on non-negative integers.
  - `Text`: `str.split`, `join`, ASCII `upper`/`capitalize` and `strip`.
  - `SaveModel`: the document, the catalog, and pure functions saying what
    each operation does to the document.
  - `SaveProperties`: lemmas about those functions.
  - `JsonHandling`: the class `DragaliaSaveFile`.
  - `EditorHelpers`: the interface helpers and the currency clamp.
  - `CharacterFilter`: the class `DragaliaSaveEditorInterface`, holding the
    two filter sets.
- `DragaliaSaveFile` keeps the document in fields: a `map` for the profile,
  a `seq` for the roster, a `seq` for the bonuses and a `seq` for the
  ledger. Each method updates these fields in place. Its `ensures` clause
  says the new state equals a `SaveModel` function of the old state. The
  loops of `add_char`, `_add_stories`, `add_all_missing_chars` and
  `max_all_current_chars` are `while` loops. The search loop of `add_char`
  keeps "no earlier record has the id" as its invariant; for the other
  three a prefix function of `SaveModel` is the invariant.
- The catalog (`all_character_data`, `story_data`) is a read-only value. Its
  tables are keyed by `str(id)` in the resource files. The model keys them
  by the id itself. This is sound because `str` is injective on ids and
  `int(str(n)) == n` (`Decimal.IntOfStr`, `Decimal.StrOfInt`). The ids are
  kept in file order, the order a Python dict iterates in.
- `time.time()` becomes a parameter `now`.
- The file write of `_update` becomes a counter `saves`, the number of
  writes of the whole document.
- Encyclopedia bonuses are kept in integer tenths. The game adds 0.1, 0.2
  and 0.3; the model adds 1, 2 and 3.
- Game ids have at least six digits (`IsGameId`: id >= 100000). The code
  reads `str(id)[5]` for the element and `str(id)[2]` for the weapon.
- `_restructure_id` (dragalia_save_editor_interface.py:83-87) builds the
  listing's sort key from the element digit, then the weapon digit, then
  5 minus the rarity digit, then the id from its seventh digit on.
- In `_set_character_filter`, the `line.strip() == ''` branch changes
  nothing. A blank line names no valid token either, so the branch is
  redundant (`CharacterFilter.BlankLineNamesNothing`).
- On re-adding an owned character, `add_char` ignores the caller's spiral
  flag, hp, attack, shared-skill cost and story list. It rebuilds the record
  from the catalog with the defaults and keeps the old acquisition time.
  The model does the same (`SaveProperties.AddCharRefreshIgnoresArguments`).

## Model

| member | source | states |
|---|---|---|
| SaveModel.Load | json_handling.py:99-134 | the document loads exactly when profile, roster, both bonus tables and story ledger are present; each error is reported exactly when its section is the first one missing, in the order profile (`UserDataNotFound`), roster (`CharactersNotFound`), either bonus table (`EncyclopediaBonusesNotFound`), story ledger (`UnitStoryListNotFound`); a loaded document holds the sections as read, the character bonus table as its bonuses, and starts with no writes |
| SaveModel.FindChar | json_handling.py:150-156 | the search result is a position holding the id with no earlier position holding it, and there is no result exactly when the id is not on the roster |
| JsonHandling.DragaliaSaveFile.FindCharIndex | json_handling.py:150-156 | the search loop finds the first position holding the id, or reports it absent, as `FindChar` says |
| SaveModel.ElementDigit | json_handling.py:165 | the element read from the sixth digit of the id is a single digit |
| SaveModel.ManaCircle | json_handling.py:249-253 | the mana-circle list has exactly the requested length |
| SaveModel.Accrue | json_handling.py:286-290 | adding a bonus changes only the entry of the given element, by the given hp and attack, and leaves the table unchanged for an element outside 1..5 |
| SaveModel.AccrueTwice | json_handling.py:168-184 | adding the hp and attack parts in two calls gives the same table as adding both at once |
| SaveModel.AccrueAsWritten | json_handling.py:286-290 | as written, every call with an element in 1..5 ends in a `TypeError`; any other element leaves the table as it was |
| SaveProperties.FsumCallRaises | json_handling.py:286-290 | for every valid element the call as written raises, while the corrected addition adds exactly the deltas |
| JsonHandling.DragaliaSaveFile.AddAdvEncycloBonus | json_handling.py:286-290 | the bonus table becomes `Accrue` of the old one: the given element's entry gains exactly the given hp and attack, any other element code leaves the table alone, and nothing else changes |
| JsonHandling.DragaliaSaveFile.AddRefreshBonus | json_handling.py:168-184 | the nested level and mana-circle branches of the refresh add exactly the `RefreshDelta` amounts to the character's element, and nothing else changes |
| SaveProperties.RefreshDeltaCases | json_handling.py:168-184 | the refresh bonus for hp is 0 when the level is unchanged and 0.2 only when a character below level 80 reaches the spiral cap; the same holds for attack with mana-circle length and 50; otherwise 0.1 |
| SaveProperties.MaxRecordFullyBuilt | json_handling.py:249-280 | a synthesised record is at full progress (rarity 5, plus counts 100, extra abilities 5, third ability and burst attack 2, new, permanent, listed; spiralled: level 100, 8866950 exp, 70 mana pieces, 5 limit breaks, 20 extra levels, skills 4/3, abilities 3/3, combo 1; otherwise: level 80, 1191950 exp, 50 pieces, 4 limit breaks, skills 3/2, abilities 2/2, combo 0), has the requested id and time, is at level 100 exactly when spiralled, and carries the given hp, attack and shared-skill cost |
| SaveProperties.CatalogOverridesCaller | json_handling.py:237-247 | for a catalogued id the caller's build is ignored: spiral, shared-skill cost, hp and attack come from the catalog's spiral or base sums; an uncatalogued id keeps the caller's build |
| JsonHandling.DragaliaSaveFile.CreateMaxCharacter | json_handling.py:233-284 | returns the full-progress record for the resolved build, stamped with the given time or the clock, and adds the character's stories to the ledger |
| JsonHandling.DragaliaSaveFile.AddStories | json_handling.py:298-312 | the ledger becomes the old ledger followed by one unread entry per requested story id not already in it |
| JsonHandling.DragaliaSaveFile.AddStory | json_handling.py:314-315 | the ledger grows by exactly the given entry |
| SaveProperties.LedgerIdsAppend | json_handling.py:301-302 | the story ids of two ledgers joined are the union of their ids |
| SaveProperties.NewEntriesExactly | json_handling.py:304-312 | every appended story entry is unread, was requested and was not already present, and every requested id that was absent gets appended |
| SaveProperties.NewEntriesNone | json_handling.py:304-312 | when every requested story is present nothing is appended |
| SaveProperties.WithStoriesCovers | json_handling.py:298-312 | the old ledger is a prefix of the new one, and every requested story is in the new ledger |
| SaveProperties.WithStoriesIdempotent | json_handling.py:298-312 | adding the same stories a second time changes nothing |
| SaveProperties.NewEntriesUnique | json_handling.py:304-312 | a request without repeated ids appends no story twice |
| SaveProperties.WithStoriesKeepsUnique | json_handling.py:298-312 | a ledger without repeated story ids keeps that property when the request has no repeats |
| SaveProperties.RepeatedIdAppendedTwice | json_handling.py:310-312 | the present-set is taken once before the loop, so a story id repeated in an explicit request is appended twice |
| SaveModel.AfterAddChar | json_handling.py:146-202 | reports an addition exactly when the id was not on the roster; afterwards the id is on the roster, the roster grows by one only on an addition, earlier positions keep their ids, and the profile is untouched |
| JsonHandling.DragaliaSaveFile.AddChar | json_handling.py:146-202 | the new state and result are exactly those `AfterAddChar` gives for the old state |
| SaveProperties.AddCharRefreshesInPlace | json_handling.py:158-186 | re-adding an owned id changes only its first record, to the catalog rebuild with the old time, and reports no addition |
| SaveProperties.AddCharRefreshIgnoresArguments | json_handling.py:159-163 | re-adding an owned id gives the same document whatever build, stories, time and clock the caller passes |
| SaveProperties.AddCharAppends | json_handling.py:187-197 | adding a new id appends exactly its record, adds its stories, and raises only its element's bonus by 0.3 or 0.2 in both hp and attack |
| SaveProperties.AddCharSaves | json_handling.py:199-200 | the document is written once when not grouped and not at all when grouped; the profile is untouched |
| SaveProperties.AddCharBonusNeverDecreases | json_handling.py:165-195 | no encyclopedia bonus ever goes down |
| SaveProperties.AddCharKeepsUniqueIds | json_handling.py:146-202 | a roster without repeated ids keeps that property |
| SaveProperties.RefreshOfMaxedKeepsBonus | json_handling.py:168-184 | refreshing a record whose level and mana circle length already equal the catalog rebuild's leaves the bonuses as they were, whatever its other fields hold |
| SaveProperties.AddCharFirstMatch | json_handling.py:146-197 | afterwards the id's first record is the full-progress build (the caller's build when new, the default when owned), and the ledger has gained the matching stories |
| SaveProperties.AddCharIdempotent | json_handling.py:146-202 | for a character that is catalogued, or added with the catalog defaults, whose first grouped add took the catalog's stories (no story list given), a second grouped add with any arguments leaves the document unchanged |
| SaveProperties.FindCharSameIds | json_handling.py:150-156 | the search depends only on the ids on the roster |
| SaveProperties.FindCharUnique | json_handling.py:150-156 | on a roster without repeated ids the search finds each record at its own position |
| JsonHandling.DragaliaSaveFile.CurrentCharIds | json_handling.py:205-209 | the first loop collects exactly the ids on the roster |
| SaveModel.AddMissingUpTo | json_handling.py:211-214 | after the first n catalog ids the loop has kept the profile and written nothing, and its count is the number of missing ids seen |
| SaveModel.AddMissingAppends | json_handling.py:204-214 | the catalog loop only appends: the roster becomes the old one followed by default-built records for the missing ids, in catalog order |
| SaveModel.AddIfAbsentAppends | json_handling.py:212-214 | one pass appends the key exactly when it is not on the roster and is not the sentinel 19900004 |
| SaveModel.MissingIdsExclude | json_handling.py:211-212 | a catalog id later than the first n is not among their missing ids |
| JsonHandling.DragaliaSaveFile.AddIfMissing | json_handling.py:212-214 | one pass of the catalog loop moves the state and count from the prefix n to the prefix n + 1 |
| JsonHandling.DragaliaSaveFile.AddEachMissing | json_handling.py:211-214 | the catalog loop leaves the state and count that `AddMissingUpTo` gives for the whole catalog |
| JsonHandling.DragaliaSaveFile.AddAllMissingChars | json_handling.py:204-217 | the new state and count are exactly `AfterAddAllMissing` of the old state |
| SaveProperties.MissingIdsAddable | json_handling.py:211-212 | the ids added are catalogued, distinct, absent from the roster and never the sentinel |
| SaveProperties.MissingIdsContains | json_handling.py:211-212 | every catalog id absent from the roster and not the sentinel is added |
| SaveProperties.MissingIdsComplete | json_handling.py:211-212 | every catalogued id except the sentinel that is absent from the roster is added |
| SaveProperties.ExtendedRoster | json_handling.py:211-214 | appending default records for those ids keeps the old roster as a prefix, covers the catalog, and keeps ids unique |
| SaveProperties.AddAllMissingComplete | json_handling.py:204-217 | the old roster is kept; each appended record is a default-built catalog character stamped with the clock; afterwards every catalog character but the sentinel is owned; the count is the number appended; unique ids stay unique; each element's bonus entry gains exactly 0.3 per appended character of that element with a mana spiral and 0.2 per other one, in hp and in attack, and no other entry changes; the old ledger is a prefix, only unread entries are added, and the ledger's ids are its old ids plus the catalog stories of the appended characters; the document is written once |
| SaveProperties.AddDefaultGain | json_handling.py:187-195 | adding a character not on the roster under the catalog build raises its element's entry by 0.3 when it has a mana spiral and 0.2 otherwise, in hp and in attack, and nothing else |
| SaveProperties.AddMissingGains | json_handling.py:211-214 | the catalog loop raises each element's entry by exactly the sum of those gains over the missing characters of that element, and leaves every other entry alone |
| SaveProperties.AddDefaultStories | json_handling.py:158-200 | `add_char` without a story list walks the catalog's stories of the character, whether it is new or owned |
| SaveProperties.WithStoriesExtends | json_handling.py:298-312 | `_add_stories` keeps the old ledger as a prefix, appends only unread entries, and the ledger's ids become exactly its old ids plus the walked ones |
| SaveProperties.AddMissingStories | json_handling.py:211-214 | the catalog loop keeps the old ledger as a prefix, appends only unread entries, and adds exactly the catalog stories of the missing characters |
| SaveModel.MaxCurrentUpTo | json_handling.py:220-225 | after the first n roster positions the roster has the same length and ids, the profile is untouched and nothing is written |
| JsonHandling.DragaliaSaveFile.MaxIfCatalogued | json_handling.py:221-225 | one pass of the roster loop moves the state from the prefix i to the prefix i + 1 |
| JsonHandling.DragaliaSaveFile.MaxAllCurrentChars | json_handling.py:219-227 | the new state is exactly `AfterMaxAllCurrent` of the old state |
| SaveProperties.MaxCurrentRefreshes | json_handling.py:220-225 | on a roster without repeated ids, each position passed whose id is catalogued holds the catalog rebuild with its own time, and every other position is unchanged |
| SaveProperties.MaxCurrentStepChars | json_handling.py:221-225 | one pass replaces exactly the current position with its catalog rebuild when the id is catalogued |
| SaveProperties.MaxAllCurrentRefreshes | json_handling.py:219-227 | the roster keeps its length and ids; uncatalogued records are untouched; every catalogued record is its catalog rebuild; unique ids stay unique; the old ledger is a prefix, only unread entries are added, and the ledger's ids are its old ids plus the catalog stories of the catalogued characters on the roster; the document is written once |
| SaveProperties.MaxCurrentStories | json_handling.py:220-225 | the roster loop keeps the old ledger as a prefix, appends only unread entries, and adds exactly the catalog stories of the catalogued characters it has passed |
| JsonHandling.DragaliaSaveFile.MaxOutCharacterList | json_handling.py:229-231 | the new state is exactly `AfterMaxOut` (rebuild all, then add all missing) of the old state |
| SaveProperties.MaxOutCompletes | json_handling.py:229-231 | afterwards ids are unique, every catalog character but the sentinel is owned and at its catalog rebuild; the bonus table is the one left by `max_all_current_chars` raised by exactly the gains of the characters that were missing; the old ledger is a prefix, only unread entries are added, and its ids are the old ones plus the catalog stories of the catalogued owned characters and of the missing ones; the document has been written twice |
| SaveProperties.AddMissingBonusGrows | json_handling.py:211-214 | the catalog loop of `add_all_missing_chars` never lowers an encyclopedia bonus |
| SaveProperties.MaxCurrentBonusGrows | json_handling.py:220-225 | the roster loop of `max_all_current_chars` never lowers an encyclopedia bonus |
| SaveProperties.BulkBonusesNeverDecrease | json_handling.py:204-231 | `add_all_missing_chars`, `max_all_current_chars` and `max_out_character_list` each leave every encyclopedia bonus at or above its old value |
| SaveProperties.MaxCurrentOnRefreshed | json_handling.py:220-225 | on a roster whose catalogued records are all their catalog rebuilds, the roster loop changes neither the roster nor the bonuses |
| SaveProperties.AddMissingNoneMissing | json_handling.py:211-214 | when every catalog character but the sentinel is owned, the catalog loop adds nothing and counts 0 |
| SaveProperties.MaxOutOnMaxedRoster | json_handling.py:219-231 | maxing out an already maxed-out roster (complete, every catalogued record its catalog rebuild) leaves the roster and the bonuses as they were, after `max_all_current_chars` and after `max_out_character_list`; only the two writes happen |
| JsonHandling.DragaliaSaveFile.GetUserData | json_handling.py:136-137 | returns the profile as held |
| JsonHandling.DragaliaSaveFile.GetCharacterData | json_handling.py:139-140 | returns the roster as held |
| JsonHandling.DragaliaSaveFile.ModifyUserData | json_handling.py:142-144 | sets the one profile field, changes nothing else, and writes the document once |
| JsonHandling.DragaliaSaveFile.Update | json_handling.py:317-324 | one more write of the document |
| EditorHelpers.PrettyPrint | dragalia_save_editor_interface.py:27-35 | the insertion loop produces the decimal text of the number grouped in threes from the right |
| EditorHelpers.PrettyPrintGroups | dragalia_save_editor_interface.py:27-35 | for every integer, removing the commas gives back `str(num)` and there are (length - 1) / 3 commas; for a non-negative number the first group has 1 to 3 digits and every later group exactly 3 |
| EditorHelpers.ChunksShape | dragalia_save_editor_interface.py:31-33 | the groups are 1 to 3 digits first and 3 after, (n + 2) / 3 of them, made of the input's characters |
| EditorHelpers.GroupedSplit | dragalia_save_editor_interface.py:31-33 | splitting the grouped text at commas gives back the groups |
| EditorHelpers.GroupedRemove | dragalia_save_editor_interface.py:31-33 | removing the inserted commas gives back the input |
| EditorHelpers.GroupedCount | dragalia_save_editor_interface.py:31-33 | the number of commas inserted is one less than the number of groups |
| EditorHelpers.NegativeStrayComma | dragalia_save_editor_interface.py:27-35 | as written, -123 prints as "-,123": the sign becomes a group of its own |
| EditorHelpers.PrettyPrintSignedGroups | dragalia_save_editor_interface.py:27-35 | the corrected grouping of any integer gives back its text without commas, ends its first group in a digit, and has 3 digits in every later group |
| EditorHelpers.RestructureIdShape | dragalia_save_editor_interface.py:83-87 | for rarity at most 5 the key is all digits: element, weapon, 5 - rarity, then the id from its seventh digit on; a larger rarity puts a minus sign in the key, and only then does `int` fail |
| EditorHelpers.SortKeyOrder | dragalia_save_editor_interface.py:532 | among ids of equal length, the listing is ordered by element, then weapon, then rarity descending |
| EditorHelpers.ReturnIfExists | dragalia_save_editor_interface.py:22-25 | a present field gives its value and a missing one gives 0 |
| EditorHelpers.ReturnIfExistsAfterWrite | dragalia_save_editor_interface.py:22-25 | after a write the written field reads back the new value and every other field reads as before |
| EditorHelpers.StoredAmountBounds | dragalia_save_editor_interface.py:405-458 | wyrmite, mana and eldwater are stored at most at 2147483647 and unchanged exactly up to it; rupies are stored as entered; the clamp is monotone and idempotent |
| EditorHelpers.SetCurrency | dragalia_save_editor_interface.py:405-458 | the clamped amount is written to the currency's profile field, reads back, nothing else changes, and the document is written once |
| EditorHelpers.Proper | dragalia_save_editor_interface.py:89-102 | the word loop produces the text `ProperText` describes |
| EditorHelpers.BangPieces | dragalia_save_editor_interface.py:93-97 | a word with `!` splits into at least two pieces, so `halves[1]` never raises `IndexError`; no piece holds a `!` or is longer than the word; the word becomes its first piece upper-cased, `!`, its second piece capitalised, and any further pieces unchanged |
| EditorHelpers.ProperWordShape | dragalia_save_editor_interface.py:92-99 | a word keeps its length, gains no space, and has a `!` exactly when it had one |
| EditorHelpers.ProperWordIdempotent | dragalia_save_editor_interface.py:92-99 | applying the word rule twice is the same as once |
| EditorHelpers.ProperTextWords | dragalia_save_editor_interface.py:89-102 | the text keeps its length, its space-separated words are the words of the input each transformed, and the whole operation is idempotent |
| Text.JoinSplit | dragalia_save_editor_interface.py:90-101 | joining the split pieces back with the same separator gives the input |
| Text.SplitJoin | dragalia_save_editor_interface.py:90-101 | splitting pieces free of the separator after joining them gives the pieces |
| Text.CapitalizeIdempotent | dragalia_save_editor_interface.py:96-99 | capitalising twice is the same as once |
| Text.StripBlank | dragalia_save_editor_interface.py:573 | a line strips to empty exactly when it is all whitespace |
| CharacterFilter.DragaliaSaveEditorInterface.SetCharacterFilter | dragalia_save_editor_interface.py:562-604 | the two filters become exactly the element and weapon sets the two lines select |
| CharacterFilter.DragaliaSaveEditorInterface.SetElementFilter | dragalia_save_editor_interface.py:570-583 | the element loop collects the valid stripped, upper-cased names, an all-five set collapses to no filter, and the weapon filter is untouched |
| CharacterFilter.DragaliaSaveEditorInterface.SetWeaponFilter | dragalia_save_editor_interface.py:588-604 | the weapon loop collects the valid names with `GUN` read as `MANACASTER`, an all-nine set collapses to no filter, and the element filter is untouched |
| CharacterFilter.BlankLineNamesNothing | dragalia_save_editor_interface.py:573-574 | a blank line names no element and no weapon, so its special branch agrees with the loop |
| CharacterFilter.ElementFilterShape | dragalia_save_editor_interface.py:570-583 | the element filter holds only valid names, never all five, and is empty exactly when the line names none or all of them |
| CharacterFilter.WeaponFilterShape | dragalia_save_editor_interface.py:588-604 | the weapon filter holds only canonical names, never `GUN`, never all nine, and is empty exactly when the line names none or all |
| CharacterFilter.GunSelectsManacaster | dragalia_save_editor_interface.py:595-599 | `MANACASTER` is selected exactly when some token reads `GUN` or `MANACASTER` |
| CharacterFilter.ElementSelection | dragalia_save_editor_interface.py:535 | a character passes the element test exactly when the line names no element, all of them, or the character's element |
| CharacterFilter.WeaponSelection | dragalia_save_editor_interface.py:535 | a character passes the weapon test exactly when the line names no weapon, all of them, or the character's weapon |
| CharacterFilter.FullSelectionSameAsNone | dragalia_save_editor_interface.py:535 | for a character with a known element (weapon), filtering by every element (weapon) would let through the same characters as no filter |
| CharacterFilter.ElementInverseNames | dragalia_save_editor_interface.py:8-13 | every element display name, upper-cased, is a valid element name |
| CharacterFilter.WeaponInverseNames | dragalia_save_editor_interface.py:8-13 | every weapon display name, upper-cased, is a canonical weapon name |
| Decimal.IntOfStr | json_handling.py:211-213 | `int(str(n)) == n`, so a catalog key read back with `int` is the id |
| Decimal.StrOfInt | json_handling.py:211-213 | `str(int(s)) == s` for canonical digit strings, so catalog keys and ids correspond one to one |

## Left out

- `_is_int` (both files): input validation of prompts. Every modelled
  operation takes the already-parsed integer.
- Printing, prompts, menus, `_box_print` and the display part of
  `_view_characters`: terminal I/O.
- JSON parsing and file I/O: `_initialize_data` and the resource loaders
  are replaced by the `Catalog` value and `SaveModel.Load` over an already
  parsed document. `_update` becomes a write counter.
- The dragon encyclopedia (`_add_dragon_encyclo_bonus`): no modelled
  operation calls it.
- Floating point: bonuses are integer tenths, so rounding of repeated float
  additions is not modelled.
- The player-name and epithet cases of `_modify_user_data`: only the
  profile write they end in (`ModifyUserData`) is modelled, not the epithet
  lookup.
- Case and whitespace are ASCII only: `upper`, `capitalize` and `strip`
  on non-ASCII text are not modelled.
- `time.time()` is the parameter `now`. `time.localtime` formatting is
  left out.
- The listing sort uses `int(_restructure_id(id))`. For a rarity digit
  above 5 that `int` raises `ValueError`. The model gives no key then
  (`SortKey` is `None`) and does not model the exception.
- SortKeyOrder: compares ids with the same number of digits only. Ids of
  different lengths give keys of different lengths and are not ordered by
  this lemma.
- AddAllMissingComplete: one value `now` stands for every `time.time()`
  call of a bulk operation (json_handling.py:265). The source reads the
  clock once per appended record, so records appended by one
  `add_all_missing_chars` may carry different times; `AppendsDefaults`
  states one shared time for all of them.
- JsonHandling.DragaliaSaveFile.constructor: requires at least five
  entries in the character bonus table. On a shorter table the source
  raises `IndexError` at `self._adv_encyclo[elem - 1]`
  (json_handling.py:289) when a bonus is added; that error is not
  modelled.
- JsonHandling.DragaliaSaveFile.AddChar: requires a game id
  (`IsGameId`, id >= 100000). The custom add of the interface
  (dragalia_save_editor_interface.py:633-666) accepts any integer, and for
  an id with fewer than six characters in its decimal text
  `str(char_id)[5]` (json_handling.py:165, 189) raises `IndexError`. For a
  new id that happens after the record has been appended. Ids below 100000,
  negative ones included, and that exception are not modelled.
- The catalog keys are assumed to be the canonical decimal text of the
  ids (no sign, no leading zeros), which is what lets the model key the
  catalog by the id itself.
- Exceptions raised for a malformed catalog entry (a missing `PlusHp5` and
  the like) are not modelled. The catalog is a well-formed value.

## Findings

| source | as written | input that shows it | evidently intended | confidence | as-written member | corrected member |
|---|---|---|---|---|---|---|
| json_handling.py:286-290 | `math.fsum(a, b)` is called with two numbers, but `fsum` takes one iterable, so the call raises `TypeError` | `_add_adv_encyclo_bonus(1, 0.2, 0.2)`, reached from every `add_char` that appends a character, or that changes an owned character's level or mana circle | add the delta to the stored bonus: `fsum([a, b])` | high; not executed | SaveModel.AccrueAsWritten | SaveModel.Accrue |
| dragalia_save_editor_interface.py:27-35 | the loop inserts commas counting from the right over the whole text, sign included | `_pretty_print(-123)` gives `"-,123"` | group only the digits: `"-123"` | high; not executed | EditorHelpers.NegativeStrayComma | EditorHelpers.PrettyPrintSignedGroups |
