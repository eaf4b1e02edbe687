/** The save document of DragaliaSaveFile (json_handling.py) and the static
    catalogs it consults, as values, together with the functions that say
    what each of its operations does to the document. The class in
    json_handling.dfy is proved to follow these functions step by step; the
    lemmas in save_properties.dfy state what they promise.

    Encyclopedia bonuses are kept in integer tenths: the game adds 0.1, 0.2
    and 0.3, which become 1, 2 and 3 here. */
module SaveModel {
  import opened Decimal

  datatype Option<T> = None | Some(value: T)

  datatype Result<T, E> = Ok(value: T) | Err(error: E)

  /** Profile values are integers (currencies, epithet id) or strings (the
      player name). */
  datatype Value = IntVal(i: int) | StrVal(s: string)

  /** The fields of one adventurers-catalog entry that synthesis reads. The
      presence of `ManaSpiralDate` marks a character with a mana spiral. */
  datatype CharStats = CharStats(
    manaSpiralDate: Option<string>,
    editSkillCost: int,
    maxHp: int, addMaxHp1: int,
    plusHp0: int, plusHp1: int, plusHp2: int, plusHp3: int, plusHp4: int, plusHp5: int,
    mcFullBonusHp5: int,
    maxAtk: int, addMaxAtk1: int,
    plusAtk0: int, plusAtk1: int, plusAtk2: int, plusAtk3: int, plusAtk4: int, plusAtk5: int,
    mcFullBonusAtk5: int)

  /** The read-only resources: the adventurers table, with `ids` giving its
      entries in file order (the order a Python dict iterates in), and the
      unit-story table. Both tables are keyed by `str(id)` in the JSON
      resources; as `str` is injective on ids (Decimal.StrOfInt and
      Decimal.IntOfStr), `str(id) in table` is `id in table` here, and
      `int(key)` of a key gives back its id. */
  datatype Catalog = Catalog(
    ids: seq<nat>,
    stats: map<nat, CharStats>,
    stories: map<nat, seq<int>>)

  /** Ids of the game have at least six digits: the sixth is the element. */
  predicate IsGameId(id: nat) { id >= 100000 }

  predicate WellFormed(cat: Catalog)
  {
    && (forall i, j :: 0 <= i < j < |cat.ids| ==> cat.ids[i] != cat.ids[j])
    && (forall i :: 0 <= i < |cat.ids| ==> cat.ids[i] in cat.stats)
    && (forall k :: k in cat.stats ==> k in cat.ids)
    && (forall k :: k in cat.stats ==> IsGameId(k))
  }

  /** The catalog id the game uses for a non-player unit; never added in bulk. */
  const Sentinel: nat := 19900004

  /** One entry of `chara_list`. */
  datatype CharRecord = CharRecord(
    charaId: nat,
    rarity: int,
    exp: int,
    level: int,
    additionalMaxLevel: int,
    hpPlusCount: int,
    attackPlusCount: int,
    limitBreakCount: int,
    isNew: int,
    gettime: int,
    skill1Level: int,
    skill2Level: int,
    ability1Level: int,
    ability2Level: int,
    ability3Level: int,
    burstAttackLevel: int,
    comboBuildupCount: int,
    hp: int,
    attack: int,
    exAbilityLevel: int,
    exAbility2Level: int,
    isTemporary: int,
    isUnlockEditSkill: int,
    manaCirclePieceIdList: seq<int>,
    listViewFlag: int)

  /** One entry of `chara_bonus_by_album`, in tenths. */
  datatype BonusEntry = BonusEntry(hp: int, attack: int)

  /** One entry of `unit_story_list`. */
  datatype StoryEntry = StoryEntry(unitStoryId: int, isRead: int)

  /** The parts of the save document the editor reads and writes, and the
      number of times the whole document has been written back to disk. */
  datatype Doc = Doc(
    userData: map<string, Value>,
    chars: seq<CharRecord>,
    advEncyclo: seq<BonusEntry>,
    stories: seq<StoryEntry>,
    saves: nat)

  // ---------------------------------------------------------------- loading

  datatype FortBonusList = FortBonusList(
    charaBonusByAlbum: Option<seq<BonusEntry>>,
    dragonBonusByAlbum: Option<seq<BonusEntry>>)

  /** The `data` object of a parsed save file; `None` is a missing key. A
      file with no `data` object at all behaves as one whose sections are
      all missing. */
  datatype RawData = RawData(
    userData: Option<map<string, Value>>,
    charaList: Option<seq<CharRecord>>,
    fortBonusList: Option<FortBonusList>,
    unitStoryList: Option<seq<StoryEntry>>)

  datatype LoadError =
    | UserDataNotFound
    | CharactersNotFound
    | EncyclopediaBonusesNotFound
    | UnitStoryListNotFound

  /** The section lookups of the constructor, in the order it runs them: the
      first missing section decides the error. */
  function Load(raw: RawData): (r: Result<Doc, LoadError>)
    ensures r.Ok? <==>
      && raw.userData.Some? && raw.charaList.Some? && raw.fortBonusList.Some?
      && raw.fortBonusList.value.charaBonusByAlbum.Some?
      && raw.fortBonusList.value.dragonBonusByAlbum.Some?
      && raw.unitStoryList.Some?
    ensures r == Err(UserDataNotFound) <==> raw.userData.None?
    ensures r == Err(CharactersNotFound) <==> raw.userData.Some? && raw.charaList.None?
    ensures r == Err(EncyclopediaBonusesNotFound) <==>
      && raw.userData.Some? && raw.charaList.Some?
      && (|| raw.fortBonusList.None?
          || raw.fortBonusList.value.charaBonusByAlbum.None?
          || raw.fortBonusList.value.dragonBonusByAlbum.None?)
    ensures r == Err(UnitStoryListNotFound) <==>
      && raw.userData.Some? && raw.charaList.Some? && raw.fortBonusList.Some?
      && raw.fortBonusList.value.charaBonusByAlbum.Some?
      && raw.fortBonusList.value.dragonBonusByAlbum.Some?
      && raw.unitStoryList.None?
    ensures r.Ok? ==>
      r.value == Doc(raw.userData.value, raw.charaList.value,
                     raw.fortBonusList.value.charaBonusByAlbum.value, raw.unitStoryList.value, 0)
  {
    if raw.userData.None? then Err(UserDataNotFound)
    else if raw.charaList.None? then Err(CharactersNotFound)
    else if raw.fortBonusList.None? || raw.fortBonusList.value.charaBonusByAlbum.None?
         || raw.fortBonusList.value.dragonBonusByAlbum.None? then Err(EncyclopediaBonusesNotFound)
    else if raw.unitStoryList.None? then Err(UnitStoryListNotFound)
    else Ok(Doc(raw.userData.value, raw.charaList.value,
                raw.fortBonusList.value.charaBonusByAlbum.value, raw.unitStoryList.value, 0))
  }

  // ------------------------------------------------------------ identifiers

  /** Digit 5 of `str(id)`: the element code (1 flame ... 5 shadow). */
  function ElementDigit(id: nat): (e: nat)
    requires IsGameId(id)
    ensures e < 10
  {
    StrMinLength(id, 5);
    DigitValue(Str(id)[5])
  }

  /** The roster's ids. */
  function RosterIds(chars: seq<CharRecord>): set<nat>
  {
    set j | 0 <= j < |chars| :: chars[j].charaId
  }

  predicate UniqueIds(chars: seq<CharRecord>)
  {
    forall i, j :: 0 <= i < j < |chars| ==> chars[i].charaId != chars[j].charaId
  }

  /** The index the search loop of `add_char` stops at: the first record
      with the id. */
  function FindChar(chars: seq<CharRecord>, id: nat): (r: Option<nat>)
    ensures r.Some? ==> r.value < |chars| && chars[r.value].charaId == id
    ensures r.Some? ==> forall k :: 0 <= k < r.value ==> chars[k].charaId != id
    ensures r.None? <==> id !in RosterIds(chars)
  {
    if chars == [] then None
    else if chars[0].charaId == id then Some(0)
    else
      match FindChar(chars[1..], id)
      case Some(j) => Some(j + 1)
      case None =>
        assert forall k :: 1 <= k < |chars| ==> chars[k] == chars[1..][k - 1];
        None
  }

  // -------------------------------------------------------------- synthesis

  /** What a synthesised record is built from: the spiral flag, the shared
      skill cost and the hp and attack totals. */
  datatype Build = Build(spiral: bool, sharedSkillCost: int, hp: int, attack: int)

  /** The parameter defaults of `add_char` and `_create_max_character`. */
  const DefaultBuild: Build := Build(false, 0, 0, 0)

  function SpiralHp(e: CharStats): int
  {
    e.addMaxHp1 + e.plusHp0 + e.plusHp1 + e.plusHp2 + e.plusHp3 + e.plusHp4 + e.plusHp5 + e.mcFullBonusHp5
  }

  function SpiralAtk(e: CharStats): int
  {
    e.addMaxAtk1 + e.plusAtk0 + e.plusAtk1 + e.plusAtk2 + e.plusAtk3 + e.plusAtk4 + e.plusAtk5 + e.mcFullBonusAtk5
  }

  function BaseHp(e: CharStats): int
  {
    e.maxHp + e.plusHp0 + e.plusHp1 + e.plusHp2 + e.plusHp3 + e.plusHp4 + e.mcFullBonusHp5
  }

  function BaseAtk(e: CharStats): int
  {
    e.maxAtk + e.plusAtk0 + e.plusAtk1 + e.plusAtk2 + e.plusAtk3 + e.plusAtk4 + e.mcFullBonusAtk5
  }

  /** The build `_create_max_character` ends up using: for an id in the
      catalog, the catalog's; otherwise the caller's. */
  function Resolve(cat: Catalog, id: nat, given: Build): Build
  {
    if id in cat.stats then
      var e := cat.stats[id];
      var spiral := e.manaSpiralDate.Some?;
      Build(spiral, e.editSkillCost,
            if spiral then SpiralHp(e) else BaseHp(e),
            if spiral then SpiralAtk(e) else BaseAtk(e))
    else given
  }

  /** The mana circle pieces 1..n. */
  function ManaCircle(n: nat): (r: seq<int>)
    ensures |r| == n
  {
    seq(n, i requires 0 <= i < n => i + 1)
  }

  /** The fully progressed record `_create_max_character` builds. */
  function MaxRecord(id: nat, b: Build, gettime: int): CharRecord
  {
    CharRecord(
      charaId := id,
      rarity := 5,
      exp := if b.spiral then 8866950 else 1191950,
      level := if b.spiral then 100 else 80,
      additionalMaxLevel := if b.spiral then 20 else 0,
      hpPlusCount := 100,
      attackPlusCount := 100,
      limitBreakCount := if b.spiral then 5 else 4,
      isNew := 1,
      gettime := gettime,
      skill1Level := if b.spiral then 4 else 3,
      skill2Level := if b.spiral then 3 else 2,
      ability1Level := if b.spiral then 3 else 2,
      ability2Level := if b.spiral then 3 else 2,
      ability3Level := 2,
      burstAttackLevel := 2,
      comboBuildupCount := if b.spiral then 1 else 0,
      hp := b.hp,
      attack := b.attack,
      exAbilityLevel := 5,
      exAbility2Level := 5,
      isTemporary := 0,
      isUnlockEditSkill := b.sharedSkillCost,
      manaCirclePieceIdList := ManaCircle(if b.spiral then 70 else 50),
      listViewFlag := 1)
  }

  // ---------------------------------------------------------------- bonuses

  /** `_add_adv_encyclo_bonus` with the intended addition: entry `elem - 1`
      gains the deltas when `elem` is an element code, and nothing else
      changes. */
  function Accrue(table: seq<BonusEntry>, elem: int, dHp: int, dAtk: int): (r: seq<BonusEntry>)
    requires |table| >= 5
    ensures |r| == |table|
    ensures forall j :: 0 <= j < |table| && j != elem - 1 ==> r[j] == table[j]
    ensures 1 <= elem <= 5 ==> r[elem - 1] == BonusEntry(table[elem - 1].hp + dHp, table[elem - 1].attack + dAtk)
    ensures !(1 <= elem <= 5) ==> r == table
  {
    if 1 <= elem <= 5 then
      table[elem - 1 := BonusEntry(table[elem - 1].hp + dHp, table[elem - 1].attack + dAtk)]
    else table
  }

  /** Two accruals on one element, first hp then attack, add up. */
  lemma AccrueTwice(table: seq<BonusEntry>, elem: int, dHp: int, dAtk: int)
    requires |table| >= 5
    ensures Accrue(Accrue(table, elem, dHp, 0), elem, 0, dAtk) == Accrue(table, elem, dHp, dAtk)
  {
  }

  datatype PyError = TypeError

  /** `_add_adv_encyclo_bonus` as written: it calls `math.fsum` with two
      arguments, and `math.fsum` accepts exactly one iterable, so for an
      element code the call raises before anything is stored. */
  function AccrueAsWritten(table: seq<BonusEntry>, elem: int, dHp: int, dAtk: int): (r: Result<seq<BonusEntry>, PyError>)
    ensures 1 <= elem <= 5 ==> r == Err(TypeError)
    ensures !(1 <= elem <= 5) ==> r == Ok(table)
  {
    if 1 <= elem <= 5 then Err(TypeError) else Ok(table)
  }

  /** The bonus, in tenths, for a newly added character. */
  function InsertDelta(rec: CharRecord): int
  {
    if rec.level == 100 then 3 else 2
  }

  /** The (hp, attack) bonus, in tenths, for refreshing a record whose level
      was `oldLevel` and whose mana circle had `oldMc` pieces into `rec`. */
  function RefreshDelta(oldLevel: int, oldMc: nat, rec: CharRecord): (int, int)
  {
    var spiral := rec.level == 100;
    var dHp := if rec.level == oldLevel then 0 else if oldLevel < 80 && spiral then 2 else 1;
    var dAtk := if |rec.manaCirclePieceIdList| == oldMc then 0 else if oldMc < 50 && spiral then 2 else 1;
    (dHp, dAtk)
  }

  // ---------------------------------------------------------------- stories

  function LedgerIds(ledger: seq<StoryEntry>): set<int>
  {
    set j | 0 <= j < |ledger| :: ledger[j].unitStoryId
  }

  /** The unread entries appended for `ids`, skipping those in `present`. */
  function NewEntries(ids: seq<int>, present: set<int>): seq<StoryEntry>
  {
    if ids == [] then []
    else
      var last := ids[|ids| - 1];
      NewEntries(ids[..|ids| - 1], present)
        + (if last in present then [] else [StoryEntry(last, 0)])
  }

  /** The story ids `_add_stories` walks: the caller's list, or else the
      catalog's list for the character (none if it has none). */
  function StoryIdsFor(cat: Catalog, id: nat, given: Option<seq<int>>): seq<int>
  {
    match given
    case Some(ids) => ids
    case None => if id in cat.stories then cat.stories[id] else []
  }

  /** The ledger after `_add_stories`: the ledger's ids are read once, before
      anything is appended. */
  function WithStories(ledger: seq<StoryEntry>, ids: seq<int>): seq<StoryEntry>
  {
    ledger + NewEntries(ids, LedgerIds(ledger))
  }

  predicate UniqueStoryIds(ledger: seq<StoryEntry>)
  {
    forall i, j :: 0 <= i < j < |ledger| ==> ledger[i].unitStoryId != ledger[j].unitStoryId
  }

  // -------------------------------------------------------------- add_char

  /** The document and the result after `add_char(id, ...)`. */
  function AfterAddChar(cat: Catalog, d: Doc, id: nat, given: Build, storiesArg: Option<seq<int>>,
                        gettime: Option<int>, now: int, group: bool): (r: (Doc, bool))
    requires IsGameId(id) && |d.advEncyclo| >= 5
    ensures r.1 <==> id !in RosterIds(d.chars)
    ensures |r.0.advEncyclo| == |d.advEncyclo| && r.0.userData == d.userData
    ensures |r.0.chars| == |d.chars| + (if r.1 then 1 else 0)
    ensures forall j :: 0 <= j < |d.chars| ==> r.0.chars[j].charaId == d.chars[j].charaId
    ensures id in RosterIds(r.0.chars)
  {
    var elem := ElementDigit(id);
    var saves := if group then d.saves else d.saves + 1;
    match FindChar(d.chars, id)
    case Some(idx) =>
      var prior := d.chars[idx];
      var rec := MaxRecord(id, Resolve(cat, id, DefaultBuild), prior.gettime);
      var (dHp, dAtk) := RefreshDelta(prior.level, |prior.manaCirclePieceIdList|, rec);
      var chars := d.chars[idx := rec];
      assert chars[idx].charaId == id;
      (Doc(d.userData, chars, Accrue(d.advEncyclo, elem, dHp, dAtk),
           WithStories(d.stories, StoryIdsFor(cat, id, None)), saves), false)
    case None =>
      var rec := MaxRecord(id, Resolve(cat, id, given), if gettime.Some? then gettime.value else now);
      var delta := InsertDelta(rec);
      var chars := d.chars + [rec];
      assert chars[|d.chars|].charaId == id;
      (Doc(d.userData, chars, Accrue(d.advEncyclo, elem, delta, delta),
           WithStories(d.stories, StoryIdsFor(cat, id, storiesArg)), saves), true)
  }

  /** `add_char` on an id already on the roster, written out. */
  lemma AfterAddCharRefresh(cat: Catalog, d: Doc, id: nat, given: Build, storiesArg: Option<seq<int>>,
                            gettime: Option<int>, now: int, group: bool, idx: nat)
    requires IsGameId(id) && |d.advEncyclo| >= 5
    requires FindChar(d.chars, id) == Some(idx)
    ensures var rec := MaxRecord(id, Resolve(cat, id, DefaultBuild), d.chars[idx].gettime);
            var delta := RefreshDelta(d.chars[idx].level, |d.chars[idx].manaCirclePieceIdList|, rec);
            AfterAddChar(cat, d, id, given, storiesArg, gettime, now, group)
            == (Doc(d.userData, d.chars[idx := rec], Accrue(d.advEncyclo, ElementDigit(id), delta.0, delta.1),
                    WithStories(d.stories, StoryIdsFor(cat, id, None)), if group then d.saves else d.saves + 1),
                false)
  {
  }

  /** `add_char` on an id not on the roster, written out. */
  lemma AfterAddCharInsert(cat: Catalog, d: Doc, id: nat, given: Build, storiesArg: Option<seq<int>>,
                           gettime: Option<int>, now: int, group: bool)
    requires IsGameId(id) && |d.advEncyclo| >= 5
    requires FindChar(d.chars, id) == None
    ensures var rec := MaxRecord(id, Resolve(cat, id, given), if gettime.Some? then gettime.value else now);
            AfterAddChar(cat, d, id, given, storiesArg, gettime, now, group)
            == (Doc(d.userData, d.chars + [rec], Accrue(d.advEncyclo, ElementDigit(id), InsertDelta(rec), InsertDelta(rec)),
                    WithStories(d.stories, StoryIdsFor(cat, id, storiesArg)), if group then d.saves else d.saves + 1),
                true)
  {
  }

  // ------------------------------------------------------- bulk operations

  /** One pass of the catalog loop of `add_all_missing_chars` on `key`,
      and whether it added the character. */
  function AddIfAbsent(cat: Catalog, d: Doc, key: nat, present: set<nat>, now: int): (r: (Doc, bool))
    requires WellFormed(cat) && key in cat.stats && |d.advEncyclo| >= 5
    ensures |r.0.advEncyclo| == |d.advEncyclo|
  {
    if key !in present && key != Sentinel then
      (AfterAddChar(cat, d, key, DefaultBuild, None, None, now, true).0, true)
    else (d, false)
  }

  /** The document and the count after the catalog loop of
      `add_all_missing_chars` has looked at the first `n` catalog ids, where
      `present` is the roster's id set taken before the loop. */
  function AddMissingUpTo(cat: Catalog, d0: Doc, n: nat, present: set<nat>, now: int): (r: (Doc, nat))
    requires WellFormed(cat) && n <= |cat.ids| && |d0.advEncyclo| >= 5
    ensures |r.0.advEncyclo| == |d0.advEncyclo|
    ensures r.0.userData == d0.userData && r.0.saves == d0.saves
    ensures r.1 == |MissingIds(cat, n, present)|
    decreases n
  {
    if n == 0 then (d0, 0)
    else
      var prev := AddMissingUpTo(cat, d0, n - 1, present, now);
      var key := cat.ids[n - 1];
      var step := AddIfAbsent(cat, prev.0, key, present, now);
      (step.0, if step.1 then prev.1 + 1 else prev.1)
  }

  /** One more step of the catalog loop of `add_all_missing_chars`. */
  lemma AddMissingStep(cat: Catalog, d0: Doc, n: nat, present: set<nat>, now: int)
    requires WellFormed(cat) && n < |cat.ids| && |d0.advEncyclo| >= 5
    ensures cat.ids[n] in cat.stats
    ensures var prev := AddMissingUpTo(cat, d0, n, present, now);
            var step := AddIfAbsent(cat, prev.0, cat.ids[n], present, now);
            AddMissingUpTo(cat, d0, n + 1, present, now) == (step.0, if step.1 then prev.1 + 1 else prev.1)
  {
  }

  /** `add_all_missing_chars`: the whole catalog loop, then one write. */
  function AfterAddAllMissing(cat: Catalog, d: Doc, now: int): (Doc, nat)
    requires WellFormed(cat) && |d.advEncyclo| >= 5
  {
    var (d', count) := AddMissingUpTo(cat, d, |cat.ids|, RosterIds(d.chars), now);
    (d'.(saves := d'.saves + 1), count)
  }

  /** The document after the loop of `max_all_current_chars` has looked at
      roster positions `0 .. n-1`. The id and the acquisition time are read
      from the current roster at each step, as the loop does. */
  function MaxCurrentUpTo(cat: Catalog, d0: Doc, n: nat): (r: Doc)
    requires WellFormed(cat) && |d0.advEncyclo| >= 5
    ensures |r.advEncyclo| == |d0.advEncyclo| && r.userData == d0.userData && r.saves == d0.saves
    ensures |r.chars| == |d0.chars|
    ensures forall j :: 0 <= j < |d0.chars| ==> r.chars[j].charaId == d0.chars[j].charaId
  {
    if n == 0 then d0
    else
      var d := MaxCurrentUpTo(cat, d0, n - 1);
      var i := n - 1;
      if i < |d.chars| && d.chars[i].charaId in cat.stats then
        assert d.chars[i].charaId in RosterIds(d.chars);
        // the id is on the roster, so the clock argument is never read
        AfterAddChar(cat, d, d.chars[i].charaId, DefaultBuild, None, Some(d.chars[i].gettime), 0, true).0
      else d
  }

  /** One more step of the roster loop of `max_all_current_chars`. */
  lemma MaxCurrentStep(cat: Catalog, d0: Doc, n: nat)
    requires WellFormed(cat) && |d0.advEncyclo| >= 5 && n < |d0.chars|
    ensures var d := MaxCurrentUpTo(cat, d0, n);
            d.chars[n].charaId in cat.stats ==>
              MaxCurrentUpTo(cat, d0, n + 1)
              == AfterAddChar(cat, d, d.chars[n].charaId, DefaultBuild, None, Some(d.chars[n].gettime), 0, true).0
    ensures var d := MaxCurrentUpTo(cat, d0, n);
            d.chars[n].charaId !in cat.stats ==> MaxCurrentUpTo(cat, d0, n + 1) == d
  {
  }

  /** `max_all_current_chars`: the roster loop, then one write. */
  function AfterMaxAllCurrent(cat: Catalog, d: Doc): Doc
    requires WellFormed(cat) && |d.advEncyclo| >= 5
  {
    var d' := MaxCurrentUpTo(cat, d, |d.chars|);
    d'.(saves := d'.saves + 1)
  }

  /** `max_out_character_list`. */
  function AfterMaxOut(cat: Catalog, d: Doc, now: int): Doc
    requires WellFormed(cat) && |d.advEncyclo| >= 5
  {
    AfterAddAllMissing(cat, AfterMaxAllCurrent(cat, d), now).0
  }

  /** The catalog ids `add_all_missing_chars` adds, in catalog order: those
      among the first `n` that are not in `present`, except the sentinel. */
  function MissingIds(cat: Catalog, n: nat, present: set<nat>): seq<nat>
    requires n <= |cat.ids|
  {
    if n == 0 then []
    else
      var key := cat.ids[n - 1];
      MissingIds(cat, n - 1, present) + (if key !in present && key != Sentinel then [key] else [])
  }

  /** Default-built records for `ids`, all stamped `now`. */
  function DefaultRecords(cat: Catalog, ids: seq<nat>, now: int): (r: seq<CharRecord>)
    ensures |r| == |ids|
  {
    seq(|ids|, k requires 0 <= k < |ids| => MaxRecord(ids[k], Resolve(cat, ids[k], DefaultBuild), now))
  }

  /** A catalog id later than the first `n` is not among their missing
      ids. */
  lemma {:induction false} MissingIdsExclude(cat: Catalog, n: nat, present: set<nat>, m: nat)
    requires WellFormed(cat) && n <= m < |cat.ids|
    ensures cat.ids[m] !in MissingIds(cat, n, present)
  {
    if n > 0 {
      MissingIdsExclude(cat, n - 1, present, m);
    }
  }

  /** An id on neither part is not on the concatenation. */
  lemma NotOnExtendedRoster(a: seq<CharRecord>, cat: Catalog, ids: seq<nat>, now: int, x: nat)
    requires x !in RosterIds(a) && x !in ids
    ensures x !in RosterIds(a + DefaultRecords(cat, ids, now))
  {
    var c := a + DefaultRecords(cat, ids, now);
    forall j | 0 <= j < |c|
      ensures c[j].charaId != x
    {
      if j < |a| {
        assert a[j].charaId in RosterIds(a);
      } else {
        assert c[j].charaId == ids[j - |a|];
      }
    }
  }

  /** Adding a default-built character whose id is on neither part of a
      roster extended by default-built records extends it by one more. */
  lemma AppendDefault(cat: Catalog, d: Doc, base: seq<CharRecord>, prev: seq<nat>, key: nat, now: int)
    requires IsGameId(key) && |d.advEncyclo| >= 5
    requires d.chars == base + DefaultRecords(cat, prev, now)
    requires key !in RosterIds(base) && key !in prev
    ensures var r := AfterAddChar(cat, d, key, DefaultBuild, None, None, now, true).0;
            && r.chars == base + DefaultRecords(cat, prev + [key], now)
            && r.userData == d.userData && r.saves == d.saves
  {
    NotOnExtendedRoster(base, cat, prev, now, key);
    AfterAddCharInsert(cat, d, key, DefaultBuild, None, None, now, true);
    assert DefaultRecords(cat, prev + [key], now)
        == DefaultRecords(cat, prev, now) + [MaxRecord(key, Resolve(cat, key, DefaultBuild), now)];
  }

  /** One pass of the catalog loop on a roster that so far only had
      default-built records appended: the key is appended too exactly when
      it is missing from `present` and is not the sentinel. */
  lemma AddIfAbsentAppends(cat: Catalog, d: Doc, base: seq<CharRecord>, prev: seq<nat>, key: nat,
                           present: set<nat>, now: int)
    requires WellFormed(cat) && key in cat.stats && |d.advEncyclo| >= 5
    requires d.chars == base + DefaultRecords(cat, prev, now)
    requires RosterIds(base) <= present && key !in prev
    ensures var s := AddIfAbsent(cat, d, key, present, now);
            var add := key !in present && key != Sentinel;
            && s.1 == add
            && s.0.chars == base + DefaultRecords(cat, prev + (if add then [key] else []), now)
            && s.0.userData == d.userData && s.0.saves == d.saves
  {
    if key !in present && key != Sentinel {
      AppendDefault(cat, d, base, prev, key, now);
    } else {
      assert prev + [] == prev;
    }
  }

  /** When `present` holds every id on the roster the loop starts from,
      the catalog loop only appends: after the first `n` catalog ids the
      roster is the starting one followed by default-built records for the
      missing ids, in catalog order. */
  lemma {:induction false} AddMissingAppends(cat: Catalog, d0: Doc, n: nat, present: set<nat>, now: int)
    requires WellFormed(cat) && n <= |cat.ids| && |d0.advEncyclo| >= 5
    requires RosterIds(d0.chars) <= present
    ensures AddMissingUpTo(cat, d0, n, present, now).0.chars
         == d0.chars + DefaultRecords(cat, MissingIds(cat, n, present), now)
  {
    if n > 0 {
      AddMissingAppends(cat, d0, n - 1, present, now);
      AddMissingAppendsStep(cat, d0, AddMissingUpTo(cat, d0, n - 1, present, now).0, n, present, now);
    }
  }

  /** The step of `AddMissingAppends`: the pass on the `n`-th catalog id
      extends the appended records by that id exactly when it is missing. */
  lemma AddMissingAppendsStep(cat: Catalog, d0: Doc, prev: Doc, n: nat, present: set<nat>, now: int)
    requires WellFormed(cat) && 0 < n <= |cat.ids| && |prev.advEncyclo| >= 5
    requires RosterIds(d0.chars) <= present
    requires prev.chars == d0.chars + DefaultRecords(cat, MissingIds(cat, n - 1, present), now)
    ensures AddIfAbsent(cat, prev, cat.ids[n - 1], present, now).0.chars
         == d0.chars + DefaultRecords(cat, MissingIds(cat, n, present), now)
  {
    MissingIdsExclude(cat, n - 1, present, n - 1);
    AddIfAbsentAppends(cat, prev, d0.chars, MissingIds(cat, n - 1, present), cat.ids[n - 1], present, now);
  }


}
