/** `DragaliaSaveFile` of json_handling.py: the save document held in memory
    and changed in place. The lists and the profile dictionary are fields the
    methods reassign; `saves` counts the writes of the whole document back to
    disk (`_update`), whose I/O is not modelled. Every mutating method is
    proved to leave the document exactly as the functions of SaveModel say. */
module JsonHandling {
  import opened Decimal
  import opened SaveModel

  class DragaliaSaveFile {
    const catalog: Catalog
    var userData: map<string, Value>
    var characterData: seq<CharRecord>
    var advEncyclo: seq<BonusEntry>
    var stories: seq<StoryEntry>
    var saves: nat

    ghost predicate Valid()
      reads this
    {
      WellFormed(catalog) && |advEncyclo| >= 5
    }

    function State(): Doc
      reads this
    {
      Doc(userData, characterData, advEncyclo, stories, saves)
    }

    /** The object after its `_initialize_*` steps succeeded on `doc`. */
    constructor (cat: Catalog, doc: Doc)
      requires WellFormed(cat) && |doc.advEncyclo| >= 5
      ensures Valid() && catalog == cat && State() == doc
    {
      catalog := cat;
      userData := doc.userData;
      characterData := doc.chars;
      advEncyclo := doc.advEncyclo;
      stories := doc.stories;
      saves := doc.saves;
    }

    method GetUserData() returns (data: map<string, Value>)
      ensures data == userData
    {
      data := userData;
    }

    method GetCharacterData() returns (chars: seq<CharRecord>)
      ensures chars == characterData
    {
      chars := characterData;
    }

    /** `_update`: write the whole document back. */
    method Update()
      modifies this`saves
      ensures saves == old(saves) + 1
    {
      saves := saves + 1;
    }

    method ModifyUserData(field: string, newValue: Value)
      requires Valid()
      modifies this
      ensures Valid()
      ensures State() == old(State()).(userData := old(userData)[field := newValue], saves := old(saves) + 1)
    {
      userData := userData[field := newValue];
      Update();
    }

    method AddStory(storyId: int, isRead: int)
      modifies this`stories
      ensures stories == old(stories) + [StoryEntry(storyId, isRead)]
    {
      stories := stories + [StoryEntry(storyId, isRead)];
    }

    method AddStories(id: nat, storiesArg: Option<seq<int>>)
      modifies this`stories
      ensures stories == WithStories(old(stories), StoryIdsFor(catalog, id, storiesArg))
    {
      var currentStories: set<int> := {};
      var i := 0;
      while i < |stories|
        invariant 0 <= i <= |stories|
        invariant currentStories == set j | 0 <= j < i :: stories[j].unitStoryId
      {
        currentStories := currentStories + {stories[i].unitStoryId};
        i := i + 1;
      }
      assert currentStories == LedgerIds(stories);
      var ids: seq<int> := [];
      if storiesArg.None? {
        if id in catalog.stories {
          ids := catalog.stories[id];
        }
      } else {
        ids := storiesArg.value;
      }
      ghost var before := stories;
      var n := 0;
      while n < |ids|
        invariant 0 <= n <= |ids|
        invariant stories == before + NewEntries(ids[..n], currentStories)
      {
        if ids[n] !in currentStories {
          AddStory(ids[n], 0);
        }
        assert ids[..n + 1][..n] == ids[..n];
        n := n + 1;
      }
      assert ids[..n] == ids;
    }

    method AddAdvEncycloBonus(elem: int, hp: int, atk: int)
      requires Valid()
      modifies this`advEncyclo
      ensures Valid()
      ensures advEncyclo == Accrue(old(advEncyclo), elem, hp, atk)
    {
      if 1 <= elem <= 5 {
        advEncyclo := advEncyclo[elem - 1 := BonusEntry(advEncyclo[elem - 1].hp + hp, advEncyclo[elem - 1].attack + atk)];
      }
    }

    method CreateMaxCharacter(id: nat, hasSpiral: bool, sharedSkillCost: int, maxHp: int, maxAtk: int,
                              storiesArg: Option<seq<int>>, gettime: Option<int>, now: int)
      returns (newChar: CharRecord)
      modifies this`stories
      ensures newChar == MaxRecord(id, Resolve(catalog, id, Build(hasSpiral, sharedSkillCost, maxHp, maxAtk)),
                                   if gettime.Some? then gettime.value else now)
      ensures stories == WithStories(old(stories), StoryIdsFor(catalog, id, storiesArg))
    {
      var spiral, cost, hp, atk := hasSpiral, sharedSkillCost, maxHp, maxAtk;
      if id in catalog.stats {
        var e := catalog.stats[id];
        spiral := e.manaSpiralDate.Some?;
        cost := e.editSkillCost;
        if spiral {
          hp := e.addMaxHp1 + e.plusHp0 + e.plusHp1 + e.plusHp2 + e.plusHp3 + e.plusHp4 + e.plusHp5 + e.mcFullBonusHp5;
          atk := e.addMaxAtk1 + e.plusAtk0 + e.plusAtk1 + e.plusAtk2 + e.plusAtk3 + e.plusAtk4 + e.plusAtk5 + e.mcFullBonusAtk5;
        } else {
          hp := e.maxHp + e.plusHp0 + e.plusHp1 + e.plusHp2 + e.plusHp3 + e.plusHp4 + e.mcFullBonusHp5;
          atk := e.maxAtk + e.plusAtk0 + e.plusAtk1 + e.plusAtk2 + e.plusAtk3 + e.plusAtk4 + e.mcFullBonusAtk5;
        }
      }

      var mcList: seq<int> := [];
      var mcLevel := if spiral then 70 else 50;
      var i := 1;
      while i <= mcLevel
        invariant 1 <= i <= mcLevel + 1
        invariant mcList == ManaCircle(i - 1)
      {
        mcList := mcList + [i];
        i := i + 1;
      }

      newChar := CharRecord(
        charaId := id,
        rarity := 5,
        exp := if spiral then 8866950 else 1191950,
        level := if spiral then 100 else 80,
        additionalMaxLevel := if spiral then 20 else 0,
        hpPlusCount := 100,
        attackPlusCount := 100,
        limitBreakCount := if spiral then 5 else 4,
        isNew := 1,
        gettime := if gettime.Some? then gettime.value else now,
        skill1Level := if spiral then 4 else 3,
        skill2Level := if spiral then 3 else 2,
        ability1Level := if spiral then 3 else 2,
        ability2Level := if spiral then 3 else 2,
        ability3Level := 2,
        burstAttackLevel := 2,
        comboBuildupCount := if spiral then 1 else 0,
        hp := hp,
        attack := atk,
        exAbilityLevel := 5,
        exAbility2Level := 5,
        isTemporary := 0,
        isUnlockEditSkill := cost,
        manaCirclePieceIdList := mcList,
        listViewFlag := 1);

      AddStories(id, storiesArg);
    }

    /** The bonus step of the refresh branch of `add_char`: one tenth more
      hp for a level change and one tenth more attack for a mana circle
      change, two tenths when the old value was below the non-spiral cap and
      the new record has a spiral. */
    method AddRefreshBonus(element: int, ogLevel: int, ogMc: nat, rec: CharRecord)
      requires Valid()
      modifies this`advEncyclo
      ensures Valid()
      ensures advEncyclo == Accrue(old(advEncyclo), element, RefreshDelta(ogLevel, ogMc, rec).0, RefreshDelta(ogLevel, ogMc, rec).1)
    {
      ghost var t0 := advEncyclo;
      var spiral := rec.level == 100;
      var dHp, dAtk := 0, 0;
      if rec.level != ogLevel {
        if ogLevel < 80 {
          if spiral {
            AddAdvEncycloBonus(element, 2, 0);
            dHp := 2;
          } else {
            AddAdvEncycloBonus(element, 1, 0);
            dHp := 1;
          }
        } else {
          AddAdvEncycloBonus(element, 1, 0);
          dHp := 1;
        }
      }
      assert advEncyclo == Accrue(t0, element, dHp, 0);
      ghost var afterHp := advEncyclo;
      if |rec.manaCirclePieceIdList| != ogMc {
        if ogMc < 50 {
          if spiral {
            AddAdvEncycloBonus(element, 0, 2);
            dAtk := 2;
          } else {
            AddAdvEncycloBonus(element, 0, 1);
            dAtk := 1;
          }
        } else {
          AddAdvEncycloBonus(element, 0, 1);
          dAtk := 1;
        }
      }
      assert advEncyclo == Accrue(afterHp, element, 0, dAtk);
      AccrueTwice(t0, element, dHp, dAtk);
    }

    /** `add_char`: refresh the record with this id in place, or append a new
      one; answers whether it appended. The document is written back unless
      the call is part of a batch (`group`). */
    method AddChar(id: nat, hasSpiral: bool, sharedSkillCost: int, maxHp: int, maxAtk: int,
                   storiesArg: Option<seq<int>>, gettime: Option<int>, now: int, group: bool)
      returns (added: bool)
      requires Valid() && IsGameId(id)
      modifies this
      ensures Valid()
      ensures (State(), added) == AfterAddChar(catalog, old(State()), id,
                 Build(hasSpiral, sharedSkillCost, maxHp, maxAtk), storiesArg, gettime, now, group)
    {
      var charExists, index := FindCharIndex(id);

      ghost var d := State();
      ghost var goal := AfterAddChar(catalog, d, id, Build(hasSpiral, sharedSkillCost, maxHp, maxAtk),
                                       storiesArg, gettime, now, group);
      StrMinLength(id, 5);
      var element := DigitValue(Str(id)[5]);
      if charExists {
        var priorGettime := characterData[index].gettime;
        var ogLevel := characterData[index].level;
        var ogMc := |characterData[index].manaCirclePieceIdList|;

        var newChar := CreateMaxCharacter(id, false, 0, 0, 0, None, Some(priorGettime), now);
        characterData := characterData[index := newChar];

        AddRefreshBonus(element, ogLevel, ogMc, characterData[index]);
        AfterAddCharRefresh(catalog, d, id, Build(hasSpiral, sharedSkillCost, maxHp, maxAtk), storiesArg,
                            gettime, now, group, index);
        added := false;
        assert State() == goal.0.(saves := d.saves) && added == goal.1;
      } else {
        var newChar := CreateMaxCharacter(id, hasSpiral, sharedSkillCost, maxHp, maxAtk, storiesArg, gettime, now);
        characterData := characterData + [newChar];
        var spiral := characterData[|characterData| - 1].level == 100;
        if spiral {
          AddAdvEncycloBonus(element, 3, 3);
        } else {
          AddAdvEncycloBonus(element, 2, 2);
        }
        assert advEncyclo == Accrue(d.advEncyclo, element, InsertDelta(newChar), InsertDelta(newChar));
        AfterAddCharInsert(catalog, d, id, Build(hasSpiral, sharedSkillCost, maxHp, maxAtk), storiesArg,
                           gettime, now, group);
        added := true;
        assert State() == goal.0.(saves := d.saves) && added == goal.1;
      }

      if !group {
        Update();
      }
    }

    /** The search loop at the head of `add_char`: the first roster
        position holding `id`, if any. */
    method FindCharIndex(id: nat) returns (charExists: bool, index: nat)
      ensures charExists ==> FindChar(characterData, id) == Some(index)
      ensures !charExists ==> FindChar(characterData, id) == None
    {
      charExists := false;
      index := 0;
      var i := 0;
      while i < |characterData|
        invariant 0 <= i <= |characterData|
        invariant forall k :: 0 <= k < i ==> characterData[k].charaId != id
      {
        if id == characterData[i].charaId {
          charExists := true;
          index := i;
          break;
        }
        i := i + 1;
      }
      assert charExists ==> FindChar(characterData, id) == Some(index);
    }

    /** The set of roster ids the first loop of `add_all_missing_chars`
      collects. */
    method CurrentCharIds() returns (ids: set<nat>)
      ensures ids == RosterIds(characterData)
    {
      ids := {};
      var i := 0;
      while i < |characterData|
        invariant 0 <= i <= |characterData|
        invariant ids == set j | 0 <= j < i :: characterData[j].charaId
      {
        ids := ids + {characterData[i].charaId};
        i := i + 1;
      }
    }

    /** One pass of the catalog loop of `add_all_missing_chars`: add the
      `n`-th catalog character unless its id was on the roster or it is the
      sentinel unit. */
    method AddIfMissing(n: nat, currentChars: set<nat>, now: int, ghost d0: Doc, ghost count: nat)
      returns (added: bool)
      requires Valid() && n < |catalog.ids| && |d0.advEncyclo| >= 5
      requires (State(), count) == AddMissingUpTo(catalog, d0, n, currentChars, now)
      modifies this
      ensures Valid()
      ensures (State(), if added then count + 1 else count)
              == AddMissingUpTo(catalog, d0, n + 1, currentChars, now)
    {
      AddMissingStep(catalog, d0, n, currentChars, now);
      var key := catalog.ids[n];
      added := false;
      if key !in currentChars && key != Sentinel {
        var _ := AddChar(key, false, 0, 0, 0, None, None, now, true);
        added := true;
      }
    }

    /** `add_all_missing_chars`: append every catalog character whose id was
      not on the roster when the call began, except the sentinel unit; one
      write at the end. */
    method AddAllMissingChars(now: int) returns (count: nat)
      requires Valid()
      modifies this
      ensures Valid()
      ensures (State(), count) == AfterAddAllMissing(catalog, old(State()), now)
    {
      var currentChars := CurrentCharIds();
      ghost var d0 := State();
      count := AddEachMissing(currentChars, now);
      ghost var afterLoop := (State(), count);
      assert afterLoop == AddMissingUpTo(catalog, d0, |catalog.ids|, RosterIds(d0.chars), now);
      Update();
      assert State() == afterLoop.0.(saves := afterLoop.0.saves + 1);
    }

    /** The loop of `add_all_missing_chars` over the catalog, in catalog
        order, against the roster ids read before it started. */
    method AddEachMissing(currentChars: set<nat>, now: int) returns (count: nat)
      requires Valid()
      modifies this
      ensures Valid()
      ensures (State(), count) == AddMissingUpTo(catalog, old(State()), |catalog.ids|, currentChars, now)
    {
      ghost var d0 := State();
      count := 0;
      var n := 0;
      while n < |catalog.ids|
        invariant 0 <= n <= |catalog.ids|
        invariant Valid()
        invariant (State(), count) == AddMissingUpTo(catalog, d0, n, currentChars, now)
      {
        var added := AddIfMissing(n, currentChars, now, d0, count);
        if added {
          count := count + 1;
        }
        n := n + 1;
      }
    }

    /** `max_all_current_chars`: refresh, in roster order, every record whose
      id is in the catalog, keeping its acquisition time; one write at the
      end. */
    method MaxAllCurrentChars()
      requires Valid()
      modifies this
      ensures Valid()
      ensures State() == AfterMaxAllCurrent(catalog, old(State()))
    {
      ghost var d0 := State();
      var n := |characterData|;
      var i := 0;
      while i < n
        invariant 0 <= i <= n && n == |d0.chars|
        invariant Valid()
        invariant State() == MaxCurrentUpTo(catalog, d0, i)
      {
        MaxIfCatalogued(i, d0);
        i := i + 1;
      }
      ghost var afterLoop := State();
      Update();
      assert State() == afterLoop.(saves := afterLoop.saves + 1);
    }

    /** One pass of the loop of `max_all_current_chars`: the record at
        roster position `i` is refreshed when its id is in the catalog. */
    method MaxIfCatalogued(i: nat, ghost d0: Doc)
      requires Valid() && |d0.advEncyclo| >= 5 && i < |d0.chars|
      requires State() == MaxCurrentUpTo(catalog, d0, i)
      modifies this
      ensures Valid()
      ensures State() == MaxCurrentUpTo(catalog, d0, i + 1)
    {
      MaxCurrentStep(catalog, d0, i);
      var charId := characterData[i].charaId;
      if charId in catalog.stats {
        var gettime := characterData[i].gettime;
        // the id is on the roster, so the clock argument is never read
        var _ := AddChar(charId, false, 0, 0, 0, None, Some(gettime), 0, true);
      }
    }

    /** `max_out_character_list`. */
    method MaxOutCharacterList(now: int)
      requires Valid()
      modifies this
      ensures Valid()
      ensures State() == AfterMaxOut(catalog, old(State()), now)
    {
      MaxAllCurrentChars();
      var _ := AddAllMissingChars(now);
    }
  }
}
