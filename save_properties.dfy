/** What the operations of `DragaliaSaveFile` promise, stated about the
    functions of SaveModel that the class is proved to follow. */
module SaveProperties {
  import opened Decimal
  import opened SaveModel

  // ------------------------------------------------------------- synthesis

  /** The shape of a record at full progress: rarity 5, every plus count at
      100, both extra abilities at 5, third ability and burst attack at 2,
      flagged new, permanent and shown in the list, and either the
      non-spiral cap (level 80, 1191950 exp, mana circle 1..50, four limit
      breaks, skills 3/2, abilities 2/2, no combo buildup) or the spiral cap
      (level 100, 8866950 exp, mana circle 1..70, five limit breaks, 20
      extra levels, skills 4/3, abilities 3/3, combo buildup 1). */
  predicate FullyBuilt(r: CharRecord)
  {
    && r.rarity == 5 && r.hpPlusCount == 100 && r.attackPlusCount == 100
    && r.exAbilityLevel == 5 && r.exAbility2Level == 5
    && r.ability3Level == 2 && r.burstAttackLevel == 2
    && r.isNew == 1 && r.isTemporary == 0 && r.listViewFlag == 1
    && (forall k :: 0 <= k < |r.manaCirclePieceIdList| ==> r.manaCirclePieceIdList[k] == k + 1)
    && ((&& r.level == 100 && r.exp == 8866950 && |r.manaCirclePieceIdList| == 70
         && r.limitBreakCount == 5 && r.additionalMaxLevel == 20
         && r.skill1Level == 4 && r.skill2Level == 3 && r.ability1Level == 3 && r.ability2Level == 3
         && r.comboBuildupCount == 1)
        || (&& r.level == 80 && r.exp == 1191950 && |r.manaCirclePieceIdList| == 50
            && r.limitBreakCount == 4 && r.additionalMaxLevel == 0
            && r.skill1Level == 3 && r.skill2Level == 2 && r.ability1Level == 2 && r.ability2Level == 2
            && r.comboBuildupCount == 0))
  }

  /** `_create_max_character` always builds a fully progressed record for
      the requested id and acquisition time; it is at the spiral cap exactly
      when the build has a spiral. */
  lemma MaxRecordFullyBuilt(id: nat, b: Build, gettime: int)
    ensures var r := MaxRecord(id, b, gettime);
            FullyBuilt(r) && r.charaId == id && r.gettime == gettime
            && (r.level == 100 <==> b.spiral)
            && r.hp == b.hp && r.attack == b.attack && r.isUnlockEditSkill == b.sharedSkillCost
  {
  }

  /** For a catalog character the caller's build is ignored: the spiral flag
      is the presence of `ManaSpiralDate` and the totals are the catalog's
      sums. For any other id the caller's build is used as given. */
  lemma CatalogOverridesCaller(cat: Catalog, id: nat, g1: Build, g2: Build)
    ensures id in cat.stats ==> Resolve(cat, id, g1) == Resolve(cat, id, g2)
    ensures id in cat.stats ==>
              var e := cat.stats[id];
              Resolve(cat, id, g1).spiral == e.manaSpiralDate.Some?
              && Resolve(cat, id, g1).sharedSkillCost == e.editSkillCost
              && Resolve(cat, id, g1).hp == (if e.manaSpiralDate.Some? then SpiralHp(e) else BaseHp(e))
              && Resolve(cat, id, g1).attack == (if e.manaSpiralDate.Some? then SpiralAtk(e) else BaseAtk(e))
    ensures id !in cat.stats ==> Resolve(cat, id, g1) == g1
  {
  }

  // ---------------------------------------------------------------- stories

  lemma LedgerIdsAppend(a: seq<StoryEntry>, b: seq<StoryEntry>)
    ensures LedgerIds(a + b) == LedgerIds(a) + LedgerIds(b)
  {
    forall x | x in LedgerIds(a + b)
      ensures x in LedgerIds(a) + LedgerIds(b)
    {
      var j :| 0 <= j < |a + b| && (a + b)[j].unitStoryId == x;
      if j >= |a| {
        assert b[j - |a|].unitStoryId == x;
      }
    }
    forall x | x in LedgerIds(a) + LedgerIds(b)
      ensures x in LedgerIds(a + b)
    {
      if x in LedgerIds(a) {
        var j :| 0 <= j < |a| && a[j].unitStoryId == x;
        assert (a + b)[j].unitStoryId == x;
      } else {
        var j :| 0 <= j < |b| && b[j].unitStoryId == x;
        assert (a + b)[|a| + j].unitStoryId == x;
      }
    }
  }

  /** The entries `_add_stories` appends are unread, come from the walked
      list and were absent from the ledger; and every walked id absent from
      the ledger gets an entry. */
  lemma {:induction false} NewEntriesExactly(ids: seq<int>, present: set<int>)
    ensures forall k :: 0 <= k < |NewEntries(ids, present)| ==>
              NewEntries(ids, present)[k].isRead == 0
              && NewEntries(ids, present)[k].unitStoryId in ids
              && NewEntries(ids, present)[k].unitStoryId !in present
    ensures forall x :: x in ids && x !in present ==> x in LedgerIds(NewEntries(ids, present))
  {
    if ids != [] {
      var init, last := ids[..|ids| - 1], ids[|ids| - 1];
      NewEntriesExactly(init, present);
      var tail := if last in present then [] else [StoryEntry(last, 0)];
      assert NewEntries(ids, present) == NewEntries(init, present) + tail;
      LedgerIdsAppend(NewEntries(init, present), tail);
      assert ids == init + [last];
      forall x | x in ids && x !in present
        ensures x in LedgerIds(NewEntries(ids, present))
      {
        if x != last {
          assert x in init;
        } else {
          assert tail[0].unitStoryId == x;
        }
      }
    }
  }

  /** Ids already on the ledger are skipped. */
  lemma {:induction false} NewEntriesNone(ids: seq<int>, present: set<int>)
    requires forall x :: x in ids ==> x in present
    ensures NewEntries(ids, present) == []
  {
    if ids != [] {
      assert ids[..|ids| - 1] <= ids;
      NewEntriesNone(ids[..|ids| - 1], present);
    }
  }

  /** After `_add_stories` every walked id is on the ledger, and the old
      ledger is a prefix of the new one. */
  lemma WithStoriesCovers(ledger: seq<StoryEntry>, ids: seq<int>)
    ensures ledger <= WithStories(ledger, ids)
    ensures forall x :: x in ids ==> x in LedgerIds(WithStories(ledger, ids))
  {
    NewEntriesExactly(ids, LedgerIds(ledger));
    LedgerIdsAppend(ledger, NewEntries(ids, LedgerIds(ledger)));
  }

  /** Walking the same list twice adds nothing the second time. */
  lemma WithStoriesIdempotent(ledger: seq<StoryEntry>, ids: seq<int>)
    ensures WithStories(WithStories(ledger, ids), ids) == WithStories(ledger, ids)
  {
    var l1 := WithStories(ledger, ids);
    WithStoriesCovers(ledger, ids);
    NewEntriesNone(ids, LedgerIds(l1));
    assert l1 + [] == l1;
  }

  /** The appended entries carry distinct ids when the walked list does. */
  lemma {:induction false} NewEntriesUnique(ids: seq<int>, present: set<int>)
    requires forall i, j :: 0 <= i < j < |ids| ==> ids[i] != ids[j]
    ensures UniqueStoryIds(NewEntries(ids, present))
  {
    if ids != [] {
      var init, last := ids[..|ids| - 1], ids[|ids| - 1];
      NewEntriesUnique(init, present);
      NewEntriesExactly(init, present);
      assert last !in init;
    }
  }

  /** A ledger without repeated ids keeps that property when the walked
      list has none either. */
  lemma WithStoriesKeepsUnique(ledger: seq<StoryEntry>, ids: seq<int>)
    requires UniqueStoryIds(ledger)
    requires forall i, j :: 0 <= i < j < |ids| ==> ids[i] != ids[j]
    ensures UniqueStoryIds(WithStories(ledger, ids))
  {
    var added := NewEntries(ids, LedgerIds(ledger));
    NewEntriesUnique(ids, LedgerIds(ledger));
    NewEntriesExactly(ids, LedgerIds(ledger));
    var r := ledger + added;
    forall i, j | 0 <= i < j < |r|
      ensures r[i].unitStoryId != r[j].unitStoryId
    {
      if j >= |ledger| && i < |ledger| {
        assert r[j] == added[j - |ledger|];
        assert ledger[i].unitStoryId in LedgerIds(ledger);
      } else if i >= |ledger| {
        assert r[i] == added[i - |ledger|] && r[j] == added[j - |ledger|];
      }
    }
  }

  /** The ledger ids are read once, before the walk, so an id repeated in
      the walked list is appended once per occurrence. */
  lemma RepeatedIdAppendedTwice(ledger: seq<StoryEntry>, x: int)
    requires x !in LedgerIds(ledger)
    ensures WithStories(ledger, [x, x]) == ledger + [StoryEntry(x, 0), StoryEntry(x, 0)]
  {
    var p := LedgerIds(ledger);
    assert [x, x][..1] == [x];
    assert [x][..0] == [];
    assert NewEntries([x], p) == [StoryEntry(x, 0)];
    assert NewEntries([x, x], p) == NewEntries([x], p) + [StoryEntry(x, 0)];
  }

  // -------------------------------------------------------------- add_char

  /** Records with the same ids in the same order have the same first match. */
  lemma FindCharSameIds(a: seq<CharRecord>, b: seq<CharRecord>, id: nat)
    requires |a| == |b| && forall j :: 0 <= j < |a| ==> a[j].charaId == b[j].charaId
    ensures FindChar(a, id) == FindChar(b, id)
  {
    assert RosterIds(a) == RosterIds(b) by {
      forall x | x in RosterIds(a) ensures x in RosterIds(b) {
        var j :| 0 <= j < |a| && a[j].charaId == x;
        assert b[j].charaId == x;
      }
      forall x | x in RosterIds(b) ensures x in RosterIds(a) {
        var j :| 0 <= j < |b| && b[j].charaId == x;
        assert a[j].charaId == x;
      }
    }
  }

  /** On a roster without repeated ids the search stops at the one record
      with the id. */
  lemma FindCharUnique(chars: seq<CharRecord>, j: nat)
    requires UniqueIds(chars) && j < |chars|
    ensures FindChar(chars, chars[j].charaId) == Some(j)
  {
    assert chars[j].charaId in RosterIds(chars);
  }

  /** An id already on the roster: the first record with it is rebuilt in
      place from the catalog, keeping its acquisition time; nothing else on
      the roster changes and the answer is false. */
  lemma AddCharRefreshesInPlace(cat: Catalog, d: Doc, id: nat, given: Build, storiesArg: Option<seq<int>>,
                                gettime: Option<int>, now: int, group: bool)
    requires IsGameId(id) && |d.advEncyclo| >= 5
    requires id in RosterIds(d.chars)
    ensures var idx := FindChar(d.chars, id).value;
            var r := AfterAddChar(cat, d, id, given, storiesArg, gettime, now, group);
            && !r.1 && |r.0.chars| == |d.chars|
            && (forall j :: 0 <= j < |d.chars| && j != idx ==> r.0.chars[j] == d.chars[j])
            && r.0.chars[idx] == MaxRecord(id, Resolve(cat, id, DefaultBuild), d.chars[idx].gettime)
            && r.0.stories == WithStories(d.stories, StoryIdsFor(cat, id, None))
  {
    AfterAddCharRefresh(cat, d, id, given, storiesArg, gettime, now, group, FindChar(d.chars, id).value);
  }

  /** On the refresh path the caller's build, story list, acquisition time
      and clock play no part: re-adding a custom character resets it to the
      catalog's (or the default) build. */
  lemma AddCharRefreshIgnoresArguments(cat: Catalog, d: Doc, id: nat,
                                       g1: Build, s1: Option<seq<int>>, t1: Option<int>, n1: int,
                                       g2: Build, s2: Option<seq<int>>, t2: Option<int>, n2: int, group: bool)
    requires IsGameId(id) && |d.advEncyclo| >= 5
    requires id in RosterIds(d.chars)
    ensures AfterAddChar(cat, d, id, g1, s1, t1, n1, group) == AfterAddChar(cat, d, id, g2, s2, t2, n2, group)
  {
    var idx := FindChar(d.chars, id).value;
    AfterAddCharRefresh(cat, d, id, g1, s1, t1, n1, group, idx);
    AfterAddCharRefresh(cat, d, id, g2, s2, t2, n2, group, idx);
  }

  /** An id not on the roster: one record is appended, built from the
      caller's arguments unless the catalog knows the id, stamped with the
      given acquisition time or else the clock; its element gains three
      tenths of hp and attack with a spiral and two without; the answer is
      true. */
  lemma AddCharAppends(cat: Catalog, d: Doc, id: nat, given: Build, storiesArg: Option<seq<int>>,
                       gettime: Option<int>, now: int, group: bool)
    requires IsGameId(id) && |d.advEncyclo| >= 5
    requires id !in RosterIds(d.chars)
    ensures var rec := MaxRecord(id, Resolve(cat, id, given), if gettime.Some? then gettime.value else now);
            var r := AfterAddChar(cat, d, id, given, storiesArg, gettime, now, group);
            var e := ElementDigit(id);
            var bonus := if Resolve(cat, id, given).spiral then 3 else 2;
            && r.1 && r.0.chars == d.chars + [rec]
            && r.0.stories == WithStories(d.stories, StoryIdsFor(cat, id, storiesArg))
            && (1 <= e <= 5 ==> r.0.advEncyclo[e - 1] == BonusEntry(d.advEncyclo[e - 1].hp + bonus, d.advEncyclo[e - 1].attack + bonus))
            && (forall j :: 0 <= j < |d.advEncyclo| && j != e - 1 ==> r.0.advEncyclo[j] == d.advEncyclo[j])
  {
    AfterAddCharInsert(cat, d, id, given, storiesArg, gettime, now, group);
  }

  /** The document is written back exactly when the call is not part of a
      batch, and the profile is never touched. */
  lemma AddCharSaves(cat: Catalog, d: Doc, id: nat, given: Build, storiesArg: Option<seq<int>>,
                     gettime: Option<int>, now: int, group: bool)
    requires IsGameId(id) && |d.advEncyclo| >= 5
    ensures var r := AfterAddChar(cat, d, id, given, storiesArg, gettime, now, group).0;
            r.saves == (if group then d.saves else d.saves + 1) && r.userData == d.userData
  {
    match FindChar(d.chars, id)
    case Some(idx) => AfterAddCharRefresh(cat, d, id, given, storiesArg, gettime, now, group, idx);
    case None => AfterAddCharInsert(cat, d, id, given, storiesArg, gettime, now, group);
  }

  /** Encyclopedia bonuses only grow. */
  lemma AddCharBonusNeverDecreases(cat: Catalog, d: Doc, id: nat, given: Build, storiesArg: Option<seq<int>>,
                                   gettime: Option<int>, now: int, group: bool)
    requires IsGameId(id) && |d.advEncyclo| >= 5
    ensures var r := AfterAddChar(cat, d, id, given, storiesArg, gettime, now, group).0;
            forall j :: 0 <= j < |d.advEncyclo| ==>
              r.advEncyclo[j].hp >= d.advEncyclo[j].hp && r.advEncyclo[j].attack >= d.advEncyclo[j].attack
  {
    match FindChar(d.chars, id)
    case Some(idx) => AfterAddCharRefresh(cat, d, id, given, storiesArg, gettime, now, group, idx);
    case None => AfterAddCharInsert(cat, d, id, given, storiesArg, gettime, now, group);
  }

  /** A roster without repeated ids keeps that property. */
  lemma AddCharKeepsUniqueIds(cat: Catalog, d: Doc, id: nat, given: Build, storiesArg: Option<seq<int>>,
                              gettime: Option<int>, now: int, group: bool)
    requires IsGameId(id) && |d.advEncyclo| >= 5
    requires UniqueIds(d.chars)
    ensures UniqueIds(AfterAddChar(cat, d, id, given, storiesArg, gettime, now, group).0.chars)
  {
    var r := AfterAddChar(cat, d, id, given, storiesArg, gettime, now, group).0;
    match FindChar(d.chars, id)
    case Some(idx) =>
      AfterAddCharRefresh(cat, d, id, given, storiesArg, gettime, now, group, idx);
      assert forall j :: 0 <= j < |r.chars| ==> r.chars[j].charaId == d.chars[j].charaId;
    case None =>
      AfterAddCharInsert(cat, d, id, given, storiesArg, gettime, now, group);
      forall i, j | 0 <= i < j < |r.chars|
        ensures r.chars[i].charaId != r.chars[j].charaId
      {
        if j == |d.chars| {
          assert d.chars[i].charaId in RosterIds(d.chars);
        }
      }
  }

  /** Refreshing a record whose level and mana circle length are already
      those of the rebuild leaves the bonus table as it was, whatever its
      other fields hold. */
  lemma RefreshOfMaxedKeepsBonus(cat: Catalog, d: Doc, id: nat, given: Build, storiesArg: Option<seq<int>>,
                                 gettime: Option<int>, now: int, group: bool, idx: nat)
    requires IsGameId(id) && |d.advEncyclo| >= 5
    requires FindChar(d.chars, id) == Some(idx)
    requires d.chars[idx].level == MaxRecord(id, Resolve(cat, id, DefaultBuild), d.chars[idx].gettime).level
    requires |d.chars[idx].manaCirclePieceIdList|
             == |MaxRecord(id, Resolve(cat, id, DefaultBuild), d.chars[idx].gettime).manaCirclePieceIdList|
    ensures AfterAddChar(cat, d, id, given, storiesArg, gettime, now, group).0.advEncyclo == d.advEncyclo
  {
    AfterAddCharRefresh(cat, d, id, given, storiesArg, gettime, now, group, idx);
    var e := ElementDigit(id);
    if 1 <= e <= 5 {
      assert d.advEncyclo[e - 1 := BonusEntry(d.advEncyclo[e - 1].hp, d.advEncyclo[e - 1].attack)] == d.advEncyclo;
    }
  }

  /** After `add_char` the first record with the id is the one refreshing
      builds from the catalog (or the default build), unless the id was new
      and the caller's build was used. */
  lemma AddCharFirstMatch(cat: Catalog, d: Doc, id: nat, given: Build, storiesArg: Option<seq<int>>,
                          gettime: Option<int>, now: int, group: bool)
    requires IsGameId(id) && |d.advEncyclo| >= 5
    ensures var d1 := AfterAddChar(cat, d, id, given, storiesArg, gettime, now, group).0;
            var unseen := id !in RosterIds(d.chars);
            && FindChar(d1.chars, id).Some?
            && d1.chars[FindChar(d1.chars, id).value]
               == MaxRecord(id, Resolve(cat, id, if unseen then given else DefaultBuild),
                            d1.chars[FindChar(d1.chars, id).value].gettime)
            && d1.stories == WithStories(d.stories, StoryIdsFor(cat, id, if unseen then storiesArg else None))
  {
    var d1 := AfterAddChar(cat, d, id, given, storiesArg, gettime, now, group).0;
    match FindChar(d.chars, id)
    case Some(i) =>
      AfterAddCharRefresh(cat, d, id, given, storiesArg, gettime, now, group, i);
      FindCharSameIds(d.chars, d1.chars, id);
    case None =>
      AfterAddCharInsert(cat, d, id, given, storiesArg, gettime, now, group);
      var idx := |d.chars|;
      assert d1.chars[idx].charaId == id;
  }

  /** Adding a character a second time, as part of a batch, changes nothing,
      whatever the second call's arguments, provided the first call's build
      was the one refreshing uses (a catalog character, or the default build)
      and its story list was the catalog's. */
  lemma AddCharIdempotent(cat: Catalog, d: Doc, id: nat, given: Build, gettime: Option<int>, now: int,
                          given2: Build, stories2: Option<seq<int>>, gettime2: Option<int>, now2: int)
    requires IsGameId(id) && |d.advEncyclo| >= 5
    requires id in cat.stats || given == DefaultBuild
    ensures var d1 := AfterAddChar(cat, d, id, given, None, gettime, now, true).0;
            AfterAddChar(cat, d1, id, given2, stories2, gettime2, now2, true).0 == d1
  {
    var d1 := AfterAddChar(cat, d, id, given, None, gettime, now, true).0;
    AddCharFirstMatch(cat, d, id, given, None, gettime, now, true);
    assert Resolve(cat, id, given) == Resolve(cat, id, DefaultBuild);
    var idx := FindChar(d1.chars, id).value;
    RefreshOfMaxedKeepsBonus(cat, d1, id, given2, stories2, gettime2, now2, true, idx);
    AfterAddCharRefresh(cat, d1, id, given2, stories2, gettime2, now2, true, idx);
    WithStoriesIdempotent(d.stories, StoryIdsFor(cat, id, None));
    AddCharSaves(cat, d, id, given, None, gettime, now, true);
    assert d1.chars[idx := d1.chars[idx]] == d1.chars;
  }

  // ------------------------------------------------------- bulk operations

  /** Ids `add_all_missing_chars` may add on top of a roster whose ids
      are `present`: catalog characters, never the sentinel, none already
      present, no two the same. */
  predicate AddableIds(cat: Catalog, ids: seq<nat>, present: set<nat>)
  {
    && (forall k :: 0 <= k < |ids| ==> ids[k] in cat.stats && ids[k] != Sentinel && ids[k] !in present)
    && (forall i, j :: 0 <= i < j < |ids| ==> ids[i] != ids[j])
  }

  /** Every catalog character except the sentinel is on the roster. */
  predicate CoversCatalog(cat: Catalog, chars: seq<CharRecord>)
  {
    forall k :: k in cat.stats && k != Sentinel ==> k in RosterIds(chars)
  }

  /** `after` is `before` followed by default-built records, stamped `now`,
      of catalog characters other than the sentinel that were not on
      `before`. */
  predicate AppendsDefaults(cat: Catalog, before: seq<CharRecord>, after: seq<CharRecord>, now: int)
  {
    && |before| <= |after| && after[..|before|] == before
    && (forall j :: |before| <= j < |after| ==>
          && after[j].charaId in cat.stats && after[j].charaId != Sentinel
          && after[j].charaId !in RosterIds(before)
          && after[j] == MaxRecord(after[j].charaId, Resolve(cat, after[j].charaId, DefaultBuild), now))
  }

  /** Every record of a catalog character is the one refreshing builds from
      the catalog, with the record's own acquisition time. */
  predicate RefreshedFromCatalog(cat: Catalog, chars: seq<CharRecord>)
  {
    forall j :: 0 <= j < |chars| && chars[j].charaId in cat.stats ==>
      chars[j] == MaxRecord(chars[j].charaId, Resolve(cat, chars[j].charaId, DefaultBuild), chars[j].gettime)
  }

  lemma {:induction false} MissingIdsAddable(cat: Catalog, n: nat, present: set<nat>)
    requires WellFormed(cat) && n <= |cat.ids|
    ensures AddableIds(cat, MissingIds(cat, n, present), present)
  {
    if n > 0 {
      MissingIdsAddable(cat, n - 1, present);
      MissingIdsExclude(cat, n - 1, present, n - 1);
    }
  }

  /** Every catalog id at a position the loop has passed, missing from
      `present` and other than the sentinel, is among the ids it adds. */
  lemma {:induction false} MissingIdsContains(cat: Catalog, n: nat, present: set<nat>, i: nat)
    requires WellFormed(cat) && i < n <= |cat.ids|
    requires cat.ids[i] !in present && cat.ids[i] != Sentinel
    ensures cat.ids[i] in MissingIds(cat, n, present)
  {
    var prev := MissingIds(cat, n - 1, present);
    var key := cat.ids[n - 1];
    assert MissingIds(cat, n, present) == prev + (if key !in present && key != Sentinel then [key] else []);
    if i < n - 1 {
      MissingIdsContains(cat, n - 1, present, i);
    }
  }

  /** Every catalog character other than the sentinel that is not in
      `present` is among the ids the whole loop adds. */
  lemma MissingIdsComplete(cat: Catalog, present: set<nat>)
    requires WellFormed(cat)
    ensures forall k :: k in cat.stats && k != Sentinel && k !in present ==> k in MissingIds(cat, |cat.ids|, present)
  {
    forall k | k in cat.stats && k != Sentinel && k !in present
      ensures k in MissingIds(cat, |cat.ids|, present)
    {
      var i :| 0 <= i < |cat.ids| && cat.ids[i] == k;
      MissingIdsContains(cat, |cat.ids|, present, i);
    }
  }

  /** A roster extended by default-built records for addable ids that
      include every catalog id but the sentinel missing from it. */
  lemma ExtendedRoster(cat: Catalog, chars: seq<CharRecord>, miss: seq<nat>, now: int)
    requires AddableIds(cat, miss, RosterIds(chars))
    requires forall k :: k in cat.stats && k != Sentinel && k !in RosterIds(chars) ==> k in miss
    ensures AppendsDefaults(cat, chars, chars + DefaultRecords(cat, miss, now), now)
    ensures CoversCatalog(cat, chars + DefaultRecords(cat, miss, now))
    ensures UniqueIds(chars) ==> UniqueIds(chars + DefaultRecords(cat, miss, now))
  {
    var c := chars + DefaultRecords(cat, miss, now);
    var base := |chars|;
    assert c[..base] == chars;
    forall j | base <= j < |c|
      ensures c[j].charaId == miss[j - base]
      ensures c[j] == MaxRecord(miss[j - base], Resolve(cat, miss[j - base], DefaultBuild), now)
    {
    }
    forall k | k in cat.stats && k != Sentinel
      ensures k in RosterIds(c)
    {
      if k in RosterIds(chars) {
        var j :| 0 <= j < base && chars[j].charaId == k;
        assert c[j] == chars[j];
      } else {
        var m :| 0 <= m < |miss| && miss[m] == k;
        assert c[base + m].charaId == k;
      }
    }
    if UniqueIds(chars) {
      forall a, b | 0 <= a < b < |c|
        ensures c[a].charaId != c[b].charaId
      {
        if b >= base && a < base {
          assert chars[a].charaId in RosterIds(chars);
        }
      }
    }
  }

  /** `add_all_missing_chars`: the records that were on the roster are
      untouched; each appended record is a default-built catalog character,
      stamped with the clock, that was not on the roster before and is not
      the sentinel; afterwards every catalog character except the sentinel
      is on the roster; the count is the number appended; a roster without
      repeated ids keeps that property; each element's bonus entry gains 3
      tenths per appended character of that element with a mana spiral and
      2 per other one, in hp and in attack; the ledger gains unread entries
      only and holds exactly its old ids and the catalog stories of the
      appended characters; and the document is written once. */
  lemma AddAllMissingComplete(cat: Catalog, d: Doc, now: int)
    requires WellFormed(cat) && |d.advEncyclo| >= 5
    ensures AppendsDefaults(cat, d.chars, AfterAddAllMissing(cat, d, now).0.chars, now)
    ensures CoversCatalog(cat, AfterAddAllMissing(cat, d, now).0.chars)
    ensures AfterAddAllMissing(cat, d, now).1 == |AfterAddAllMissing(cat, d, now).0.chars| - |d.chars|
    ensures UniqueIds(d.chars) ==> UniqueIds(AfterAddAllMissing(cat, d, now).0.chars)
    ensures GainedBy(cat, d.advEncyclo, AfterAddAllMissing(cat, d, now).0.advEncyclo,
                     MissingIds(cat, |cat.ids|, RosterIds(d.chars)))
    ensures ExtendsLedger(d.stories, AfterAddAllMissing(cat, d, now).0.stories,
                          StoriesOfIds(cat, MissingIds(cat, |cat.ids|, RosterIds(d.chars))))
    ensures AfterAddAllMissing(cat, d, now).0.saves == d.saves + 1
    ensures AfterAddAllMissing(cat, d, now).0.userData == d.userData
  {
    var present := RosterIds(d.chars);
    var miss := MissingIds(cat, |cat.ids|, present);
    AddMissingGains(cat, d, |cat.ids|, present, now);
    AddMissingStories(cat, d, |cat.ids|, present, now);
    AddMissingAppends(cat, d, |cat.ids|, present, now);
    MissingIdsAddable(cat, |cat.ids|, present);
    MissingIdsComplete(cat, present);
    ExtendedRoster(cat, d.chars, miss, now);
  }

  /** The roster loop of `max_all_current_chars` on a roster without
      repeated ids: every record it has passed whose id is in the catalog is
      rebuilt in place from the catalog with its own acquisition time; every
      other record is as it was. */
  lemma {:induction false} MaxCurrentRefreshes(cat: Catalog, d0: Doc, n: nat)
    requires WellFormed(cat) && |d0.advEncyclo| >= 5 && n <= |d0.chars| && UniqueIds(d0.chars)
    ensures forall j :: 0 <= j < |d0.chars| ==>
              MaxCurrentUpTo(cat, d0, n).chars[j]
              == (if j < n && d0.chars[j].charaId in cat.stats
                  then MaxRecord(d0.chars[j].charaId, Resolve(cat, d0.chars[j].charaId, DefaultBuild),
                                 d0.chars[j].gettime)
                  else d0.chars[j])
  {
    if n > 0 {
      var i := n - 1;
      MaxCurrentRefreshes(cat, d0, i);
      MaxCurrentStepChars(cat, d0, i);
      var d, next := MaxCurrentUpTo(cat, d0, i), MaxCurrentUpTo(cat, d0, n);
      assert d.chars[i] == d0.chars[i];
      forall j | 0 <= j < |d0.chars|
        ensures next.chars[j]
                == (if j < n && d0.chars[j].charaId in cat.stats
                    then MaxRecord(d0.chars[j].charaId, Resolve(cat, d0.chars[j].charaId, DefaultBuild),
                                   d0.chars[j].gettime)
                    else d0.chars[j])
      {
        if j != i {
          assert next.chars[j] == d.chars[j];
        }
      }
    }
  }

  /** One pass of the `max_all_current_chars` loop on the roster alone. */
  lemma MaxCurrentStepChars(cat: Catalog, d0: Doc, i: nat)
    requires WellFormed(cat) && |d0.advEncyclo| >= 5 && i < |d0.chars| && UniqueIds(d0.chars)
    ensures var d := MaxCurrentUpTo(cat, d0, i);
            MaxCurrentUpTo(cat, d0, i + 1).chars
            == if d.chars[i].charaId in cat.stats
               then d.chars[i := MaxRecord(d.chars[i].charaId, Resolve(cat, d.chars[i].charaId, DefaultBuild),
                                           d.chars[i].gettime)]
               else d.chars
  {
    var d := MaxCurrentUpTo(cat, d0, i);
    MaxCurrentStep(cat, d0, i);
    var id := d.chars[i].charaId;
    if id in cat.stats {
      assert UniqueIds(d.chars);
      FindCharUnique(d.chars, i);
      AfterAddCharRefresh(cat, d, id, DefaultBuild, None, Some(d.chars[i].gettime), 0, true, i);
    }
  }

  /** `max_all_current_chars`: the roster keeps its length and its ids in
      order, each catalog character on it is rebuilt with its own
      acquisition time and every other record is left alone, the ledger
      gains unread entries only and holds exactly its old ids and the
      catalog stories of the catalogued characters on the roster, and the
      document is written once. */
  lemma MaxAllCurrentRefreshes(cat: Catalog, d: Doc)
    requires WellFormed(cat) && |d.advEncyclo| >= 5 && UniqueIds(d.chars)
    ensures |AfterMaxAllCurrent(cat, d).chars| == |d.chars|
    ensures forall j :: 0 <= j < |d.chars| ==> AfterMaxAllCurrent(cat, d).chars[j].charaId == d.chars[j].charaId
    ensures forall j :: 0 <= j < |d.chars| && d.chars[j].charaId !in cat.stats ==>
              AfterMaxAllCurrent(cat, d).chars[j] == d.chars[j]
    ensures RefreshedFromCatalog(cat, AfterMaxAllCurrent(cat, d).chars)
    ensures UniqueIds(AfterMaxAllCurrent(cat, d).chars)
    ensures ExtendsLedger(d.stories, AfterMaxAllCurrent(cat, d).stories, StoriesOfRoster(cat, d.chars, |d.chars|))
    ensures AfterMaxAllCurrent(cat, d).saves == d.saves + 1
    ensures AfterMaxAllCurrent(cat, d).userData == d.userData
  {
    MaxCurrentStories(cat, d, |d.chars|);
    MaxCurrentRefreshes(cat, d, |d.chars|);
    var d1 := AfterMaxAllCurrent(cat, d);
    forall j | 0 <= j < |d1.chars| && d1.chars[j].charaId in cat.stats
      ensures d1.chars[j] == MaxRecord(d1.chars[j].charaId, Resolve(cat, d1.chars[j].charaId, DefaultBuild),
                                       d1.chars[j].gettime)
    {
      MaxRecordFullyBuilt(d.chars[j].charaId, Resolve(cat, d.chars[j].charaId, DefaultBuild), d.chars[j].gettime);
    }
  }

  /** `max_out_character_list`: afterwards every catalog character except
      the sentinel is on the roster, once, every record of a catalog
      character is the one refreshing builds, the bonus table is the one
      `max_all_current_chars` left raised by exactly the gains of the
      characters that were missing, the ledger gains unread entries only and
      holds exactly its old ids, the catalog stories of the catalogued
      characters that were on the roster and those of the characters that
      were missing, and the document has been written twice. */
  lemma MaxOutCompletes(cat: Catalog, d: Doc, now: int)
    requires WellFormed(cat) && |d.advEncyclo| >= 5 && UniqueIds(d.chars)
    ensures UniqueIds(AfterMaxOut(cat, d, now).chars)
    ensures CoversCatalog(cat, AfterMaxOut(cat, d, now).chars)
    ensures RefreshedFromCatalog(cat, AfterMaxOut(cat, d, now).chars)
    ensures AfterMaxOut(cat, d, now).saves == d.saves + 2
    ensures GainedBy(cat, AfterMaxAllCurrent(cat, d).advEncyclo, AfterMaxOut(cat, d, now).advEncyclo,
                     MissingIds(cat, |cat.ids|, RosterIds(d.chars)))
    ensures ExtendsLedger(d.stories, AfterMaxOut(cat, d, now).stories,
                          StoriesOfRoster(cat, d.chars, |d.chars|)
                          + StoriesOfIds(cat, MissingIds(cat, |cat.ids|, RosterIds(d.chars))))
  {
    var d1 := AfterMaxAllCurrent(cat, d);
    MaxAllCurrentRefreshes(cat, d);
    SameIdsSameRoster(d1.chars, d.chars);
    AddAllMissingComplete(cat, d1, now);
    ExtendsLedgerTrans(d.stories, d1.stories, AfterMaxOut(cat, d, now).stories,
                       StoriesOfRoster(cat, d.chars, |d.chars|),
                       StoriesOfIds(cat, MissingIds(cat, |cat.ids|, RosterIds(d.chars))));
    var d2 := AfterMaxOut(cat, d, now);
    forall j | 0 <= j < |d2.chars| && d2.chars[j].charaId in cat.stats
      ensures d2.chars[j] == MaxRecord(d2.chars[j].charaId, Resolve(cat, d2.chars[j].charaId, DefaultBuild),
                                       d2.chars[j].gettime)
    {
      if j < |d1.chars| {
        assert d2.chars[j] == d2.chars[..|d1.chars|][j];
      }
    }
  }

  /** Every bonus entry of `after` is at least the matching entry of
      `before`. */
  predicate BonusAtLeast(after: seq<BonusEntry>, before: seq<BonusEntry>)
  {
    && |after| == |before|
    && forall j :: 0 <= j < |before| ==> after[j].hp >= before[j].hp && after[j].attack >= before[j].attack
  }

  lemma BonusAtLeastTrans(a: seq<BonusEntry>, b: seq<BonusEntry>, c: seq<BonusEntry>)
    ensures BonusAtLeast(a, b) && BonusAtLeast(b, c) ==> BonusAtLeast(a, c)
  {
  }

  /** Adding a character under the catalog build never lowers a bonus. */
  lemma AddDefaultBonusAtLeast(cat: Catalog, d: Doc, id: nat, gettime: Option<int>, now: int)
    requires IsGameId(id) && |d.advEncyclo| >= 5
    ensures BonusAtLeast(AfterAddChar(cat, d, id, DefaultBuild, None, gettime, now, true).0.advEncyclo, d.advEncyclo)
  {
    AddCharBonusNeverDecreases(cat, d, id, DefaultBuild, None, gettime, now, true);
  }

  /** One pass of the catalog loop of `add_all_missing_chars` never lowers
      a bonus. */
  lemma AddMissingBonusStep(cat: Catalog, d0: Doc, n: nat, present: set<nat>, now: int)
    requires WellFormed(cat) && 0 < n <= |cat.ids| && |d0.advEncyclo| >= 5
    ensures BonusAtLeast(AddMissingUpTo(cat, d0, n, present, now).0.advEncyclo,
                         AddMissingUpTo(cat, d0, n - 1, present, now).0.advEncyclo)
  {
    AddMissingStep(cat, d0, n - 1, present, now);
    var prev := AddMissingUpTo(cat, d0, n - 1, present, now).0;
    var key := cat.ids[n - 1];
    if key !in present && key != Sentinel {
      AddDefaultBonusAtLeast(cat, prev, key, None, now);
    }
  }

  /** The catalog loop of `add_all_missing_chars` never lowers a bonus. */
  lemma {:induction false} AddMissingBonusGrows(cat: Catalog, d0: Doc, n: nat, present: set<nat>, now: int)
    requires WellFormed(cat) && n <= |cat.ids| && |d0.advEncyclo| >= 5
    ensures BonusAtLeast(AddMissingUpTo(cat, d0, n, present, now).0.advEncyclo, d0.advEncyclo)
  {
    if n > 0 {
      AddMissingBonusGrows(cat, d0, n - 1, present, now);
      AddMissingBonusStep(cat, d0, n, present, now);
      BonusAtLeastTrans(AddMissingUpTo(cat, d0, n, present, now).0.advEncyclo,
                        AddMissingUpTo(cat, d0, n - 1, present, now).0.advEncyclo, d0.advEncyclo);
    }
  }

  /** One pass of the roster loop of `max_all_current_chars` never lowers a
      bonus. */
  lemma MaxCurrentBonusStep(cat: Catalog, d0: Doc, n: nat)
    requires WellFormed(cat) && |d0.advEncyclo| >= 5 && 0 < n <= |d0.chars|
    ensures BonusAtLeast(MaxCurrentUpTo(cat, d0, n).advEncyclo, MaxCurrentUpTo(cat, d0, n - 1).advEncyclo)
  {
    MaxCurrentStep(cat, d0, n - 1);
    var prev := MaxCurrentUpTo(cat, d0, n - 1);
    var id := prev.chars[n - 1].charaId;
    if id in cat.stats {
      AddDefaultBonusAtLeast(cat, prev, id, Some(prev.chars[n - 1].gettime), 0);
    }
  }

  /** The roster loop of `max_all_current_chars` never lowers a bonus. */
  lemma {:induction false} MaxCurrentBonusGrows(cat: Catalog, d0: Doc, n: nat)
    requires WellFormed(cat) && |d0.advEncyclo| >= 5 && n <= |d0.chars|
    ensures BonusAtLeast(MaxCurrentUpTo(cat, d0, n).advEncyclo, d0.advEncyclo)
  {
    if n > 0 {
      MaxCurrentBonusGrows(cat, d0, n - 1);
      MaxCurrentBonusStep(cat, d0, n);
      BonusAtLeastTrans(MaxCurrentUpTo(cat, d0, n).advEncyclo,
                        MaxCurrentUpTo(cat, d0, n - 1).advEncyclo, d0.advEncyclo);
    }
  }

  /** None of the bulk operations ever lowers an encyclopedia bonus. */
  lemma BulkBonusesNeverDecrease(cat: Catalog, d: Doc, now: int)
    requires WellFormed(cat) && |d.advEncyclo| >= 5
    ensures BonusAtLeast(AfterAddAllMissing(cat, d, now).0.advEncyclo, d.advEncyclo)
    ensures BonusAtLeast(AfterMaxAllCurrent(cat, d).advEncyclo, d.advEncyclo)
    ensures BonusAtLeast(AfterMaxOut(cat, d, now).advEncyclo, d.advEncyclo)
  {
    AddMissingBonusGrows(cat, d, |cat.ids|, RosterIds(d.chars), now);
    MaxCurrentBonusGrows(cat, d, |d.chars|);
    var d1 := AfterMaxAllCurrent(cat, d);
    AddMissingBonusGrows(cat, d1, |cat.ids|, RosterIds(d1.chars), now);
  }

  /** Re-adding a catalog character whose record is already the catalog
      rebuild changes neither the roster nor the bonuses. */
  lemma RefreshMaxedStep(cat: Catalog, d: Doc, i: nat)
    requires WellFormed(cat) && |d.advEncyclo| >= 5 && i < |d.chars|
    requires d.chars[i].charaId in cat.stats && RefreshedFromCatalog(cat, d.chars)
    ensures var r := AfterAddChar(cat, d, d.chars[i].charaId, DefaultBuild, None, Some(d.chars[i].gettime), 0, true).0;
            r.chars == d.chars && r.advEncyclo == d.advEncyclo
  {
    var id := d.chars[i].charaId;
    assert id in RosterIds(d.chars);
    var idx := FindChar(d.chars, id).value;
    RefreshOfMaxedKeepsBonus(cat, d, id, DefaultBuild, None, Some(d.chars[i].gettime), 0, true, idx);
    AfterAddCharRefresh(cat, d, id, DefaultBuild, None, Some(d.chars[i].gettime), 0, true, idx);
    assert d.chars[idx := d.chars[idx]] == d.chars;
  }

  /** One pass of the roster loop over a roster already at its catalog
      rebuild leaves the roster and the bonuses alone; `next` is what the
      pass makes of `prev`. */
  lemma MaxCurrentKeepStep(cat: Catalog, prev: Doc, next: Doc, i: nat)
    requires WellFormed(cat) && |prev.advEncyclo| >= 5 && i < |prev.chars|
    requires RefreshedFromCatalog(cat, prev.chars)
    requires prev.chars[i].charaId in cat.stats ==>
      next == AfterAddChar(cat, prev, prev.chars[i].charaId, DefaultBuild, None, Some(prev.chars[i].gettime), 0, true).0
    requires prev.chars[i].charaId !in cat.stats ==> next == prev
    ensures next.chars == prev.chars && next.advEncyclo == prev.advEncyclo
  {
    if prev.chars[i].charaId in cat.stats {
      RefreshMaxedStep(cat, prev, i);
    }
  }

  /** On a roster whose catalog characters are all at their catalog rebuild,
      the roster loop of `max_all_current_chars` changes neither the roster
      nor the bonuses. */
  lemma {:induction false} MaxCurrentOnRefreshed(cat: Catalog, d0: Doc, n: nat)
    requires WellFormed(cat) && |d0.advEncyclo| >= 5 && n <= |d0.chars|
    requires RefreshedFromCatalog(cat, d0.chars)
    ensures MaxCurrentUpTo(cat, d0, n).chars == d0.chars
    ensures MaxCurrentUpTo(cat, d0, n).advEncyclo == d0.advEncyclo
  {
    if n > 0 {
      MaxCurrentOnRefreshed(cat, d0, n - 1);
      MaxCurrentStep(cat, d0, n - 1);
      MaxCurrentKeepStep(cat, MaxCurrentUpTo(cat, d0, n - 1), MaxCurrentUpTo(cat, d0, n), n - 1);
    }
  }

  /** When every catalog character but the sentinel is already present, the
      catalog loop of `add_all_missing_chars` adds nothing. */
  lemma {:induction false} AddMissingNoneMissing(cat: Catalog, d0: Doc, n: nat, present: set<nat>, now: int)
    requires WellFormed(cat) && n <= |cat.ids| && |d0.advEncyclo| >= 5
    requires forall k :: k in cat.stats && k != Sentinel ==> k in present
    ensures AddMissingUpTo(cat, d0, n, present, now) == (d0, 0)
  {
    if n > 0 {
      AddMissingNoneMissing(cat, d0, n - 1, present, now);
      AddMissingStep(cat, d0, n - 1, present, now);
    }
  }

  /** Maxing out a roster that is already maxed out (every catalog
      character but the sentinel present, each at its catalog rebuild)
      leaves the roster and the bonuses as they were; only the two writes
      happen. */
  lemma MaxOutOnMaxedRoster(cat: Catalog, d: Doc, now: int)
    requires WellFormed(cat) && |d.advEncyclo| >= 5
    requires RefreshedFromCatalog(cat, d.chars) && CoversCatalog(cat, d.chars)
    ensures AfterMaxAllCurrent(cat, d).chars == d.chars
    ensures AfterMaxAllCurrent(cat, d).advEncyclo == d.advEncyclo
    ensures AfterMaxOut(cat, d, now).chars == d.chars
    ensures AfterMaxOut(cat, d, now).advEncyclo == d.advEncyclo
    ensures AfterMaxOut(cat, d, now).saves == d.saves + 2
  {
    MaxCurrentOnRefreshed(cat, d, |d.chars|);
    var d1 := AfterMaxAllCurrent(cat, d);
    AddMissingNoneMissing(cat, d1, |cat.ids|, RosterIds(d1.chars), now);
  }

  // ---------------------------------------------------------------- bonuses

  // ------------------------------------------ bulk bonuses and stories, exactly

  /** The bonus, in tenths, that adding `id` under the catalog build gives
      its element, in hp and in attack alike: 3 for a character with a mana
      spiral, 2 otherwise. */
  function DefaultGain(cat: Catalog, id: nat): int
  {
    if Resolve(cat, id, DefaultBuild).spiral then 3 else 2
  }

  /** What adding the characters `ids` under the catalog build gives
      element `e`, in tenths. */
  function MissingGain(cat: Catalog, ids: seq<nat>, e: int): int
  {
    if ids == [] then 0
    else
      var last := ids[|ids| - 1];
      MissingGain(cat, ids[..|ids| - 1], e) + (if IsGameId(last) && ElementDigit(last) == e then DefaultGain(cat, last) else 0)
  }

  /** `after` is the table `before` with the entry of each element `e` in
      1..5 raised by `MissingGain(cat, ids, e)` in hp and in attack, and
      every other entry as it was. */
  predicate GainedBy(cat: Catalog, before: seq<BonusEntry>, after: seq<BonusEntry>, ids: seq<nat>)
  {
    && |before| >= 5 && |after| == |before|
    && (forall e :: 1 <= e <= 5 ==>
          after[e - 1] == BonusEntry(before[e - 1].hp + MissingGain(cat, ids, e),
                                     before[e - 1].attack + MissingGain(cat, ids, e)))
    && (forall j :: 5 <= j < |before| ==> after[j] == before[j])
  }

  /** Adding a character that is not on the roster under the catalog build
      raises its element's entry by `DefaultGain`. */
  lemma AddDefaultGain(cat: Catalog, base: seq<BonusEntry>, prev: Doc, ids: seq<nat>, key: nat, now: int)
    requires IsGameId(key) && key !in RosterIds(prev.chars)
    requires GainedBy(cat, base, prev.advEncyclo, ids)
    ensures GainedBy(cat, base, AfterAddChar(cat, prev, key, DefaultBuild, None, None, now, true).0.advEncyclo, ids + [key])
  {
    AfterAddCharInsert(cat, prev, key, DefaultBuild, None, None, now, true);
    var ids' := ids + [key];
    assert ids'[..|ids'| - 1] == ids;
  }

  /** The step of `AddMissingGains`: the pass on the `n`-th catalog id adds
      that id's gain exactly when it is missing. */
  lemma AddMissingGainStep(cat: Catalog, d0: Doc, prev: Doc, n: nat, present: set<nat>, now: int)
    requires WellFormed(cat) && 0 < n <= |cat.ids|
    requires RosterIds(d0.chars) <= present
    requires prev.chars == d0.chars + DefaultRecords(cat, MissingIds(cat, n - 1, present), now)
    requires GainedBy(cat, d0.advEncyclo, prev.advEncyclo, MissingIds(cat, n - 1, present))
    ensures GainedBy(cat, d0.advEncyclo, AddIfAbsent(cat, prev, cat.ids[n - 1], present, now).0.advEncyclo,
                     MissingIds(cat, n, present))
  {
    var key := cat.ids[n - 1];
    var miss := MissingIds(cat, n - 1, present);
    if key !in present && key != Sentinel {
      MissingIdsExclude(cat, n - 1, present, n - 1);
      NotOnExtendedRoster(d0.chars, cat, miss, now, key);
      AddDefaultGain(cat, d0.advEncyclo, prev, miss, key, now);
    } else {
      assert MissingIds(cat, n, present) == miss + [];
      assert miss + [] == miss;
    }
  }

  /** The catalog loop of `add_all_missing_chars` raises each element's
      entry by exactly 3 tenths per appended character of that element
      with a mana spiral and 2 per other one, in hp and in attack, and
      leaves every other entry alone. */
  lemma {:induction false} AddMissingGains(cat: Catalog, d0: Doc, n: nat, present: set<nat>, now: int)
    requires WellFormed(cat) && n <= |cat.ids| && |d0.advEncyclo| >= 5
    requires RosterIds(d0.chars) <= present
    ensures GainedBy(cat, d0.advEncyclo, AddMissingUpTo(cat, d0, n, present, now).0.advEncyclo,
                     MissingIds(cat, n, present))
  {
    if n > 0 {
      AddMissingGains(cat, d0, n - 1, present, now);
      AddMissingAppends(cat, d0, n - 1, present, now);
      AddMissingGainStep(cat, d0, AddMissingUpTo(cat, d0, n - 1, present, now).0, n, present, now);
    }
  }

  /** The story ids the catalog lists for `id`. */
  function CatalogStorySet(cat: Catalog, id: nat): set<int>
  {
    set x | x in StoryIdsFor(cat, id, None)
  }

  /** The catalog story ids of the characters `ids`. */
  function StoriesOfIds(cat: Catalog, ids: seq<nat>): set<int>
  {
    if ids == [] then {} else StoriesOfIds(cat, ids[..|ids| - 1]) + CatalogStorySet(cat, ids[|ids| - 1])
  }

  /** The catalog story ids of the catalogued characters among the first
      `n` records of `chars`. */
  function StoriesOfRoster(cat: Catalog, chars: seq<CharRecord>, n: nat): set<int>
    requires n <= |chars|
  {
    if n == 0 then {}
    else
      StoriesOfRoster(cat, chars, n - 1)
        + (if chars[n - 1].charaId in cat.stats then CatalogStorySet(cat, chars[n - 1].charaId) else {})
  }

  /** `after` is the ledger `before` followed by unread entries only, and
      the ids it holds are those of `before` and `added`. */
  predicate ExtendsLedger(before: seq<StoryEntry>, after: seq<StoryEntry>, added: set<int>)
  {
    && before <= after
    && LedgerIds(after) == LedgerIds(before) + added
    && (forall k :: |before| <= k < |after| ==> after[k].isRead == 0)
  }

  /** `_add_stories` extends the ledger by exactly the walked ids. */
  lemma WithStoriesExtends(ledger: seq<StoryEntry>, ids: seq<int>)
    ensures ExtendsLedger(ledger, WithStories(ledger, ids), set x | x in ids)
  {
    var present := LedgerIds(ledger);
    var entries := NewEntries(ids, present);
    NewEntriesExactly(ids, present);
    LedgerIdsAppend(ledger, entries);
    forall x | x in LedgerIds(entries)
      ensures x in ids
    {
      var k :| 0 <= k < |entries| && entries[k].unitStoryId == x;
    }
    forall x | x in ids
      ensures x in LedgerIds(ledger + entries)
    {
      if x !in present {
        assert x in LedgerIds(entries);
      }
    }
    assert LedgerIds(ledger + entries) == present + (set x | x in ids);
    var w := WithStories(ledger, ids);
    forall k | |ledger| <= k < |w|
      ensures w[k].isRead == 0
    {
      assert w[k] == NewEntries(ids, present)[k - |ledger|];
    }
  }

  lemma ExtendsLedgerTrans(a: seq<StoryEntry>, b: seq<StoryEntry>, c: seq<StoryEntry>, x: set<int>, y: set<int>)
    ensures ExtendsLedger(a, b, x) && ExtendsLedger(b, c, y) ==> ExtendsLedger(a, c, x + y)
  {
    if ExtendsLedger(a, b, x) && ExtendsLedger(b, c, y) {
      forall k | |a| <= k < |c|
        ensures c[k].isRead == 0
      {
        if k < |b| {
          assert c[k] == b[k];
        }
      }
    }
  }

  /** Adding a character under the catalog build, without a story list,
      walks the catalog's stories of the character whether it is new or
      owned. */
  lemma AddDefaultStories(cat: Catalog, d: Doc, id: nat, gettime: Option<int>, now: int)
    requires IsGameId(id) && |d.advEncyclo| >= 5
    ensures AfterAddChar(cat, d, id, DefaultBuild, None, gettime, now, true).0.stories
         == WithStories(d.stories, StoryIdsFor(cat, id, None))
  {
    match FindChar(d.chars, id)
    case Some(idx) => AfterAddCharRefresh(cat, d, id, DefaultBuild, None, gettime, now, true, idx);
    case None => AfterAddCharInsert(cat, d, id, DefaultBuild, None, gettime, now, true);
  }

  /** The step of `AddMissingStories`. */
  lemma AddMissingStoriesStep(cat: Catalog, d0: Doc, prev: Doc, n: nat, present: set<nat>, now: int)
    requires WellFormed(cat) && 0 < n <= |cat.ids| && |prev.advEncyclo| >= 5
    requires ExtendsLedger(d0.stories, prev.stories, StoriesOfIds(cat, MissingIds(cat, n - 1, present)))
    ensures ExtendsLedger(d0.stories, AddIfAbsent(cat, prev, cat.ids[n - 1], present, now).0.stories,
                          StoriesOfIds(cat, MissingIds(cat, n, present)))
  {
    var key := cat.ids[n - 1];
    var miss := MissingIds(cat, n - 1, present);
    if key !in present && key != Sentinel {
      AddDefaultStories(cat, prev, key, None, now);
      WithStoriesExtends(prev.stories, StoryIdsFor(cat, key, None));
      ExtendsLedgerTrans(d0.stories, prev.stories, WithStories(prev.stories, StoryIdsFor(cat, key, None)),
                         StoriesOfIds(cat, miss), CatalogStorySet(cat, key));
      assert (miss + [key])[..|miss|] == miss;
    } else {
      assert MissingIds(cat, n, present) == miss + [];
      assert miss + [] == miss;
    }
  }

  /** The catalog loop of `add_all_missing_chars` keeps the old ledger as a
      prefix, appends only unread entries, and afterwards the ledger holds
      exactly its old ids and the catalog stories of every appended
      character. */
  lemma {:induction false} AddMissingStories(cat: Catalog, d0: Doc, n: nat, present: set<nat>, now: int)
    requires WellFormed(cat) && n <= |cat.ids| && |d0.advEncyclo| >= 5
    ensures ExtendsLedger(d0.stories, AddMissingUpTo(cat, d0, n, present, now).0.stories,
                          StoriesOfIds(cat, MissingIds(cat, n, present)))
  {
    if n > 0 {
      AddMissingStories(cat, d0, n - 1, present, now);
      AddMissingStoriesStep(cat, d0, AddMissingUpTo(cat, d0, n - 1, present, now).0, n, present, now);
    } else {
      assert LedgerIds(d0.stories) + {} == LedgerIds(d0.stories);
    }
  }

  /** One pass of the roster loop of `max_all_current_chars` walks the
      catalog stories of the position's character when it is catalogued and
      leaves the ledger alone otherwise. */
  lemma MaxCurrentStoriesStep(cat: Catalog, d0: Doc, n: nat)
    requires WellFormed(cat) && |d0.advEncyclo| >= 5 && 0 < n <= |d0.chars|
    ensures ExtendsLedger(MaxCurrentUpTo(cat, d0, n - 1).stories, MaxCurrentUpTo(cat, d0, n).stories,
                          if d0.chars[n - 1].charaId in cat.stats then CatalogStorySet(cat, d0.chars[n - 1].charaId) else {})
  {
    MaxCurrentStep(cat, d0, n - 1);
    var prev := MaxCurrentUpTo(cat, d0, n - 1);
    var id := prev.chars[n - 1].charaId;
    if id in cat.stats {
      AddDefaultStories(cat, prev, id, Some(prev.chars[n - 1].gettime), 0);
      WithStoriesExtends(prev.stories, StoryIdsFor(cat, id, None));
    } else {
      assert LedgerIds(prev.stories) + {} == LedgerIds(prev.stories);
    }
  }

  /** The roster loop of `max_all_current_chars` keeps the old ledger as a
      prefix, appends only unread entries, and afterwards the ledger holds
      exactly its old ids and the catalog stories of every catalogued
      character it has passed. */
  lemma {:induction false} MaxCurrentStories(cat: Catalog, d0: Doc, n: nat)
    requires WellFormed(cat) && |d0.advEncyclo| >= 5 && n <= |d0.chars|
    ensures ExtendsLedger(d0.stories, MaxCurrentUpTo(cat, d0, n).stories, StoriesOfRoster(cat, d0.chars, n))
  {
    if n > 0 {
      MaxCurrentStories(cat, d0, n - 1);
      MaxCurrentStoriesStep(cat, d0, n);
      var id := d0.chars[n - 1].charaId;
      ExtendsLedgerTrans(d0.stories, MaxCurrentUpTo(cat, d0, n - 1).stories, MaxCurrentUpTo(cat, d0, n).stories,
                         StoriesOfRoster(cat, d0.chars, n - 1),
                         if id in cat.stats then CatalogStorySet(cat, id) else {});
    } else {
      assert LedgerIds(d0.stories) + {} == LedgerIds(d0.stories);
    }
  }

  /** Rosters with the same ids position by position have the same id set. */
  lemma SameIdsSameRoster(a: seq<CharRecord>, b: seq<CharRecord>)
    requires |a| == |b| && forall j :: 0 <= j < |a| ==> a[j].charaId == b[j].charaId
    ensures RosterIds(a) == RosterIds(b)
  {
    forall x | x in RosterIds(a) ensures x in RosterIds(b) {
      var j :| 0 <= j < |a| && a[j].charaId == x;
      assert b[j].charaId == x;
    }
    forall x | x in RosterIds(b) ensures x in RosterIds(a) {
      var j :| 0 <= j < |b| && b[j].charaId == x;
      assert a[j].charaId == x;
    }
  }

  /** Which of the two accruals happens, and by how much: the hp bonus is
      paid exactly when the level changed and the attack bonus exactly when
      the mana circle's size changed; each is two tenths when the old value
      was below the non-spiral cap (level 80, 50 pieces) and the new record
      has a spiral, else one tenth. */
  lemma RefreshDeltaCases(oldLevel: int, oldMc: nat, rec: CharRecord)
    ensures var (dHp, dAtk) := RefreshDelta(oldLevel, oldMc, rec);
            && (dHp == 0 <==> rec.level == oldLevel)
            && (dHp == 2 <==> rec.level != oldLevel && oldLevel < 80 && rec.level == 100)
            && (dAtk == 0 <==> |rec.manaCirclePieceIdList| == oldMc)
            && (dAtk == 2 <==> |rec.manaCirclePieceIdList| != oldMc && oldMc < 50 && rec.level == 100)
            && 0 <= dHp <= 2 && 0 <= dAtk <= 2
  {
  }

  /** The bonus helper as written never stores anything for an element
      code: the two-argument `math.fsum` call raises first. The intended
      addition, which the rest of the model uses, raises the entry. */
  lemma FsumCallRaises(table: seq<BonusEntry>, elem: int, dHp: int, dAtk: int)
    requires |table| >= 5 && 1 <= elem <= 5
    ensures AccrueAsWritten(table, elem, dHp, dAtk).Err?
    ensures Accrue(table, elem, dHp, dAtk)[elem - 1].hp == table[elem - 1].hp + dHp
    ensures Accrue(table, elem, dHp, dAtk)[elem - 1].attack == table[elem - 1].attack + dAtk
  {
  }
}
