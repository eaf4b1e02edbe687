/** The character-list filter of DragaliaSaveEditorInterface
    (dragalia_save_editor_interface.py): the element and weapon filters
    that `_set_character_filter` builds from two comma-separated lines the
    user types, and the test `_view_characters` applies to each record.
    Only the two filter fields of the interface object are modelled; the
    prompts, the printing and the reading of the lines are not. */
module CharacterFilter {
  import opened Decimal
  import opened Text
  import opened SaveModel

  /** The keys of `ELEMENT`. */
  const ElementNames: set<string> := {"FLAME", "WATER", "WIND", "LIGHT", "SHADOW"}

  /** The keys of `WEAPON`; `GUN` is another name for `MANACASTER`. */
  const WeaponNames: set<string> :=
    {"SWORD", "BLADE", "DAGGER", "AXE", "LANCE", "BOW", "WAND", "STAFF", "MANACASTER", "GUN"}

  /** The weapon names a filter can hold once `GUN` is read as
      `MANACASTER`. */
  const CanonicalWeapons: set<string> :=
    {"SWORD", "BLADE", "DAGGER", "AXE", "LANCE", "BOW", "WAND", "STAFF", "MANACASTER"}

  /** `ELEMENT_INVERSE`: element digit to display name. */
  const ElementInverse: map<char, string> :=
    map['1' := "Flame", '2' := "Water", '3' := "Wind", '4' := "Light", '5' := "Shadow"]

  /** `WEAPON_INVERSE`: weapon digit to display name. */
  const WeaponInverse: map<char, string> :=
    map['1' := "Sword", '2' := "Blade", '3' := "Dagger", '4' := "Axe", '5' := "Lance",
        '6' := "Bow", '7' := "Wand", '8' := "Staff", '9' := "Manacaster"]

  /** A typed name as the filter reads it: `name.strip().upper()`. */
  function Token(t: string): string
  {
    Upper(Strip(t))
  }

  function CanonicalWeapon(w: string): string
  {
    if w == "GUN" then "MANACASTER" else w
  }

  /** The elements the pieces of a line name, before the collapse of a
      full selection. */
  function NamedElements(toks: seq<string>): set<string>
  {
    set k | 0 <= k < |toks| && Token(toks[k]) in ElementNames :: Token(toks[k])
  }

  /** The weapons the pieces of a line name, `GUN` read as `MANACASTER`. */
  function NamedWeapons(toks: seq<string>): set<string>
  {
    set k | 0 <= k < |toks| && Token(toks[k]) in WeaponNames :: CanonicalWeapon(Token(toks[k]))
  }

  /** The element filter `_set_character_filter` leaves for a typed line. */
  function ElementFilterOf(line: string): set<string>
  {
    var f := if Strip(line) == "" then {} else NamedElements(Split(line, ','));
    if |f| == 5 then {} else f
  }

  /** The weapon filter `_set_character_filter` leaves for a typed line. */
  function WeaponFilterOf(line: string): set<string>
  {
    var f := if Strip(line) == "" then {} else NamedWeapons(Split(line, ','));
    if |f| == 9 then {} else f
  }

  /** Character `k` of `str(id)`. */
  function IdChar(id: nat, k: nat): char
    requires IsGameId(id) && k <= 5
  {
    StrMinLength(id, 5);
    Str(id)[k]
  }

  /** The element half of the test in `_view_characters`: no filter, or
      the element named by digit 5 of the id is in it. */
  predicate ElementPasses(id: nat, elemFilter: set<string>)
    requires IsGameId(id)
  {
    var d := IdChar(id, 5);
    |elemFilter| == 0 || (d in ElementInverse && Upper(ElementInverse[d]) in elemFilter)
  }

  /** The weapon half: no filter, or the weapon named by digit 2 of the id
      is in it. */
  predicate WeaponPasses(id: nat, weaponFilter: set<string>)
    requires IsGameId(id)
  {
    var d := IdChar(id, 2);
    |weaponFilter| == 0 || (d in WeaponInverse && Upper(WeaponInverse[d]) in weaponFilter)
  }

  /** Whether `_view_characters` lists the record of `id`. */
  predicate Passes(id: nat, elemFilter: set<string>, weaponFilter: set<string>)
    requires IsGameId(id)
  {
    ElementPasses(id, elemFilter) && WeaponPasses(id, weaponFilter)
  }

  /** The interface object, reduced to its two filter fields. */
  class DragaliaSaveEditorInterface {
    var charElemFilter: set<string>
    var charWeaponFilter: set<string>

    /** `__init__`: no filter. */
    constructor ()
      ensures charElemFilter == {} && charWeaponFilter == {}
    {
      charElemFilter := {};
      charWeaponFilter := {};
    }

    /** The test `_view_characters` applies to each record. */
    predicate Shows(id: nat)
      requires IsGameId(id)
      reads this
    {
      Passes(id, charElemFilter, charWeaponFilter)
    }

    /** `_set_character_filter`, given the two lines the user types: both
        filters are cleared, then each is rebuilt from its line. */
    method SetCharacterFilter(elemLine: string, weaponLine: string)
      modifies this
      ensures charElemFilter == ElementFilterOf(elemLine)
      ensures charWeaponFilter == WeaponFilterOf(weaponLine)
    {
      charElemFilter := {};
      charWeaponFilter := {};
      SetElementFilter(elemLine);
      SetWeaponFilter(weaponLine);
    }

    /** The element half of `_set_character_filter`. */
    method SetElementFilter(line: string)
      modifies this
      ensures charElemFilter == ElementFilterOf(line)
      ensures charWeaponFilter == old(charWeaponFilter)
    {
      var elements := Split(line, ',');
      if Strip(line) == "" {
        charElemFilter := {};
      } else {
        charElemFilter := {};
        for i := 0 to |elements|
          invariant charElemFilter == NamedElements(elements[..i])
          invariant charWeaponFilter == old(charWeaponFilter)
        {
          var elem := Token(elements[i]);
          if elem in ElementNames {
            charElemFilter := charElemFilter + {elem};
          }
          NamedElementsSnoc(elements, i);
        }
        assert elements[..|elements|] == elements;
      }
      if |charElemFilter| == 5 {
        charElemFilter := {};
      }
    }

    /** The weapon half of `_set_character_filter`. */
    method SetWeaponFilter(line: string)
      modifies this
      ensures charWeaponFilter == WeaponFilterOf(line)
      ensures charElemFilter == old(charElemFilter)
    {
      var weapons := Split(line, ',');
      if Strip(line) == "" {
        charWeaponFilter := {};
      } else {
        charWeaponFilter := {};
        for i := 0 to |weapons|
          invariant charWeaponFilter == NamedWeapons(weapons[..i])
          invariant charElemFilter == old(charElemFilter)
        {
          var weapon := Token(weapons[i]);
          if weapon in WeaponNames {
            if weapon == "GUN" {
              charWeaponFilter := charWeaponFilter + {"MANACASTER"};
            } else {
              charWeaponFilter := charWeaponFilter + {weapon};
            }
          }
          NamedWeaponsSnoc(weapons, i);
        }
        assert weapons[..|weapons|] == weapons;
      }
      if |charWeaponFilter| == 9 {
        charWeaponFilter := {};
      }
    }
  }

  lemma NamedElementsSnoc(toks: seq<string>, i: nat)
    requires i < |toks|
    ensures NamedElements(toks[..i + 1])
            == NamedElements(toks[..i]) + (if Token(toks[i]) in ElementNames then {Token(toks[i])} else {})
  {
    var a, b := toks[..i + 1], toks[..i];
    assert forall k :: 0 <= k < i ==> a[k] == b[k];
  }

  lemma NamedWeaponsSnoc(toks: seq<string>, i: nat)
    requires i < |toks|
    ensures NamedWeapons(toks[..i + 1])
            == NamedWeapons(toks[..i]) + (if Token(toks[i]) in WeaponNames then {CanonicalWeapon(Token(toks[i]))} else {})
  {
    var a, b := toks[..i + 1], toks[..i];
    assert forall k :: 0 <= k < i ==> a[k] == b[k];
  }
  lemma {:induction false} SubsetCard<T>(a: set<T>, b: set<T>)
    requires a <= b
    ensures |a| <= |b|
    ensures |a| == |b| ==> a == b
    decreases b
  {
    if a != {} {
      var x :| x in a;
      SubsetCard(a - {x}, b - {x});
      assert a == (a - {x}) + {x};
      assert b == (b - {x}) + {x};
    } else if b != {} {
      var y :| y in b;
      assert |b| >= 1 by { assert {y} <= b; assert b == (b - {y}) + {y}; }
    }
  }

  lemma ElementNamesCount()
    ensures |ElementNames| == 5
  {
  }

  lemma CanonicalWeaponsCount()
    ensures |CanonicalWeapons| == 9
  {
  }

  /** Every element digit names an element the filter can hold. */
  lemma ElementInverseNames(d: char)
    requires d in ElementInverse
    ensures Upper(ElementInverse[d]) in ElementNames
  {
    assert Upper("Flame") == "FLAME";
    assert Upper("Water") == "WATER";
    assert Upper("Wind") == "WIND";
    assert Upper("Light") == "LIGHT";
    assert Upper("Shadow") == "SHADOW";
  }

  /** Every weapon digit names a weapon the filter can hold. */
  lemma WeaponInverseNames(d: char)
    requires d in WeaponInverse
    ensures Upper(WeaponInverse[d]) in CanonicalWeapons
  {
    assert Upper("Sword") == "SWORD";
    assert Upper("Blade") == "BLADE";
    assert Upper("Dagger") == "DAGGER";
    assert Upper("Axe") == "AXE";
    assert Upper("Lance") == "LANCE";
    assert Upper("Bow") == "BOW";
    assert Upper("Wand") == "WAND";
    assert Upper("Staff") == "STAFF";
    assert Upper("Manacaster") == "MANACASTER";
  }

  /** A line of only whitespace names nothing, so the `strip() == ''`
      branch gives the same filter the loop would. */
  lemma BlankLineNamesNothing(line: string)
    requires Strip(line) == ""
    ensures NamedElements(Split(line, ',')) == {}
    ensures NamedWeapons(Split(line, ',')) == {}
  {
    StripBlank(line);
    SplitBlank(line, ',');
    var toks := Split(line, ',');
    forall k | 0 <= k < |toks|
      ensures Token(toks[k]) == ""
    {
      StripBlank(toks[k]);
    }
  }

  /** The element filter holds only element names and is never the full
      set: choosing all five is stored as no filter. */
  lemma ElementFilterShape(line: string)
    ensures ElementFilterOf(line) <= ElementNames
    ensures |ElementFilterOf(line)| < 5
    ensures ElementFilterOf(line) == {} <==>
              NamedElements(Split(line, ',')) == {} || NamedElements(Split(line, ',')) == ElementNames
  {
    var named := NamedElements(Split(line, ','));
    ElementNamesCount();
    SubsetCard(named, ElementNames);
    if Strip(line) == "" {
      BlankLineNamesNothing(line);
    }
  }

  /** The weapon filter holds only weapon names, never `GUN`, and is never
      the full set. */
  lemma WeaponFilterShape(line: string)
    ensures WeaponFilterOf(line) <= CanonicalWeapons
    ensures "GUN" !in WeaponFilterOf(line)
    ensures |WeaponFilterOf(line)| < 9
    ensures WeaponFilterOf(line) == {} <==>
              NamedWeapons(Split(line, ',')) == {} || NamedWeapons(Split(line, ',')) == CanonicalWeapons
  {
    var named := NamedWeapons(Split(line, ','));
    assert named <= CanonicalWeapons;
    CanonicalWeaponsCount();
    SubsetCard(named, CanonicalWeapons);
    if Strip(line) == "" {
      BlankLineNamesNothing(line);
    }
  }

  /** Typing `gun` selects the same weapon as typing `manacaster`. */
  lemma GunSelectsManacaster(toks: seq<string>)
    ensures "MANACASTER" in NamedWeapons(toks) <==>
              exists k :: 0 <= k < |toks| && (Token(toks[k]) == "GUN" || Token(toks[k]) == "MANACASTER")
  {
    if "MANACASTER" in NamedWeapons(toks) {
      var k :| 0 <= k < |toks| && Token(toks[k]) in WeaponNames && CanonicalWeapon(Token(toks[k])) == "MANACASTER";
    }
  }

  /** End to end for elements: after `_set_character_filter`, a record is
      listed for its element exactly when the line named no element, named
      all five, or named the record's own element (in any letter case and
      with any surrounding whitespace). */
  lemma ElementSelection(id: nat, line: string)
    requires IsGameId(id)
    ensures ElementPasses(id, ElementFilterOf(line)) <==>
              || NamedElements(Split(line, ',')) == {}
              || NamedElements(Split(line, ',')) == ElementNames
              || (IdChar(id, 5) in ElementInverse
                  && Upper(ElementInverse[IdChar(id, 5)]) in NamedElements(Split(line, ',')))
  {
    ElementFilterShape(line);
    var d := IdChar(id, 5);
    if d in ElementInverse {
      ElementInverseNames(d);
    }
    if Strip(line) == "" {
      BlankLineNamesNothing(line);
    }
  }

  /** End to end for weapons, `GUN` read as `MANACASTER`. */
  lemma WeaponSelection(id: nat, line: string)
    requires IsGameId(id)
    ensures WeaponPasses(id, WeaponFilterOf(line)) <==>
              || NamedWeapons(Split(line, ',')) == {}
              || NamedWeapons(Split(line, ',')) == CanonicalWeapons
              || (IdChar(id, 2) in WeaponInverse
                  && Upper(WeaponInverse[IdChar(id, 2)]) in NamedWeapons(Split(line, ',')))
  {
    WeaponFilterShape(line);
    var d := IdChar(id, 2);
    if d in WeaponInverse {
      WeaponInverseNames(d);
    }
    if Strip(line) == "" {
      BlankLineNamesNothing(line);
    }
  }

  /** Why the full set may be stored as no filter: for an id whose digit
      names an element, the full element set lists it just as no filter
      does (and likewise for weapons). */
  lemma FullSelectionSameAsNone(id: nat)
    requires IsGameId(id)
    ensures IdChar(id, 5) in ElementInverse ==> ElementPasses(id, ElementNames) == ElementPasses(id, {})
    ensures IdChar(id, 2) in WeaponInverse ==> WeaponPasses(id, CanonicalWeapons) == WeaponPasses(id, {})
  {
    if IdChar(id, 5) in ElementInverse {
      ElementInverseNames(IdChar(id, 5));
    }
    if IdChar(id, 2) in WeaponInverse {
      WeaponInverseNames(IdChar(id, 2));
    }
  }
}
