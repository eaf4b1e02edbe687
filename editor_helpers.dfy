/** The helpers of dragalia_save_editor_interface.py that compute rather
    than converse: thousands separators for display, the sort key for the
    character list, name capitalisation, profile lookups with a default,
    and the clamp applied to currencies before they are stored. Prompts,
    retry loops and printing are not modelled. */
module EditorHelpers {
  import opened Decimal
  import opened Text
  import opened SaveModel
  import opened JsonHandling

  // ---------------------------------------------------- thousands separators

  /** The digit groups of a numeral, from the left: the last groups have
      three characters each and the first has one to three. */
  function Chunks(s: string): (r: seq<string>)
    ensures |r| >= 1
    decreases |s|
  {
    if |s| <= 3 then [s] else Chunks(s[..|s| - 3]) + [s[|s| - 3..]]
  }

  /** `s` with a comma before every position that has a multiple of three
      characters after it, except position 0. */
  function Grouped(s: string): string
  {
    Join(Chunks(s), ',')
  }

  /** `t` with a comma before every position that has a multiple of three
      characters after it, position 0 included. */
  function Tail3(t: string): string
    decreases |t|
  {
    if |t| < 3 then t else Tail3(t[..|t| - 3]) + [','] + t[|t| - 3..]
  }

  lemma {:induction false} Tail3Cons(c: char, t: string)
    ensures Tail3([c] + t) == (if (|t| + 1) % 3 == 0 then [','] else []) + [c] + Tail3(t)
    decreases |t|
  {
    var u := [c] + t;
    if |u| < 3 {
      assert Tail3(u) == u && Tail3(t) == t;
    } else if |u| == 3 {
      assert u[..0] == [] && u[0..] == u;
      assert Tail3(u) == [','] + u;
      assert Tail3(t) == t;
    } else {
      var t' := t[..|t| - 3];
      var last := t[|t| - 3..];
      assert u[..|u| - 3] == [c] + t';
      assert u[|u| - 3..] == last;
      assert Tail3(u) == Tail3([c] + t') + [','] + last;
      assert Tail3(t) == Tail3(t') + [','] + last;
      Tail3Cons(c, t');
      assert (|t'| + 1) % 3 == (|t| + 1) % 3;
    }
  }

  lemma {:induction false} GroupedTail(s: string)
    requires |s| >= 1
    ensures s[..1] + Tail3(s[1..]) == Grouped(s)
    decreases |s|
  {
    if |s| <= 3 {
      assert s[..1] + s[1..] == s;
    } else {
      var p := s[..|s| - 3];
      GroupedTail(p);
      assert s[1..][..|s| - 4] == p[1..];
      assert s[1..][|s| - 4..] == s[|s| - 3..];
      assert p[..1] == s[..1];
      JoinSnoc(Chunks(p), s[|s| - 3..], ',');
    }
  }

  /** One pass of the loop of `_pretty_print` at position `i`: whether or
      not it inserts a comma, the part from `i` on is grouped. */
  lemma InsertStep(s: string, i: nat, output: string)
    requires 1 <= i < |s| && output == s[..i + 1] + Tail3(s[i + 1..])
    ensures (|s| - i) % 3 == 0 ==> output[..i] + [','] + output[i..] == s[..i] + Tail3(s[i..])
    ensures (|s| - i) % 3 != 0 ==> output == s[..i] + Tail3(s[i..])
  {
    var p, c, t := s[..i], s[i], s[i + 1..];
    var q := [c] + Tail3(t);
    assert s[..i + 1] == p + [c];
    assert output == p + q;
    assert s[i..] == [c] + t;
    Tail3Cons(c, t);
    SplitAt(p, q);
  }

  lemma SplitAt(p: string, q: string)
    ensures (p + q)[..|p|] == p && (p + q)[|p|..] == q
  {
  }

  /** `_pretty_print(num)`: the loop walks the positions of `str(num)` from
      the right and inserts a comma wherever the number of characters to
      the right is a multiple of three. */
  method PrettyPrint(num: int) returns (output: string)
    ensures output == Grouped(PyStr(num))
  {
    ghost var s := PyStr(num);
    output := PyStr(num);
    var length := |output|;
    var i := length - 1;
    while i > 0
      invariant 0 <= i < length == |s|
      invariant output == s[..i + 1] + Tail3(s[i + 1..])
      decreases i
    {
      InsertStep(s, i, output);
      if (length - i) % 3 == 0 {
        output := output[..i] + [','] + output[i..];
      }
      i := i - 1;
    }
    GroupedTail(s);
  }

  lemma {:induction false} ChunksShape(s: string)
    requires |s| >= 1
    ensures 1 <= |Chunks(s)[0]| <= 3
    ensures forall k :: 1 <= k < |Chunks(s)| ==> |Chunks(s)[k]| == 3
    ensures |Chunks(s)| == (|s| + 2) / 3
    ensures forall k, c :: 0 <= k < |Chunks(s)| && c in Chunks(s)[k] ==> c in s
    decreases |s|
  {
    if |s| > 3 {
      var p := s[..|s| - 3];
      ChunksShape(p);
      forall k, c | 0 <= k < |Chunks(s)| && c in Chunks(s)[k]
        ensures c in s
      {
        if k < |Chunks(p)| {
          assert c in Chunks(p)[k];
          assert c in p;
        } else {
          assert c in s[|s| - 3..];
        }
      }
    }
  }

  /** The comma-separated groups of a grouped numeral are its chunks. */
  lemma GroupedSplit(s: string)
    requires |s| >= 1 && ',' !in s
    ensures Split(Grouped(s), ',') == Chunks(s)
  {
    ChunksShape(s);
    SplitJoin(Chunks(s), ',');
  }

  /** Grouping a numeral of more than three characters: the grouping of
      all but the last three, a comma, then the last three. */
  lemma GroupedSnoc(s: string)
    requires |s| > 3
    ensures Grouped(s) == Grouped(s[..|s| - 3]) + [','] + s[|s| - 3..]
  {
    JoinSnoc(Chunks(s[..|s| - 3]), s[|s| - 3..], ',');
  }

  lemma AbsentFromParts(s: string, k: nat, c: char)
    requires k <= |s| && c !in s
    ensures c !in s[..k] && c !in s[k..]
  {
    assert forall i :: 0 <= i < k ==> s[..k][i] == s[i];
    assert forall i :: 0 <= i < |s| - k ==> s[k..][i] == s[k + i];
  }

  lemma {:induction false} GroupedRemove(s: string)
    requires ',' !in s
    ensures Remove(Grouped(s), ',') == s
    decreases |s|
  {
    if |s| <= 3 {
      RemoveAbsent(s, ',');
    } else {
      var p := s[..|s| - 3];
      var q := s[|s| - 3..];
      AbsentFromParts(s, |s| - 3, ',');
      var g := Grouped(p);
      calc {
        Remove(Grouped(s), ',');
        { GroupedSnoc(s); }
        Remove(g + [','] + q, ',');
        { RemoveAppend(g + [','], q, ','); }
        Remove(g + [','], ',') + Remove(q, ',');
        { RemoveAppend(g, [','], ','); RemoveAbsent(q, ','); }
        Remove(g, ',') + Remove([','], ',') + q;
        { GroupedRemove(p); assert Remove([','], ',') == []; }
        p + q;
        s;
      }
    }
  }

  lemma {:induction false} GroupedCount(s: string)
    requires ',' !in s
    ensures Count(Grouped(s), ',') == |Chunks(s)| - 1
    decreases |s|
  {
    if |s| <= 3 {
      CountZero(s, ',');
    } else {
      var p := s[..|s| - 3];
      var q := s[|s| - 3..];
      AbsentFromParts(s, |s| - 3, ',');
      GroupedCount(p);
      GroupedSnoc(s);
      CountAppend(Grouped(p) + [','], q, ',');
      CountAppend(Grouped(p), [','], ',');
      CountZero(q, ',');
    }
  }

  /** What `_pretty_print` promises: for every number, deleting the commas
      gives `str(num)` back and there are `(len - 1) / 3` of them; for a
      non-negative number the groups they separate are one to three digits
      followed by groups of exactly three. */
  lemma PrettyPrintGroups(num: int)
    ensures Remove(Grouped(PyStr(num)), ',') == PyStr(num)
    ensures Count(Grouped(PyStr(num)), ',') == (|PyStr(num)| - 1) / 3
    ensures num >= 0 ==>
            var g := Split(Grouped(PyStr(num)), ',');
            && 1 <= |g[0]| <= 3 && AllDigits(g[0])
            && (forall k :: 1 <= k < |g| ==> |g[k]| == 3 && AllDigits(g[k]))
  {
    var s := PyStr(num);
    var m: nat := if num < 0 then -num else num;
    assert forall i :: 0 <= i < |Str(m)| ==> IsDigit(Str(m)[i]);
    if num < 0 {
      assert s == "-" + Str(m);
      assert forall i :: 1 <= i < |s| ==> s[i] == Str(m)[i - 1];
    }
    assert ',' !in s;
    GroupedRemove(s);
    GroupedCount(s);
    ChunksShape(s);
    if num >= 0 {
      GroupedSplit(s);
      var g := Chunks(s);
      forall k, i | 0 <= k < |g| && 0 <= i < |g[k]|
        ensures IsDigit(g[k][i])
      {
        assert g[k][i] in g[k];
        assert g[k][i] in s;
        var j :| 0 <= j < |s| && s[j] == g[k][i];
      }
    }
  }

  /** As written, a negative number whose digit count is a multiple of
      three gets a comma straight after its minus sign. */
  lemma NegativeStrayComma()
    ensures Grouped(PyStr(-123)) == "-,123"
    ensures Split(Grouped(PyStr(-123)), ',')[0] == "-"
  {
    assert Str(1) == "1";
    assert Str(12) == Str(1) + [DigitChar(2)];
    assert Str(123) == Str(12) + [DigitChar(3)];
    var s := PyStr(-123);
    assert s == "-123";
    assert s[..1] == "-" && s[1..] == "123";
    assert Chunks(s) == ["-", "123"];
    assert Grouped(s) == "-" + [','] + "123";
    assert Split("123", ',') == ["123"] by { SplitNoSep("123", ','); }
    SplitSepAppend("-", ',', "123");
  }

  /** The grouping evidently intended: the digits are grouped and a minus
      sign stays in front of them. */
  function PrettyPrintSigned(num: int): string
  {
    if num < 0 then "-" + Grouped(Str(-num)) else Grouped(Str(num))
  }

  /** For every number, the intended grouping drops back to `str(num)`
      without its commas, its first group ends with a digit and every
      later group is exactly three digits. */
  lemma PrettyPrintSignedGroups(num: int)
    ensures Remove(PrettyPrintSigned(num), ',') == PyStr(num)
    ensures var g := Split(PrettyPrintSigned(num), ',');
            && |g[0]| >= 1 && IsDigit(g[0][|g[0]| - 1])
            && (forall k :: 1 <= k < |g| ==> |g[k]| == 3 && AllDigits(g[k]))
  {
    var m: nat := if num < 0 then -num else num;
    PrettyPrintGroups(m);
    var G := Grouped(Str(m));
    var g := Split(G, ',');
    if num < 0 {
      assert PrettyPrintSigned(num) == "-" + G;
      RemoveAppend("-", G, ',');
      assert Remove("-", ',') == "-";
      assert Split("-" + G, ',') == [['-'] + g[0]] + g[1..] by {
        if G == [] {
          assert g == [""];
        } else {
          assert ("-" + G)[1..] == G;
        }
      }
    }
  }

  // ------------------------------------------------------- character sort key

  /** Digit `k` (0-based) of `str(id)`: 2 is the weapon, 3 the rarity, 5
      the element. */
  function IdDigit(id: nat, k: nat): (d: nat)
    requires IsGameId(id) && k <= 5
    ensures d < 10
  {
    StrMinLength(id, 5);
    DigitValue(Str(id)[k])
  }

  /** `_restructure_id(char_id)`: element digit, weapon digit, then
      `str(5 - rarity)`, then the digits after the element. */
  function RestructureId(id: nat): string
    requires IsGameId(id)
  {
    StrMinLength(id, 5);
    var s := Str(id);
    [s[5], s[2]] + PyStr(5 - DigitValue(s[3])) + s[6..]
  }

  /** The key `int(_restructure_id(...))` that sorts the character list;
      `int()` raises (`None`) when the rarity digit is above 5, as the
      middle part is then negative. */
  function SortKey(id: nat): Option<nat>
    requires IsGameId(id)
  {
    var r := RestructureId(id);
    if AllDigits(r) then Some(Int(r)) else None
  }

  /** For a rarity digit up to 5 the key is a numeral three digits shorter
      than the id: element, weapon, `5 - rarity`, and the id's last
      digits. Above 5 the key cannot be read as a number. */
  lemma RestructureIdShape(id: nat)
    requires IsGameId(id)
    ensures var s := Str(id); var r := RestructureId(id);
            && (IdDigit(id, 3) <= 5 ==>
                  && |r| == |s| - 3 && AllDigits(r)
                  && r[0] == s[5] && r[1] == s[2] && DigitValue(r[2]) == 5 - IdDigit(id, 3)
                  && r[3..] == s[6..])
            && (IdDigit(id, 3) > 5 ==> r[2] == '-')
    ensures SortKey(id).Some? <==> IdDigit(id, 3) <= 5
  {
    StrMinLength(id, 5);
    var s := Str(id);
    var r := RestructureId(id);
    var d := DigitValue(s[3]);
    if d <= 5 {
      assert PyStr(5 - d) == [DigitChar(5 - d)];
      assert r == [s[5], s[2], DigitChar(5 - d)] + s[6..];
      assert forall i :: 0 <= i < |s| ==> IsDigit(s[i]);
      forall i | 0 <= i < |r|
        ensures IsDigit(r[i])
      {
        if i >= 3 {
          assert r[i] == s[i + 3];
        }
      }
    } else {
      assert r[2] == '-';
    }
  }

  /** Sorting by the key, ids of equal length come out by element digit,
      then by weapon digit, then by rarity from highest to lowest. */
  lemma SortKeyOrder(a: nat, b: nat)
    requires IsGameId(a) && IsGameId(b) && |Str(a)| == |Str(b)|
    requires IdDigit(a, 3) <= 5 && IdDigit(b, 3) <= 5
    ensures SortKey(a).Some? && SortKey(b).Some?
    ensures IdDigit(a, 5) < IdDigit(b, 5) ==> SortKey(a).value < SortKey(b).value
    ensures IdDigit(a, 5) == IdDigit(b, 5) && IdDigit(a, 2) < IdDigit(b, 2) ==>
              SortKey(a).value < SortKey(b).value
    ensures IdDigit(a, 5) == IdDigit(b, 5) && IdDigit(a, 2) == IdDigit(b, 2) && IdDigit(a, 3) > IdDigit(b, 3) ==>
              SortKey(a).value < SortKey(b).value
  {
    RestructureIdShape(a);
    RestructureIdShape(b);
    if IdDigit(a, 5) < IdDigit(b, 5) {
      KeyOrderAt(a, b, 0);
    } else if IdDigit(a, 5) == IdDigit(b, 5) && IdDigit(a, 2) < IdDigit(b, 2) {
      KeyOrderAt(a, b, 1);
    } else if IdDigit(a, 5) == IdDigit(b, 5) && IdDigit(a, 2) == IdDigit(b, 2) && IdDigit(a, 3) > IdDigit(b, 3) {
      KeyOrderAt(a, b, 2);
    }
  }

  /** Two keys that agree before position `k` of the restructured id and
      differ there are ordered by that position. */
  lemma KeyOrderAt(a: nat, b: nat, k: nat)
    requires IsGameId(a) && IsGameId(b) && |Str(a)| == |Str(b)|
    requires IdDigit(a, 3) <= 5 && IdDigit(b, 3) <= 5 && k <= 2
    requires k >= 1 ==> IdDigit(a, 5) == IdDigit(b, 5)
    requires k >= 2 ==> IdDigit(a, 2) == IdDigit(b, 2)
    requires k == 0 ==> IdDigit(a, 5) < IdDigit(b, 5)
    requires k == 1 ==> IdDigit(a, 2) < IdDigit(b, 2)
    requires k == 2 ==> IdDigit(a, 3) > IdDigit(b, 3)
    ensures SortKey(a).Some? && SortKey(b).Some? && SortKey(a).value < SortKey(b).value
  {
    KeyDigits(a);
    KeyDigits(b);
    DigitsOrder(RestructureId(a), RestructureId(b), k);
  }

  /** The first three digits of a readable key, as digit values. */
  lemma KeyDigits(id: nat)
    requires IsGameId(id) && IdDigit(id, 3) <= 5
    ensures AllDigits(RestructureId(id)) && |RestructureId(id)| == |Str(id)| - 3 >= 3
    ensures SortKey(id) == Some(Int(RestructureId(id)))
    ensures DigitValue(RestructureId(id)[0]) == IdDigit(id, 5)
    ensures DigitValue(RestructureId(id)[1]) == IdDigit(id, 2)
    ensures DigitValue(RestructureId(id)[2]) == 5 - IdDigit(id, 3)
  {
    RestructureIdShape(id);
    StrMinLength(id, 5);
  }

  /** Numerals of equal length whose first `k` digits agree are ordered by
      digit `k`. */
  lemma DigitsOrder(x: string, y: string, k: nat)
    requires AllDigits(x) && AllDigits(y) && |x| == |y| > k
    requires forall i :: 0 <= i < k ==> DigitValue(x[i]) == DigitValue(y[i])
    requires DigitValue(x[k]) < DigitValue(y[k])
    ensures Int(x) < Int(y)
  {
    assert x[..k] == y[..k] by {
      forall i | 0 <= i < k
        ensures x[i] == y[i]
      {
        assert DigitValue(x[i]) == DigitValue(y[i]);
      }
    }
    PrefixOrder(x, y, k);
  }

  /** Numerals of equal length that agree on their first `k` digits are
      ordered by digit `k`. */
  lemma PrefixOrder(x: string, y: string, k: nat)
    requires AllDigits(x) && AllDigits(y) && |x| == |y| > k
    requires x[..k] == y[..k] && DigitValue(x[k]) < DigitValue(y[k])
    ensures Int(x) < Int(y)
  {
    var p := x[..k];
    NumericOrderFromDigit(p, x[k..], y[k..]);
    assert p + x[k..] == x && p + y[k..] == y;
  }

  // ------------------------------------------------------- profile lookups

  /** `_return_if_exists(field, data)`: the stored value, or 0. */
  function ReturnIfExists(field: string, data: map<string, Value>): (r: Value)
    ensures field in data ==> r == data[field]
    ensures field !in data ==> r == IntVal(0)
  {
    if field in data then data[field] else IntVal(0)
  }

  /** Reading a field after writing it gives the value written; other
      fields read as before. */
  lemma ReturnIfExistsAfterWrite(data: map<string, Value>, field: string, v: Value, other: string)
    ensures ReturnIfExists(field, data[field := v]) == v
    ensures other != field ==> ReturnIfExists(other, data[field := v]) == ReturnIfExists(other, data)
  {
  }

  // ------------------------------------------------------------- currencies

  datatype Currency = Wyrmite | Rupies | Mana | Eldwater

  /** The profile field each currency is stored in. */
  function CurrencyField(c: Currency): string
  {
    match c
    case Wyrmite => "crystal"
    case Rupies => "coin"
    case Mana => "mana_point"
    case Eldwater => "dew_point"
  }

  /** The largest signed 32-bit integer, the game's limit. */
  const Int32Max: nat := 2147483647

  /** The amount the editor stores for a non-negative input: wyrmite, mana
      and eldwater are cut down to the 32-bit limit; rupies are stored as
      entered. */
  function StoredAmount(c: Currency, v: nat): nat
  {
    if c != Rupies && v > Int32Max then Int32Max else v
  }

  /** The clamp never exceeds the limit, keeps every value within it, and
      is monotone and idempotent; rupies pass through unchanged. */
  lemma StoredAmountBounds(c: Currency, v: nat, w: nat)
    ensures c != Rupies ==> StoredAmount(c, v) <= Int32Max
    ensures c != Rupies ==> (StoredAmount(c, v) == v <==> v <= Int32Max)
    ensures c == Rupies ==> StoredAmount(c, v) == v
    ensures v <= w ==> StoredAmount(c, v) <= StoredAmount(c, w)
    ensures StoredAmount(c, StoredAmount(c, v)) == StoredAmount(c, v)
  {
  }

  /** The currency cases of `_modify_user_data` once the prompt has
      accepted a non-negative integer `v`: the stored amount is written to
      the profile and the document is saved. */
  method SetCurrency(file: DragaliaSaveFile, c: Currency, v: nat)
    requires file.Valid()
    modifies file
    ensures file.Valid()
    ensures file.State() == old(file.State()).(userData := old(file.userData)[CurrencyField(c) := IntVal(StoredAmount(c, v))],
                                               saves := old(file.saves) + 1)
    ensures ReturnIfExists(CurrencyField(c), file.userData) == IntVal(StoredAmount(c, v))
  {
    var newValue := v;
    if c != Rupies && newValue > 2147483647 {
      newValue := 2147483647;
    }
    file.ModifyUserData(CurrencyField(c), IntVal(newValue));
  }

  // ---------------------------------------------------------- capitalisation

  /** What `_proper` makes of one space-separated word: with a `!` in it,
      the part before the first `!` is upper-cased, the part after it is
      capitalised and any further parts are kept; otherwise the word is
      capitalised. */
  function ProperWord(w: string): string
  {
    if '!' in w then
      var h := Split(w, '!');
      SplitCount(w, '!');
      CountZero(w, '!');
      Join([Upper(h[0]), Capitalize(h[1])] + h[2..], '!')
    else Capitalize(w)
  }

  /** `_proper(string)` as a value: every word rewritten, joined again. */
  function ProperText(s: string): string
  {
    var ws := Split(s, ' ');
    Join(seq(|ws|, k requires 0 <= k < |ws| => ProperWord(ws[k])), ' ')
  }

  /** `_proper(string)`: split on single spaces, rewrite each word in place,
      join again. */
  method Proper(str: string) returns (output: string)
    ensures output == ProperText(str)
  {
    var splitString := Split(str, ' ');
    ghost var words := splitString;
    for i := 0 to |splitString|
      invariant |splitString| == |words|
      invariant forall k :: 0 <= k < i ==> splitString[k] == ProperWord(words[k])
      invariant forall k :: i <= k < |words| ==> splitString[k] == words[k]
    {
      if '!' in splitString[i] {
        var halves := Split(splitString[i], '!');
        SplitCount(splitString[i], '!');
        CountZero(splitString[i], '!');
        halves := halves[0 := Upper(halves[0])];
        halves := halves[1 := Capitalize(halves[1])];
        splitString := splitString[i := Join(halves, '!')];
        assert halves == [Upper(Split(words[i], '!')[0]), Capitalize(Split(words[i], '!')[1])] + Split(words[i], '!')[2..];
      } else {
        splitString := splitString[i := Capitalize(splitString[i])];
      }
    }
    assert splitString == seq(|words|, k requires 0 <= k < |words| => ProperWord(words[k]));
    output := Join(splitString, ' ');
  }

  /** The pieces `ProperWord` joins for a word with a `!`. */
  lemma BangPieces(w: string)
    requires '!' in w
    ensures var h := Split(w, '!');
            && |h| >= 2
            && ProperWord(w) == Join([Upper(h[0]), Capitalize(h[1])] + h[2..], '!')
            && (forall k :: 0 <= k < |h| ==> '!' !in h[k] && |h[k]| <= |w|)
  {
    SplitCount(w, '!');
    CountZero(w, '!');
    SplitPiecesAvoidSep(w, '!');
    var h := Split(w, '!');
    JoinSplit(w, '!');
    forall k | 0 <= k < |h|
      ensures |h[k]| <= |w|
    {
      PieceLength(h, k, '!');
    }
  }

  lemma {:induction false} PieceLength(ws: seq<string>, k: nat, sep: char)
    requires k < |ws|
    ensures |ws[k]| <= |Join(ws, sep)|
  {
    if k > 0 {
      PieceLength(ws[1..], k - 1, sep);
    }
  }

  /** `_proper` keeps a word's length, keeps spaces out of it, and has a `!`
      in the result exactly when the word had one. */
  lemma ProperWordShape(w: string)
    ensures |ProperWord(w)| == |w|
    ensures ' ' !in w ==> ' ' !in ProperWord(w)
    ensures '!' in ProperWord(w) <==> '!' in w
  {
    if '!' in w {
      BangPieces(w);
      var h := Split(w, '!');
      var p := [Upper(h[0]), Capitalize(h[1])] + h[2..];
      JoinLength(p, h, '!');
      JoinSplit(w, '!');
      JoinHasSep(p, '!');
      if ' ' !in w {
        SplitPiecesAvoid(w, '!', ' ');
        CaseKeepsNonLetters(h[0], ' ');
        CaseKeepsNonLetters(h[1], ' ');
        JoinAvoids(p, '!', ' ');
      }
    } else {
      CaseKeepsNonLetters(w, ' ');
      CaseKeepsNonLetters(w, '!');
    }
  }

  /** Applying `_proper` to a word twice changes nothing more. */
  lemma ProperWordIdempotent(w: string)
    ensures ProperWord(ProperWord(w)) == ProperWord(w)
  {
    ProperWordShape(w);
    if '!' in w {
      BangPieces(w);
      var h := Split(w, '!');
      var p := [Upper(h[0]), Capitalize(h[1])] + h[2..];
      CaseKeepsNonLetters(h[0], '!');
      CaseKeepsNonLetters(h[1], '!');
      assert forall k :: 0 <= k < |p| ==> '!' !in p[k];
      SplitJoin(p, '!');
      UpperIdempotent(h[0]);
      CapitalizeIdempotent(h[1]);
      assert [Upper(p[0]), Capitalize(p[1])] + p[2..] == p;
    } else {
      CapitalizeIdempotent(w);
    }
  }

  /** `_proper` keeps the text's length and its space-separated words: the
      words of the result are the rewritten words of the input, one for
      one, so there are as many of them; and applying it twice changes
      nothing more. */
  lemma ProperTextWords(str: string)
    ensures |ProperText(str)| == |str|
    ensures Split(ProperText(str), ' ')
            == seq(|Split(str, ' ')|, k requires 0 <= k < |Split(str, ' ')| => ProperWord(Split(str, ' ')[k]))
    ensures ProperText(ProperText(str)) == ProperText(str)
  {
    var ws := Split(str, ' ');
    var ps := seq(|ws|, k requires 0 <= k < |ws| => ProperWord(ws[k]));
    SplitPiecesAvoidSep(str, ' ');
    forall k | 0 <= k < |ws|
      ensures |ps[k]| == |ws[k]| && ' ' !in ps[k]
    {
      ProperWordShape(ws[k]);
    }
    JoinLength(ps, ws, ' ');
    JoinSplit(str, ' ');
    SplitJoin(ps, ' ');
    forall k | 0 <= k < |ps|
      ensures ProperWord(ps[k]) == ps[k]
    {
      ProperWordIdempotent(ws[k]);
    }
    assert seq(|ps|, k requires 0 <= k < |ps| => ProperWord(ps[k])) == ps;
  }
}
