/**
 * The Caesar shift of `Message.build_shift_dict` and `Message.apply_shift`
 * (ps6.py), as functions on values.
 */
module Cipher {
  import opened Wrappers
  import opened Chars

  /** `string.ascii_lowercase`: the 26 small letters in code-point order. */
  const LOWERCASE: Text := seq(26, i requires 0 <= i < 26 => ('a' as int + i) as char)

  /** `string.ascii_uppercase`: the 26 capitals in code-point order. */
  const UPPERCASE: Text := seq(26, i requires 0 <= i < 26 => ('A' as int + i) as char)

  /** Each alphabet holds its 26 letters in code-point order. */
  lemma AlphabetAt(i: int)
    requires 0 <= i < 26
    ensures LOWERCASE[i] as int == 'a' as int + i && UPPERCASE[i] as int == 'A' as int + i
  {
  }

  /** Position of an ASCII letter in its alphabet. */
  function Index(c: char): (i: nat)
    requires IsAsciiLetter(c)
    ensures i < 26
  {
    if IsAsciiLower(c) then c as int - 'a' as int else c as int - 'A' as int
  }

  /** The letter `shift` places after `c` in the alphabet of its case, wrapping around. */
  function Rotate(c: Latin1, shift: int): (r: Latin1)
    requires IsAsciiLetter(c)
    ensures IsAsciiLower(r) == IsAsciiLower(c) && IsAsciiUpper(r) == IsAsciiUpper(c)
    ensures Index(r) == (Index(c) + shift) % 26
  {
    var base := if IsAsciiLower(c) then 'a' as int else 'A' as int;
    (base + (Index(c) + shift) % 26) as char
  }

  /** The dictionary `build_shift_dict(shift)` returns. */
  function ShiftTable(shift: int): map<Latin1, Latin1>
  {
    map c: Latin1 | IsAsciiLetter(c) :: Rotate(c, shift)
  }

  /** Shifting by `a` and then by `b` is shifting by `a + b`. */
  lemma RotateCompose(c: Latin1, a: int, b: int)
    requires IsAsciiLetter(c)
    ensures Rotate(Rotate(c, a), b) == Rotate(c, a + b)
  {
    var i := Index(c);
    assert Index(Rotate(Rotate(c, a), b)) == ((i + a) % 26 + b) % 26;
    assert ((i + a) % 26 + b) % 26 == (i + a + b) % 26 by {
      var q := (i + a) / 26;
      assert i + a == 26 * q + (i + a) % 26;
      assert i + a + b == 26 * q + ((i + a) % 26 + b);
    }
  }

  /** A shift by a multiple of 26 (0 and 26 among them) leaves a letter alone. */
  lemma RotateWhole(c: Latin1, k: int)
    requires IsAsciiLetter(c) && k % 26 == 0
    ensures Rotate(c, k) == c
  {
    var i := Index(c);
    assert (i + k) % 26 == i by {
      var q := k / 26;
      assert k == 26 * q;
      assert i + k == 26 * q + i;
    }
  }

  /** The letters at position `i` of the two alphabets, and where the table sends them. */
  lemma ShiftTableAt(shift: int, i: int)
    requires 0 <= i < 26
    ensures LOWERCASE[i] in ShiftTable(shift) && ShiftTable(shift)[LOWERCASE[i]] == LOWERCASE[(i + shift) % 26]
    ensures UPPERCASE[i] in ShiftTable(shift) && ShiftTable(shift)[UPPERCASE[i]] == UPPERCASE[(i + shift) % 26]
  {
    AlphabetAt(i);
    var lo, up := LOWERCASE[i], UPPERCASE[i];
    assert IsAsciiLower(lo) && Index(lo) == i;
    assert IsAsciiUpper(up) && Index(up) == i;
  }

  /** The entries `build_shift_dict` has made after handling the first `n` alphabet positions. */
  ghost function PartialTable(shift: int, n: int): map<Latin1, Latin1>
  {
    map c: Latin1 | IsAsciiLetter(c) && Index(c) < n :: Rotate(c, shift)
  }

  /** One round of the loop of `build_shift_dict` adds the entries of position `i`. */
  lemma PartialTableStep(shift: int, i: int)
    requires 0 <= i < 26
    ensures PartialTable(shift, i + 1)
      == PartialTable(shift, i)[LOWERCASE[i] := LOWERCASE[(i + shift) % 26]][UPPERCASE[i] := UPPERCASE[(i + shift) % 26]]
  {
    ShiftTableAt(shift, i);
    AlphabetAt(i);
    var lo, up := LOWERCASE[i], UPPERCASE[i];
    assert IsAsciiLower(lo) && Index(lo) == i;
    assert IsAsciiUpper(up) && Index(up) == i;
    assert lo != up;
    var before, after := PartialTable(shift, i), PartialTable(shift, i + 1);
    var updated := before[lo := LOWERCASE[(i + shift) % 26]][up := UPPERCASE[(i + shift) % 26]];
    assert Rotate(lo, shift) == LOWERCASE[(i + shift) % 26];
    assert Rotate(up, shift) == UPPERCASE[(i + shift) % 26];
    forall c
      ensures c in after <==> c in updated
    {
      if IsAsciiLetter(c) && Index(c) == i {
        assert c == lo || c == up;
      }
    }
    forall c | c in after
      ensures after[c] == updated[c]
    {
    }
    assert after == updated;
  }

  /**
   * The table has exactly the 52 ASCII letters as keys, and maps the letter at
   * position `i` of each alphabet to the letter at position `(i + shift) % 26` of
   * the same alphabet.
   */
  lemma ShiftTableEntries(shift: int)
    ensures forall c :: c in ShiftTable(shift) <==> IsAsciiLetter(c)
    ensures forall i | 0 <= i < 26 ::
      && ShiftTable(shift)[LOWERCASE[i]] == LOWERCASE[(i + shift) % 26]
      && ShiftTable(shift)[UPPERCASE[i]] == UPPERCASE[(i + shift) % 26]
  {
    forall i | 0 <= i < 26
      ensures ShiftTable(shift)[LOWERCASE[i]] == LOWERCASE[(i + shift) % 26]
      ensures ShiftTable(shift)[UPPERCASE[i]] == UPPERCASE[(i + shift) % 26]
    {
      ShiftTableAt(shift, i);
    }
  }

  /** The table of `26 - shift` undoes the table of `shift`, letter by letter. */
  lemma ShiftTableUndo(shift: int, c: Latin1)
    requires IsAsciiLetter(c)
    ensures ShiftTable(26 - shift)[ShiftTable(shift)[c]] == c
    ensures ShiftTable(shift)[ShiftTable(26 - shift)[c]] == c
  {
    RotateCompose(c, shift, 26 - shift);
    RotateCompose(c, 26 - shift, shift);
    RotateWhole(c, 26);
  }

  /**
   * The table maps lower case to lower case and upper case to upper case, is
   * one-to-one, and every letter is the image of some letter: a bijection on each
   * alphabet, undone by the table of `26 - shift`.
   */
  lemma ShiftTableBijective(shift: int)
    ensures forall c | c in ShiftTable(shift) ::
      IsAsciiLower(ShiftTable(shift)[c]) == IsAsciiLower(c) && IsAsciiUpper(ShiftTable(shift)[c]) == IsAsciiUpper(c)
    ensures forall c1, c2 | c1 in ShiftTable(shift) && c2 in ShiftTable(shift) ::
      ShiftTable(shift)[c1] == ShiftTable(shift)[c2] ==> c1 == c2
    ensures ShiftTable(shift).Values == ShiftTable(shift).Keys
    ensures forall c | c in ShiftTable(shift) :: ShiftTable(26 - shift)[ShiftTable(shift)[c]] == c
  {
    var m := ShiftTable(shift);
    forall c | c in m
      ensures ShiftTable(26 - shift)[m[c]] == c
    {
      ShiftTableUndo(shift, c);
    }
    forall d | d in m
      ensures d in m.Values
    {
      ShiftTableUndo(shift, d);
      var c := ShiftTable(26 - shift)[d];
      assert c in m && m[c] == d;
    }
  }

  /** Every letter of `text` (by `str.isalpha`) is a key of `table`. */
  predicate Translatable(table: map<Latin1, Latin1>, text: Text) {
    forall i | 0 <= i < |text| :: IsAlpha(text[i]) ==> text[i] in table
  }

  /** What `apply_shift` appends for one character: the entry of a letter, any other character itself. */
  function Substitute(table: map<Latin1, Latin1>, c: Latin1): Latin1
    requires IsAlpha(c) ==> c in table
  {
    if IsAlpha(c) then table[c] else c
  }

  /** Position `i` holds the leftmost letter of `text` that `table` lacks. */
  predicate FirstMissingAt(table: map<Latin1, Latin1>, text: Text, i: int) {
    0 <= i < |text| && IsAlpha(text[i]) && text[i] !in table && Translatable(table, text[..i])
  }

  /**
   * The loop of `apply_shift` over a given table. It succeeds exactly when every
   * letter has an entry, and then substitutes position by position; otherwise it
   * raises KeyError on the leftmost letter without an entry.
   */
  function Translate(table: map<Latin1, Latin1>, text: Text): (r: Result<Text>)
    ensures r.Ok? <==> Translatable(table, text)
    ensures r.Ok? ==> |r.value| == |text|
    ensures r.Ok? ==> forall i | 0 <= i < |text| :: r.value[i] == Substitute(table, text[i])
    ensures r.KeyError? ==> exists i :: FirstMissingAt(table, text, i) && text[i] == r.key
  {
    if text == [] then Ok([])
    else if IsAlpha(text[0]) && text[0] !in table then
      assert FirstMissingAt(table, text, 0);
      KeyError(text[0])
    else
      match Translate(table, text[1..])
      case Ok(rest) => Ok([Substitute(table, text[0])] + rest)
      case KeyError(k) =>
        ghost var i :| FirstMissingAt(table, text[1..], i) && text[1..][i] == k;
        assert text[..i + 1] == [text[0]] + text[1..][..i];
        assert FirstMissingAt(table, text, i + 1);
        KeyError(k)
  }

  /** No character of `text` is a letter outside the shift table's alphabet. */
  predicate Shiftable(text: Text) {
    forall i | 0 <= i < |text| :: !IsForeignLetter(text[i])
  }

  /** Position `i` holds the leftmost letter of `text` that the shift table lacks. */
  predicate FirstForeignAt(text: Text, i: int) {
    0 <= i < |text| && IsForeignLetter(text[i]) && Shiftable(text[..i])
  }

  /** What `apply_shift` makes of one character: an ASCII letter is rotated, any other character kept. */
  function ShiftChar(c: Latin1, shift: int): Latin1 {
    if IsAsciiLetter(c) then Rotate(c, shift) else c
  }

  /**
   * `Message.apply_shift(shift)` on the message text `text`. It succeeds exactly
   * when `text` has no letter outside ASCII, and then returns a text of the same
   * length in which every ASCII letter is rotated within its own case and every
   * other character stays where it was. Otherwise it raises KeyError on the
   * leftmost such letter.
   */
  function ApplyShift(text: Text, shift: int): (r: Result<Text>)
    ensures r.Ok? <==> Shiftable(text)
    ensures r.Ok? ==> |r.value| == |text|
    ensures r.Ok? ==> forall i | 0 <= i < |text| :: r.value[i] == ShiftChar(text[i], shift)
    ensures r.Ok? ==> forall i | 0 <= i < |text| ::
      && IsAsciiLower(r.value[i]) == IsAsciiLower(text[i])
      && IsAsciiUpper(r.value[i]) == IsAsciiUpper(text[i])
      && (!IsAsciiLetter(text[i]) ==> r.value[i] == text[i])
    ensures r.KeyError? ==> exists i :: FirstForeignAt(text, i) && text[i] == r.key
  {
    if text == [] then Ok([])
    else if IsForeignLetter(text[0]) then
      assert FirstForeignAt(text, 0);
      KeyError(text[0])
    else
      match ApplyShift(text[1..], shift)
      case Ok(rest) => Ok([ShiftChar(text[0], shift)] + rest)
      case KeyError(k) =>
        ghost var i :| FirstForeignAt(text[1..], i) && text[1..][i] == k;
        assert text[..i + 1] == [text[0]] + text[1..][..i];
        assert FirstForeignAt(text, i + 1);
        KeyError(k)
  }

  /**
   * `apply_shift` is the loop over the table `build_shift_dict` makes: translating
   * with `ShiftTable(shift)` gives the same text, or raises on the same key.
   */
  lemma ApplyShiftTranslates(text: Text, shift: int)
    ensures Translate(ShiftTable(shift), text) == ApplyShift(text, shift)
  {
    var table := ShiftTable(shift);
    var r := Translate(table, text);
    if Translatable(table, text) {
      assert Shiftable(text) by {
        forall i | 0 <= i < |text| ensures !IsForeignLetter(text[i]) {
          if IsAlpha(text[i]) { assert text[i] in table; }
        }
      }
      var u := ApplyShift(text, shift).value;
      forall i | 0 <= i < |text| ensures r.value[i] == u[i] {
        if IsAsciiLetter(text[i]) { assert table[text[i]] == Rotate(text[i], shift); }
      }
      assert r.value == u;
    } else {
      ghost var i :| FirstMissingAt(table, text, i) && text[i] == r.key;
      assert forall j | 0 <= j < i :: text[..i][j] == text[j];
      assert FirstForeignAt(text, i);
      var j :| FirstForeignAt(text, j) && text[j] == ApplyShift(text, shift).key;
      FirstForeignUnique(text, i, j);
    }
  }

  /** Only one position can hold the leftmost letter the table lacks. */
  lemma FirstForeignUnique(text: Text, i: int, j: int)
    requires FirstForeignAt(text, i) && FirstForeignAt(text, j)
    ensures i == j
  {
  }

  /** Whether `apply_shift` raises, and on which key, does not depend on the shift. */
  lemma ApplyShiftFailureIgnoresShift(text: Text, a: int, b: int)
    requires ApplyShift(text, a).KeyError?
    ensures ApplyShift(text, b) == ApplyShift(text, a)
  {
    var i :| FirstForeignAt(text, i) && text[i] == ApplyShift(text, a).key;
    var j :| FirstForeignAt(text, j) && text[j] == ApplyShift(text, b).key;
    FirstForeignUnique(text, i, j);
  }

  /** Shifting by `a` and then by `b` is shifting by `a + b`. */
  lemma ApplyShiftCompose(text: Text, a: int, b: int)
    requires ApplyShift(text, a).Ok?
    ensures ApplyShift(ApplyShift(text, a).value, b) == ApplyShift(text, a + b)
  {
    var u := ApplyShift(text, a).value;
    assert Shiftable(u) by {
      forall i | 0 <= i < |u| ensures !IsForeignLetter(u[i]) {
        assert !IsForeignLetter(text[i]);
      }
    }
    var v, w := ApplyShift(u, b).value, ApplyShift(text, a + b).value;
    forall i | 0 <= i < |text| ensures v[i] == w[i] {
      if IsAsciiLetter(text[i]) {
        RotateCompose(text[i], a, b);
      }
    }
    assert v == w;
  }

  /** On a text it can shift, a shift by a multiple of 26 changes nothing. */
  lemma ApplyShiftIdentity(text: Text, k: int)
    requires k % 26 == 0 && Shiftable(text)
    ensures ApplyShift(text, k) == Ok(text)
  {
    var u := ApplyShift(text, k).value;
    forall i | 0 <= i < |text| ensures u[i] == text[i] {
      if IsAsciiLetter(text[i]) {
        RotateWhole(text[i], k);
      }
    }
    assert u == text;
  }

  /**
   * A shift by a multiple of 26 -- `apply_shift(0)` and `apply_shift(26)` among
   * them -- returns the text unchanged, and raises exactly as `apply_shift(0)` does.
   */
  lemma ApplyShiftWhole(text: Text, k: int)
    requires k % 26 == 0
    ensures Shiftable(text) ==> ApplyShift(text, k) == Ok(text)
    ensures ApplyShift(text, k) == ApplyShift(text, 0)
  {
    if Shiftable(text) {
      ApplyShiftIdentity(text, k);
      ApplyShiftIdentity(text, 0);
    } else {
      ApplyShiftFailureIgnoresShift(text, k, 0);
    }
  }

  /** Round trip: shifting by `s` and then by `26 - s` gives back the original text. */
  lemma ApplyShiftRoundTrip(text: Text, s: int)
    requires ApplyShift(text, s).Ok?
    ensures ApplyShift(ApplyShift(text, s).value, 26 - s) == Ok(text)
  {
    ApplyShiftCompose(text, s, 26 - s);
    ApplyShiftIdentity(text, 26);
  }
}
