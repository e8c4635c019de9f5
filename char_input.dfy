/** Normalisation of the character field: `value.slice(-1) || "A"`. A
    JavaScript string is a sequence of UTF-16 code units, so this model works
    on code units; a character outside the Basic Multilingual Plane is a
    surrogate pair of two units. */
module CharInput {

  type CodeUnit = u: int | 0 <= u < 0x10000

  /** A JavaScript string value. */
  type Utf16 = seq<CodeUnit>

  predicate IsHigh(u: CodeUnit) {
    0xD800 <= u < 0xDC00
  }

  predicate IsLow(u: CodeUnit) {
    0xDC00 <= u < 0xE000
  }

  /** Every high surrogate is followed by a low one and every low surrogate
      follows a high one: the units spell a sequence of whole characters. */
  predicate WellFormed(s: Utf16) {
    && (forall i :: 0 <= i < |s| && IsHigh(s[i]) ==> i + 1 < |s| && IsLow(s[i + 1]))
    && (forall i :: 0 <= i < |s| && IsLow(s[i]) ==> i > 0 && IsHigh(s[i - 1]))
  }

  /** Exactly one character: one unit outside the surrogate range, or a high
      and a low surrogate. */
  predicate IsOneChar(s: Utf16) {
    || (|s| == 1 && !IsHigh(s[0]) && !IsLow(s[0]))
    || (|s| == 2 && IsHigh(s[0]) && IsLow(s[1]))
  }

  /** The fallback character "A". */
  const DefaultChar: Utf16 := ['A' as int]

  /** The field handler as written: the last code unit, or "A" when the field is empty. */
  function LastUnitOrA(value: Utf16): (r: Utf16)
    ensures |r| == 1
    ensures value == [] ==> r == DefaultChar
    ensures value != [] ==> r == [value[|value| - 1]]
  {
    if |value| == 0 then DefaultChar else value[|value| - 1..]
  }

  /** Typing one emoji (U+1F600, the pair D83D DE00) leaves only its low
      surrogate: a lone half of a character, not a character. */
  lemma LastUnitSplitsPair()
    ensures WellFormed([0xD83D, 0xDE00]) && IsOneChar([0xD83D, 0xDE00])
    ensures LastUnitOrA([0xD83D, 0xDE00]) == [0xDE00]
    ensures !WellFormed(LastUnitOrA([0xD83D, 0xDE00]))
  {
    var r := LastUnitOrA([0xD83D, 0xDE00]);
    assert IsLow(r[0]);
  }

  /** The handler as intended: the last whole character, or "A" when the field is empty. */
  function LastCharOrA(value: Utf16): (r: Utf16)
    ensures value == [] ==> r == DefaultChar
    ensures value != [] ==> 1 <= |r| <= 2 && |r| <= |value| && r == value[|value| - |r|..]
  {
    if |value| == 0 then DefaultChar
    else if |value| >= 2 && IsLow(value[|value| - 1]) && IsHigh(value[|value| - 2]) then value[|value| - 2..]
    else value[|value| - 1..]
  }

  /** On a well-formed field the result is always exactly one whole character. */
  lemma LastCharIsOneChar(value: Utf16)
    requires WellFormed(value)
    ensures IsOneChar(LastCharOrA(value)) && WellFormed(LastCharOrA(value))
  {
    var n := |value|;
    if n > 0 && !(n >= 2 && IsLow(value[n - 1]) && IsHigh(value[n - 2])) {
      assert !IsHigh(value[n - 1]);
      assert !IsLow(value[n - 1]);
    }
  }

  /** The result is a fixed point: normalising the field's new value keeps it. */
  lemma LastCharIdempotent(value: Utf16)
    requires WellFormed(value)
    ensures LastCharOrA(LastCharOrA(value)) == LastCharOrA(value)
  {
    LastCharIsOneChar(value);
  }

  /** When the field does not end in a surrogate pair the intended handler
      and the one as written agree. */
  lemma AgreesOffPairs(value: Utf16)
    requires value == [] || !IsLow(value[|value| - 1])
    ensures LastCharOrA(value) == LastUnitOrA(value)
  {
  }
}
