/** The scalar-type registry: the fifteen element kinds an array can hold,
    their byte widths and the names the tree uses for them. */
module ScalarTypes {
  import opened Wrappers

  /** `scalar_type_id_t`. The two string kinds are declared but have no
      width and no name. */
  datatype ScalarType =
    | Bool8 | Int8 | Int16 | Int32 | Int64
    | Uint8 | Uint16 | Uint32 | Uint64
    | Float32 | Float64 | Complex64 | Complex128
    | Ascii | Ucs4

  predicate IsString(t: ScalarType) {
    t.Ascii? || t.Ucs4?
  }

  /** `get_scalar_type_size`: the width in bytes of one element; `None` where
      the source reaches `assert(0)`. */
  function SizeOf(t: ScalarType): (r: Option<nat>)
    ensures r.None? <==> IsString(t)
    ensures r.Some? ==> r.value in {1, 2, 4, 8, 16}
  {
    match t
    case Bool8 => Some(1)
    case Int8 => Some(1)
    case Int16 => Some(2)
    case Int32 => Some(4)
    case Int64 => Some(8)
    case Uint8 => Some(1)
    case Uint16 => Some(2)
    case Uint32 => Some(4)
    case Uint64 => Some(8)
    case Float32 => Some(4)
    case Float64 => Some(8)
    case Complex64 => Some(8)
    case Complex128 => Some(16)
    case Ascii => None
    case Ucs4 => None
  }

  /** `yaml_encode(scalar_type_id_t)`: the `datatype` name written into the
      tree; `None` where the source reaches `assert(0)`. */
  function NameOf(t: ScalarType): (r: Option<string>)
    ensures r.None? <==> IsString(t)
    ensures r.Some? ==> |r.value| >= 4
  {
    match t
    case Bool8 => Some("bool8")
    case Int8 => Some("int8")
    case Int16 => Some("int16")
    case Int32 => Some("int32")
    case Int64 => Some("int64")
    case Uint8 => Some("uint8")
    case Uint16 => Some("uint16")
    case Uint32 => Some("uint32")
    case Uint64 => Some("uint64")
    case Float32 => Some("float32")
    case Float64 => Some("float64")
    case Complex64 => Some("complex64")
    case Complex128 => Some("complex128")
    case Ascii => None
    case Ucs4 => None
  }

  predicate IsDigit(c: char) {
    '0' <= c <= '9'
  }

  /** The decimal number spelled by the run of digits that ends `s`
      (0 when `s` does not end in a digit). */
  function TrailingNumber(s: string): nat {
    if |s| == 0 || !IsDigit(s[|s| - 1]) then 0
    else 10 * TrailingNumber(s[..|s| - 1]) + (s[|s| - 1] as int - '0' as int)
  }

  /** The width table and the name table agree: every implemented kind's
      name ends in its width in bits. */
  lemma NameSpellsWidth(t: ScalarType)
    requires !IsString(t)
    ensures TrailingNumber(NameOf(t).value) == 8 * SizeOf(t).value
  {
    match t {
      case Bool8 => IntegerNameSpellsWidth(t);
      case Int8 => IntegerNameSpellsWidth(t);
      case Int16 => IntegerNameSpellsWidth(t);
      case Int32 => IntegerNameSpellsWidth(t);
      case Int64 => IntegerNameSpellsWidth(t);
      case Uint8 => UnsignedNameSpellsWidth(t);
      case Uint16 => UnsignedNameSpellsWidth(t);
      case Uint32 => UnsignedNameSpellsWidth(t);
      case Uint64 => UnsignedNameSpellsWidth(t);
      case Float32 => FloatingNameSpellsWidth(t);
      case Float64 => FloatingNameSpellsWidth(t);
      case Complex64 => FloatingNameSpellsWidth(t);
      case Complex128 => FloatingNameSpellsWidth(t);
    }
  }

  // Every name is a word ending in a letter, followed by the width's digits.

  lemma IntegerNameSpellsWidth(t: ScalarType)
    requires t.Bool8? || t.Int8? || t.Int16? || t.Int32? || t.Int64?
    ensures TrailingNumber(NameOf(t).value) == 8 * SizeOf(t).value
  {
    match t {
      case Bool8 => TrailingDigits("bool", "8");
      case Int8 => TrailingDigits("int", "8");
      case Int16 => TrailingDigits("int", "16");
      case Int32 => TrailingDigits("int", "32");
      case Int64 => TrailingDigits("int", "64");
    }
  }

  lemma UnsignedNameSpellsWidth(t: ScalarType)
    requires t.Uint8? || t.Uint16? || t.Uint32? || t.Uint64?
    ensures TrailingNumber(NameOf(t).value) == 8 * SizeOf(t).value
  {
    match t {
      case Uint8 => TrailingDigits("uint", "8");
      case Uint16 => TrailingDigits("uint", "16");
      case Uint32 => TrailingDigits("uint", "32");
      case Uint64 => TrailingDigits("uint", "64");
    }
  }

  lemma FloatingNameSpellsWidth(t: ScalarType)
    requires t.Float32? || t.Float64? || t.Complex64? || t.Complex128?
    ensures TrailingNumber(NameOf(t).value) == 8 * SizeOf(t).value
  {
    match t {
      case Float32 => TrailingDigits("float", "32");
      case Float64 => TrailingDigits("float", "64");
      case Complex64 => TrailingDigits("complex", "64");
      case Complex128 =>
        TrailingDigits("complex", "128");
        assert TrailingNumber("1") == 1 by { assert "1"[..0] == ""; }
        assert TrailingNumber("12") == 12 by { assert "12"[..1] == "1"; }
        assert TrailingNumber("128") == 128 by { assert "128"[..2] == "12"; }
        assert "complex" + "128" == "complex128";
    }
  }

  /** No two kinds share a name, so the name identifies the kind. */
  lemma NameIdentifiesType(s: ScalarType, t: ScalarType)
    requires NameOf(s).Some? && NameOf(s) == NameOf(t)
    ensures s == t
  {
  }

  /** The digits after a word that ends in a letter make up its trailing number. */
  lemma {:induction false} TrailingDigits(word: string, digits: string)
    requires |word| > 0 && !IsDigit(word[|word| - 1])
    requires forall i :: 0 <= i < |digits| ==> IsDigit(digits[i])
    ensures TrailingNumber(word + digits) == TrailingNumber(digits)
  {
    if |digits| > 0 {
      var p := digits[..|digits| - 1];
      assert (word + digits)[..|word + digits| - 1] == word + p;
      TrailingDigits(word, p);
      assert digits[..|digits| - 1] == p;
    } else {
      assert word + digits == word;
    }
  }

  /** `yaml_encode(complex<T>)` over the emitted texts of the real and
      imaginary parts: `+` is inserted unless the imaginary text already
      begins with `-`, and `i` closes the text. */
  function ComplexText(re: string, im: string): (r: string)
    ensures |r| >= |re| + 2
    ensures r[..|re|] == re && r[|r| - 1] == 'i'
    ensures r[|re|] == '+' || r[|re|] == '-'
    ensures r[|re|] == '-' <==> |im| > 0 && im[0] == '-'
    ensures ImaginaryPart(r, |re|) == im
  {
    var sign := if |im| > 0 && im[0] == '-' then "" else "+";
    re + sign + im + "i"
  }

  /** Reads back the imaginary text of a complex text whose real part has
      length `n`: drops an explicit `+` and the closing `i`. */
  function ImaginaryPart(r: string, n: nat): string
    requires n + 2 <= |r|
  {
    if r[n] == '+' then r[n + 1..|r| - 1] else r[n..|r| - 1]
  }
}
