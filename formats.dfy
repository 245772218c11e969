/** Texture formats of the png2dds generation. */
module Png2ddsFormat {
  import Strings

  datatype Type = Bc1 | Bc7 | Bc1AlphaBc7

  function Name(fmt: Type): (r: string)
    ensures r != []
    ensures Strings.Upper(r) == r
  {
    match fmt
    case Bc1 => "BC1"
    case Bc7 => "BC7"
    case Bc1AlphaBc7 => "BC1_ALPHA_BC7"
  }

  /** Largest encoder quality level accepted for a format. */
  function MaxLevel(fmt: Type): (r: nat)
    ensures fmt == Bc1 ==> r == 18
    ensures fmt != Bc1 ==> r == 6
  {
    match fmt
    case Bc1 => 18
    case Bc1AlphaBc7 => 6
    case Bc7 => 6
  }

  lemma NamesDistinct(a: Type, b: Type)
    requires a != b
    ensures Name(a) != Name(b)
  {
  }
}

/** Texture formats, quality levels and alpha support of the todds generation. */
module ToddsFormat {
  datatype Type = Bc1 | Bc7 | Png | Invalid

  datatype Quality = UltraFast | VeryFast | Fast | Basic | Slow | VerySlow | ReallySlow | Slowest

  const Minimum: Quality := UltraFast
  const Maximum: Quality := Slowest

  /** The underlying value of each quality enumerator. */
  function QualityValue(q: Quality): (r: nat)
    ensures r <= 7
  {
    match q
    case UltraFast => 0
    case VeryFast => 1
    case Fast => 2
    case Basic => 3
    case Slow => 4
    case VerySlow => 5
    case ReallySlow => 6
    case Slowest => 7
  }

  lemma MinimumAndMaximum(q: Quality)
    ensures QualityValue(Minimum) == 0 && QualityValue(Maximum) == 7
    ensures QualityValue(Minimum) <= QualityValue(q) <= QualityValue(Maximum)
  {
  }

  /** Declaration order and values agree, with no gaps: every value 0..7 names one level. */
  lemma QualityValuesAreABijection(v: nat)
    requires v <= 7
    ensures exists q :: QualityValue(q) == v
    ensures forall a, b :: QualityValue(a) == QualityValue(b) ==> a == b
  {
    var all := [UltraFast, VeryFast, Fast, Basic, Slow, VerySlow, ReallySlow, Slowest];
    assert QualityValue(all[v]) == v;
  }

  function Name(fmt: Type): (r: string)
    ensures r == [] <==> fmt == Invalid
  {
    match fmt
    case Bc1 => "BC1"
    case Bc7 => "BC7"
    case Png => "PNG"
    case Invalid => ""
  }

  predicate HasAlpha(fmt: Type)
  {
    fmt == Bc7 || fmt == Png
  }

  lemma NamesDistinct(a: Type, b: Type)
    requires a != b
    ensures Name(a) != Name(b)
  {
  }
}
