/** Interpolation filters; the values are OpenCV's interpolation flags. */
module ToddsFilter {
  datatype Type = Nearest | Linear | Cubic | Area | Lanczos

  function Value(flt: Type): (r: nat)
    ensures r <= 4
  {
    match flt
    case Nearest => 0
    case Linear => 1
    case Cubic => 2
    case Area => 3
    case Lanczos => 4
  }

  function Name(flt: Type): (r: string)
    ensures r != []
  {
    match flt
    case Nearest => "NEAREST"
    case Linear => "LINEAR"
    case Cubic => "CUBIC"
    case Area => "AREA"
    case Lanczos => "LANCZOS"
  }

  const NearestDescription: string := "Nearest neighbor interpolation. Very fast, but it does not produce great results."
  const LinearDescription: string := "Bilinear interpolation. Fast, and with reasonable quality."
  const CubicDescription: string := "Bicubic interpolation. Recommended filter for upscaling images."
  const AreaDescription: string := "Resampling using pixel area relation. Good for downscaling images and mipmap generation."
  const LanczosDescription: string :=
    "Lanczos interpolation. Preserves edges and details better than other filters when dowsncaling images."

  function Description(flt: Type): (r: string)
    ensures |r| > 0
  {
    match flt
    case Nearest => NearestDescription
    case Linear => LinearDescription
    case Cubic => CubicDescription
    case Area => AreaDescription
    case Lanczos => LanczosDescription
  }

  lemma ValuesAndNamesDistinct(a: Type, b: Type)
    requires a != b
    ensures Value(a) != Value(b)
    ensures Name(a) != Name(b)
  {
  }
}
