// The small validator classes nested in the parser (`_Version`, `_Depth`,
// `_ColorMode`, `_SIZE`): each wraps one decoded header value and refuses
// values outside its allowed set or range.
module Validators {
  import opened Types

  /** `_Version`: whether the document is a large-document (PSB) file. */
  datatype Version = Version(isPsb: bool)

  /** `_Depth`: bits per channel. */
  datatype Depth = Depth(depth: nat)

  /** `_ColorMode`: the colour-mode code. */
  datatype ColorMode = ColorMode(mode: nat)

  /** `_SIZE`: canvas size in pixels. */
  datatype Size = Size(width: nat, height: nat)

  const Depth1: nat := 1
  const Depth8: nat := 8
  const Depth16: nat := 16
  const Depth32: nat := 32
  const ValidDepths: set<nat> := {Depth1, Depth8, Depth16, Depth32}

  const Bitmap: nat := 0
  const Grayscale: nat := 1
  const Indexed: nat := 2
  const Rgb: nat := 3
  const Cmyk: nat := 4
  const Multichannel: nat := 7
  const Duotone: nat := 8
  const Lab: nat := 9
  const ValidColorModes: set<nat> := {Bitmap, Grayscale, Indexed, Rgb, Cmyk, Multichannel, Duotone, Lab}

  /** Largest width or height a document may declare. */
  function MaxDimension(isPsb: bool): nat {
    if isPsb then 300000 else 30000
  }

  function NewVersion(ispsb: nat): (r: Result<Version>)
    ensures r.Ok? <==> ispsb == 1 || ispsb == 2
    ensures r.Ok? ==> (r.value.isPsb <==> ispsb == 2)
    ensures r.Err? ==> r.error == NotPsdOrPsb(ispsb)
  {
    if ispsb == 1 || ispsb == 2 then Ok(Version(ispsb == 2)) else Err(NotPsdOrPsb(ispsb))
  }

  function NewDepth(key: nat): (r: Result<Depth>)
    ensures r.Ok? <==> key == 1 || key == 8 || key == 16 || key == 32
    ensures r.Ok? ==> r.value.depth == key
    ensures r.Err? ==> r.error == InvalidColorDepth(key)
  {
    if key in ValidDepths then Ok(Depth(key)) else Err(InvalidColorDepth(key))
  }

  function NewColorMode(key: nat): (r: Result<ColorMode>)
    ensures r.Ok? <==> key <= 4 || 7 <= key <= 9
    ensures r.Ok? ==> r.value.mode == key
    ensures r.Err? ==> r.error == InvalidColorMode(key)
  {
    if key in ValidColorModes then Ok(ColorMode(key)) else Err(InvalidColorMode(key))
  }

  /** `_SIZE(width, height, is_psb)`: both dimensions in range(1, maxsize),
      where maxsize is 300001 for PSB and 30001 otherwise. */
  function NewSize(width: nat, height: nat, isPsb: bool): (r: Result<Size>)
    ensures r.Ok? <==> 1 <= height <= MaxDimension(isPsb) && 1 <= width <= MaxDimension(isPsb)
    ensures r.Ok? ==> r.value.width == width && r.value.height == height
    ensures r.Err? ==> r.error == ImageTooBig(height, width)
  {
    var maxsize := if isPsb then 300001 else 30001;
    if 1 <= height < maxsize && 1 <= width < maxsize then Ok(Size(width, height))
    else Err(ImageTooBig(height, width))
  }
}
