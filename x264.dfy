/** The x264 option tables: presets, tunings and the constant rate factor. */
module X264 {
  import opened Common
  import opened Text

  datatype Preset =
    Ultrafast | Superfast | Veryfast | Faster | Fast | Medium | Slow | Slower | Veryslow

  /** The preset names as `Display` writes them. */
  function PresetName(p: Preset): string
  {
    match p
    case Ultrafast => "ultrafast"
    case Superfast => "superfast"
    case Veryfast => "veryfast"
    case Faster => "faster"
    case Fast => "fast"
    case Medium => "medium"
    case Slow => "slow"
    case Slower => "slower"
    case Veryslow => "veryslow"
  }

  /** The declaration index, which the derived `Ord` compares. */
  function PresetRank(p: Preset): nat
  {
    match p
    case Ultrafast => 0
    case Superfast => 1
    case Veryfast => 2
    case Faster => 3
    case Fast => 4
    case Medium => 5
    case Slow => 6
    case Slower => 7
    case Veryslow => 8
  }

  predicate PresetLt(a: Preset, b: Preset) { PresetRank(a) < PresetRank(b) }

  /** All presets in declaration order. */
  const Presets: seq<Preset> :=
    [Ultrafast, Superfast, Veryfast, Faster, Fast, Medium, Slow, Slower, Veryslow]

  predicate IsLowerAscii(s: string)
  {
    forall i :: 0 <= i < |s| ==> 'a' <= s[i] <= 'z'
  }

  /** The derived order is declaration order, a strict total order over the nine presets. */
  lemma PresetOrder()
    ensures |Presets| == 9
    ensures forall p :: p in Presets
    ensures forall i, j :: 0 <= i < j < |Presets| ==> PresetLt(Presets[i], Presets[j])
    ensures forall a, b :: a != b ==> PresetLt(a, b) || PresetLt(b, a)
  {
    forall p ensures p in Presets {
      assert Presets[PresetRank(p)] == p;
    }
  }

  /** Nine variants, nine different lowercase names. */
  lemma PresetNamesDistinct()
    ensures forall a, b :: PresetName(a) == PresetName(b) ==> a == b
    ensures forall p :: IsLowerAscii(PresetName(p))
  {
  }

  datatype Tune = Film | Animation | Grain | StillImage | FastDecode | ZeroLatency

  /** The tuning names as `Display` writes them. */
  function TuneName(t: Tune): string
  {
    match t
    case Film => "film"
    case Animation => "animation"
    case Grain => "grain"
    case StillImage => "stillimage"
    case FastDecode => "fastdecode"
    case ZeroLatency => "zerolatency"
  }

  /** Six variants, six different lowercase names. */
  lemma TuneNamesDistinct()
    ensures forall a, b :: TuneName(a) == TuneName(b) ==> a == b
    ensures forall t :: IsLowerAscii(TuneName(t))
  {
  }

  /** A constant rate factor: a `u8` in `VALID_RANGE`. */
  datatype Crf = Crf(value: nat)

  const CRF_MIN: nat := 0
  const CRF_MAX: nat := 51
  const CRF_NOT_NUMBER_MSG := "crf is not a number"
  const CRF_RANGE_MSG := "crf out of range: valid range is 0 to 51"

  /** `Crf::parse`: a `u8` parse, then the range check. */
  function ParseCrf(s: string): (r: Result<Crf>)
    ensures r.Ok? ==> CRF_MIN <= r.value.value <= CRF_MAX
  {
    match ParseUnsigned(s, U8_MAX)
    case Err(why) => Err([CRF_NOT_NUMBER_MSG] + why)
    case Ok(p) => if CRF_MIN <= p <= CRF_MAX then Ok(Crf(p)) else Err([CRF_RANGE_MSG])
  }

  /** Success exactly on `u8` literals from 0 to 51; the two failures are told apart
      by their outermost cause. */
  lemma ParseCrfSpec(s: string)
    ensures ParseCrf(s).Ok?
        <==> IsUnsignedLiteral(s) && DecimalValue(LiteralDigits(s)) <= CRF_MAX
    ensures ParseCrf(s).Ok? ==> ParseCrf(s).value == Crf(DecimalValue(LiteralDigits(s)))
    ensures ParseCrf(s).Err? && ParseCrf(s).chain[0] == CRF_NOT_NUMBER_MSG
        <==> !(IsUnsignedLiteral(s) && DecimalValue(LiteralDigits(s)) <= U8_MAX)
    ensures ParseCrf(s) == Err([CRF_RANGE_MSG])
        <==> IsUnsignedLiteral(s) && CRF_MAX < DecimalValue(LiteralDigits(s)) <= U8_MAX
  {
    ParseUnsignedSpec(s, U8_MAX);
  }

  /** The decimal text of a valid factor (as main.rs passes it to ffmpeg) parses back to it. */
  lemma CrfRoundTrip(n: nat)
    requires n <= CRF_MAX
    ensures ParseCrf(Decimal(n)) == Ok(Crf(n))
  {
    DecimalRoundTrip(n, U8_MAX);
  }

  /** 52 to 255 are numbers but out of range; above 255 they are not `u8` numbers. */
  lemma CrfRejects(n: nat)
    requires n > CRF_MAX
    ensures n <= U8_MAX ==> ParseCrf(Decimal(n)) == Err([CRF_RANGE_MSG])
    ensures n > U8_MAX ==> ParseCrf(Decimal(n)) == Err([CRF_NOT_NUMBER_MSG, OVERFLOW_MSG])
  {
    if n <= U8_MAX {
      DecimalRoundTrip(n, U8_MAX);
    } else {
      DecimalOverflow(n, U8_MAX);
    }
  }
}
