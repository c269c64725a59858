/**
 * The `ImageProcessor` helper class (`utils/image_processor.py`): decoding a data-URI image,
 * the minimum-size gate and the target size of an aspect-preserving resize.
 */
module ImageProcessor {
  import opened Common
  import opened Text
  import Base64
  import opened Vision
  import Config

  /** Every failure of `decode_base64_image` is re-raised with this prefix. */
  const FailurePrefix := "图片处理失败: "
  /** The message raised when OpenCV cannot decode the bytes. */
  const UndecodableMessage := "图片解码失败"
  /** The message of `binascii.Error` for malformed base 64 text. */
  const InvalidBase64Message := "Incorrect padding"
  const LowQualityMessage := "图像质量太低，请调整距离"
  const DefaultTargetSize: nat := 224

  /** The base 64 text actually decoded: `s.split(',')[1]` when `s` has a comma, else `s`. */
  function Payload(s: string): (p: string)
    ensures ',' !in s ==> p == s
    ensures ',' in s ==> |Split(s, ',')| >= 2 && p == Split(s, ',')[1]
    ensures ',' !in p
  {
    SplitHasSecondPiece(s, ',');
    if ',' in s then SecondPiece(s, ',').value else s
  }

  /** `decode_base64_image`: the decoded image, or the re-wrapped `ValueError` message. */
  function DecodeBase64Image(b: Backend, s: string): (r: Result<Image, string>)
    ensures r.Err? ==> |r.error| >= |FailurePrefix| && r.error[..|FailurePrefix|] == FailurePrefix
    ensures r.Ok? <==> Base64.Decode(Payload(s)).Some? && b.imdecode(Base64.Decode(Payload(s)).value).Some?
    ensures r.Ok? ==> Some(r.value) == b.imdecode(Base64.Decode(Payload(s)).value)
    ensures Base64.Decode(Payload(s)).Some? && b.imdecode(Base64.Decode(Payload(s)).value).None? ==>
      r == Err(FailurePrefix + UndecodableMessage)
  {
    var inner: Result<Image, string> :=
      match Base64.Decode(Payload(s))
      case None => Err(InvalidBase64Message)
      case Some(bytes) =>
        match b.imdecode(bytes)
        case None => Err(UndecodableMessage)
        case Some(img) => Ok(img);
    match inner
    case Ok(img) => Ok(img)
    case Err(message) => Err(FailurePrefix + message)
  }

  /** `check_image_quality`: raises when either side is below 200, otherwise `True`. */
  function CheckImageQuality(img: Image): (r: Result<bool, string>)
    ensures r.Err? <==> img.height < Config.MinQualityWidth || img.width < Config.MinQualityHeight
    ensures r.Err? ==> r.error == LowQualityMessage
    ensures r.Ok? ==> r.value
  {
    if img.height < Config.MinQualityWidth || img.width < Config.MinQualityHeight then Err(LowQualityMessage)
    else Ok(true)
  }

  /** Enlarging an image never turns a pass of the quality gate into a failure. */
  lemma QualityGateMonotone(small: Image, large: Image)
    requires small.height <= large.height && small.width <= large.width
    ensures CheckImageQuality(small).Ok? ==> CheckImageQuality(large).Ok?
  {
  }

  lemma MulMonotone(a: nat, c: nat, t: nat)
    requires a <= c
    ensures a * t <= c * t
  {
  }

  lemma DivMonotone(a: nat, c: nat, d: nat)
    requires a <= c && d > 0
    ensures a / d <= c / d
  {
    var p, q := a / d, c / d;
    assert (q + 1) * d == q * d + d;
    if p > q {
      MulMonotone(q + 1, p, d);
    }
  }

  lemma MulDivSelf(t: nat, m: nat)
    requires m > 0
    ensures (m * t) / m == t
  {
    var q := (m * t) / m;
    assert m * q <= m * t;
    assert m * t < m * (q + 1);
  }

  /** `int(side * (t / m))` computed exactly. */
  function Scale(side: nat, m: nat, t: nat): nat
    requires m > 0
  {
    (side * t) / m
  }

  /** `int(side * (t / m))` is the whole part of `side * t / m`: the ratio is kept up to one unit. */
  lemma ScaleBounds(side: nat, m: nat, t: nat)
    requires m > 0
    ensures Scale(side, m, t) * m <= side * t < (Scale(side, m, t) + 1) * m
  {
    var q := (side * t) / m;
    assert side * t == m * q + (side * t) % m;
    assert (q + 1) * m == q * m + m;
  }

  /** Scaling a side by `t / m` keeps the order of sides, and a side of `m` becomes exactly `t`. */
  lemma ScaledSides(small: nat, large: nat, m: nat, t: nat)
    requires small <= large <= m && m > 0
    ensures Scale(small, m, t) <= Scale(large, m, t) <= t
    ensures large == m ==> Scale(large, m, t) == t
  {
    MulMonotone(small, large, t);
    MulMonotone(large, m, t);
    DivMonotone(small * t, large * t, m);
    DivMonotone(large * t, m * t, m);
    MulDivSelf(t, m);
  }

  /**
   * The `(new_height, new_width)` of `resize_image` under exact arithmetic:
   * `int(side * (target_size / max_dim))`; `None` where the division by a zero `max_dim` raises.
   */
  function ResizeTarget(height: nat, width: nat, targetSize: nat := DefaultTargetSize): (r: Option<(nat, nat)>)
    ensures r.None? <==> height == 0 && width == 0
    ensures r.Some? ==> r.value.0 <= targetSize && r.value.1 <= targetSize
    ensures r.Some? ==> (height <= width ==> r.value.0 <= r.value.1 && r.value.1 == targetSize)
    ensures r.Some? ==> (width <= height ==> r.value.1 <= r.value.0 && r.value.0 == targetSize)
    ensures r.Some? ==>
      var m := if height >= width then height else width;
      r.value.0 * m <= height * targetSize < (r.value.0 + 1) * m &&
      r.value.1 * m <= width * targetSize < (r.value.1 + 1) * m
  {
    var maxDim := if height >= width then height else width;
    if maxDim == 0 then None
    else
      var newHeight, newWidth := Scale(height, maxDim, targetSize), Scale(width, maxDim, targetSize);
      ScaleBounds(height, maxDim, targetSize);
      ScaleBounds(width, maxDim, targetSize);
      if height <= width then
        ScaledSides(height, width, maxDim, targetSize);
        Some((newHeight, newWidth))
      else
        ScaledSides(width, height, maxDim, targetSize);
        Some((newHeight, newWidth))
  }
}
