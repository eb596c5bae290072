/**
 * `compressImageCore`: the per-file search for an encoding of at most
 * 300 KiB. The image codec (sharp's rotate/resize/png/jpeg) is an abstract
 * function from the encoding, the quality and the resize width to the length
 * of the output, or an error.
 */
module Compression {
  import opened Common
  import opened Paths

  const TargetMaxSize: nat := 300 * 1024
  const QualityFloor: int := 60
  const InitialQuality: int := 85
  const ResetQuality: int := 75
  const QualityStep: int := 10
  const MaxAttempts: nat := 8
  const WidthCap: nat := 2560
  const ShrinkFactor: real := 0.8
  /** A PNG output above this size, after more than two attempts, is re-encoded as JPEG. */
  const PngFallbackSize: nat := 500 * 1024
  const PngFallbackAfter: nat := 2

  datatype Encoding =
    | Png    // png({ quality, compressionLevel: 9 })
    | Jpeg   // jpeg({ quality, mozjpeg: true })

  datatype Encoded = Encoded(length: nat) | CodecError(reason: string)

  /** The codec applied to one file: (encoding, quality, width passed to resize) to output. */
  type Codec = (Encoding, int, int) -> Encoded

  /** `Math.round`. */
  function Round(x: real): int {
    (x + 0.5).Floor
  }

  /** `metadata.width > 2560 ? 2560 : metadata.width`: the smaller of the width and the cap. */
  function InitialWidth(width: nat): (r: real)
    ensures r <= width as real && r <= WidthCap as real
    ensures r == width as real || r == WidthCap as real
  {
    if width > WidthCap then WidthCap as real else width as real
  }

  /** The encoding of one attempt. The PNG-to-JPEG fallback is decided afresh on each attempt. */
  function EncodeOnce(codec: Codec, isPng: bool, quality: int, maxWidth: real, attempts: nat): Encoded {
    var w := Round(maxWidth);
    if isPng then
      match codec(Png, quality, w)
      case CodecError(e) => CodecError(e)
      case Encoded(n) =>
        if n > PngFallbackSize && attempts > PngFallbackAfter then codec(Jpeg, quality, w) else Encoded(n)
    else codec(Jpeg, quality, w)
  }

  /** The PNG output is over 500 KiB after more than two attempts, so the attempt is re-encoded as JPEG. */
  predicate FallsBack(codec: Codec, quality: int, maxWidth: real, attempts: nat) {
    var png := codec(Png, quality, Round(maxWidth));
    png.Encoded? && png.length > PngFallbackSize && attempts > PngFallbackAfter
  }

  /**
   * Every attempt is the codec's output at the attempt's quality and rounded
   * width. A JPEG source is always encoded as JPEG. A PNG source stays PNG
   * unless its PNG output falls back, and never within the first three
   * attempts.
   */
  lemma EncodeOnceEncoding(codec: Codec, isPng: bool, quality: int, maxWidth: real, attempts: nat)
    ensures !isPng ==> EncodeOnce(codec, isPng, quality, maxWidth, attempts) == codec(Jpeg, quality, Round(maxWidth))
    ensures isPng && FallsBack(codec, quality, maxWidth, attempts) ==>
      EncodeOnce(codec, isPng, quality, maxWidth, attempts) == codec(Jpeg, quality, Round(maxWidth))
    ensures isPng && !FallsBack(codec, quality, maxWidth, attempts) ==>
      EncodeOnce(codec, isPng, quality, maxWidth, attempts) == codec(Png, quality, Round(maxWidth))
    ensures attempts <= PngFallbackAfter ==> !FallsBack(codec, quality, maxWidth, attempts)
  {
  }

  /** One attempt's encoding as a function of (quality, maxWidth, attempts). */
  type EncodeFn = (int, real, nat) -> Encoded

  /** The encoder the loop uses for one file. */
  function EncoderOf(codec: Codec, isPng: bool): EncodeFn {
    (quality: int, maxWidth: real, attempts: nat) => EncodeOnce(codec, isPng, quality, maxWidth, attempts)
  }

  datatype Attempt = Attempt(quality: int, maxWidth: real, output: Encoded)

  /** The attempts the loop makes from the state (quality, maxWidth, attempts). */
  function Search(encode: EncodeFn, quality: int, maxWidth: real, attempts: nat): seq<Attempt>
    requires attempts <= MaxAttempts
    decreases MaxAttempts - attempts
  {
    if attempts == MaxAttempts then []
    else
      var out := encode(quality, maxWidth, attempts);
      var here := Attempt(quality, maxWidth, out);
      if out.CodecError? || out.length <= TargetMaxSize then [here]
      else [here] + Search(encode, NextQuality(quality), NextWidth(quality, maxWidth), attempts + 1)
  }

  /** Below the quality floor the width shrinks and the quality starts again at 75. */
  function NextQuality(quality: int): int {
    if quality > QualityFloor then quality - QualityStep else ResetQuality
  }

  function NextWidth(quality: int, maxWidth: real): real {
    if quality > QualityFloor then maxWidth else maxWidth * ShrinkFactor
  }

  /** Every attempt made for an image of the given width. */
  function Plan(codec: Codec, isPng: bool, width: nat): seq<Attempt> {
    Search(EncoderOf(codec, isPng), InitialQuality, InitialWidth(width), 0)
  }

  /** The quality of the k-th attempt: 85, 75, 65, 55, then 75, 65, 55 at 80% width, then 75 at 64%. */
  function ScheduledQuality(k: nat): int
    requires k < MaxAttempts
  {
    if k < 4 then InitialQuality - QualityStep * k
    else if k < 7 then ResetQuality - QualityStep * (k - 4)
    else ResetQuality
  }

  /** How many times the width has been shrunk by the k-th attempt. */
  function Shrinks(k: nat): nat
    requires k < MaxAttempts
  {
    if k < 4 then 0 else if k < 7 then 1 else 2
  }

  /** `w` shrunk `n` times by 80%. */
  function Shrunk(w: real, n: nat): real {
    if n == 0 then w else Shrunk(w, n - 1) * ShrinkFactor
  }

  lemma {:induction false} ShrunkBounds(w: real, m: nat, n: nat)
    requires 0.0 <= w && m <= n
    ensures 0.0 <= Shrunk(w, n) <= Shrunk(w, m) <= w
    decreases n
  {
    if n > 0 {
      if m == n {
        ShrunkBounds(w, m - 1, n - 1);
      } else {
        ShrunkBounds(w, m, n - 1);
      }
    }
  }

  /** How the schedule moves from one attempt to the next. */
  lemma ScheduleStep(a: nat)
    requires a + 1 < MaxAttempts
    ensures ScheduledQuality(a) > QualityFloor ==>
      ScheduledQuality(a + 1) == ScheduledQuality(a) - QualityStep && Shrinks(a + 1) == Shrinks(a)
    ensures ScheduledQuality(a) <= QualityFloor ==>
      ScheduledQuality(a + 1) == ResetQuality && Shrinks(a + 1) == Shrinks(a) + 1
  {
  }

  lemma {:induction false} SearchFollowsSchedule(encode: EncodeFn, w0: real, a: nat)
    requires a < MaxAttempts
    ensures var s := Search(encode, ScheduledQuality(a), Shrunk(w0, Shrinks(a)), a);
            && 1 <= |s| <= MaxAttempts - a
            && forall k :: 0 <= k < |s| ==>
                 s[k].quality == ScheduledQuality(a + k) && s[k].maxWidth == Shrunk(w0, Shrinks(a + k))
    decreases MaxAttempts - a
  {
    var q, w := ScheduledQuality(a), Shrunk(w0, Shrinks(a));
    var out := encode(q, w, a);
    var here := Attempt(q, w, out);
    var s := Search(encode, q, w, a);
    if out.CodecError? || out.length <= TargetMaxSize {
      assert s == [here];
    } else {
      var q', w' := NextQuality(q), NextWidth(q, w);
      assert s == [here] + Search(encode, q', w', a + 1);
      if a + 1 == MaxAttempts {
        assert s == [here];
      } else {
        ScheduleStep(a);
        assert q' == ScheduledQuality(a + 1);
        assert w' == Shrunk(w0, Shrinks(a + 1));
        SearchFollowsSchedule(encode, w0, a + 1);
        var rest := Search(encode, q', w', a + 1);
        assert forall k :: 1 <= k < |s| ==> s[k] == rest[k - 1];
      }
    }
  }

  /**
   * The search schedule: between one and eight attempts, the k-th at the
   * tabled quality and at the tabled fraction of `min(width, 2560)`.
   */
  lemma PlanSchedule(codec: Codec, isPng: bool, width: nat)
    ensures var p := Plan(codec, isPng, width);
            && 1 <= |p| <= MaxAttempts
            && forall k :: 0 <= k < |p| ==>
                 p[k].quality == ScheduledQuality(k) && p[k].maxWidth == Shrunk(InitialWidth(width), Shrinks(k))
  {
    assert ScheduledQuality(0) == InitialQuality && Shrunk(InitialWidth(width), Shrinks(0)) == InitialWidth(width);
    SearchFollowsSchedule(EncoderOf(codec, isPng), InitialWidth(width), 0);
  }

  /** Quality stays within [55, 85]; the width asked of the codec never exceeds min(width, 2560), and never grows. */
  lemma PlanBounds(codec: Codec, isPng: bool, width: nat)
    ensures var p := Plan(codec, isPng, width);
            && (forall k :: 0 <= k < |p| ==> 55 <= p[k].quality <= 85)
            && (forall k :: 0 <= k < |p| ==> 0 <= Round(p[k].maxWidth) <= (if width > WidthCap then WidthCap else width))
            && (forall k :: 0 < k < |p| ==> p[k].maxWidth <= p[k - 1].maxWidth)
  {
    PlanSchedule(codec, isPng, width);
    var p := Plan(codec, isPng, width);
    var w0 := InitialWidth(width);
    forall k | 0 <= k < |p|
      ensures 0 <= Round(p[k].maxWidth) <= (if width > WidthCap then WidthCap else width)
    {
      ShrunkBounds(w0, 0, Shrinks(k));
    }
    forall k | 0 < k < |p|
      ensures p[k].maxWidth <= p[k - 1].maxWidth
    {
      ShrunkBounds(w0, Shrinks(k - 1), Shrinks(k));
    }
  }

  /** Every attempt of `s` but the last produced an output over 300 KiB. */
  ghost predicate TooLargeBeforeLast(s: seq<Attempt>) {
    forall k :: 0 <= k < |s| - 1 ==> s[k].output.Encoded? && s[k].output.length > TargetMaxSize
  }

  /** The search goes on only past outputs over 300 KiB. */
  lemma {:induction false} SearchContinuesOnlyWhenTooLarge(encode: EncodeFn, quality: int, maxWidth: real, attempts: nat)
    requires attempts <= MaxAttempts
    ensures TooLargeBeforeLast(Search(encode, quality, maxWidth, attempts))
    decreases MaxAttempts - attempts
  {
    if attempts < MaxAttempts {
      var out := encode(quality, maxWidth, attempts);
      var s := Search(encode, quality, maxWidth, attempts);
      if out.Encoded? && out.length > TargetMaxSize {
        var q', w' := NextQuality(quality), NextWidth(quality, maxWidth);
        var rest := Search(encode, q', w', attempts + 1);
        assert s == [Attempt(quality, maxWidth, out)] + rest;
        SearchContinuesOnlyWhenTooLarge(encode, q', w', attempts + 1);
        forall k | 0 <= k < |s| - 1
          ensures s[k].output.Encoded? && s[k].output.length > TargetMaxSize
        {
          if k == 0 {
            assert s[0] == Attempt(quality, maxWidth, out);
          } else {
            assert s[k] == rest[k - 1];
          }
        }
      }
    }
  }

  /** The search stops at the first output within 300 KiB (or failing), unless it ran out of attempts. */
  lemma {:induction false} SearchStopsAtFirstFit(encode: EncodeFn, quality: int, maxWidth: real, attempts: nat)
    requires attempts <= MaxAttempts
    ensures var s := Search(encode, quality, maxWidth, attempts);
            |s| > 0 && attempts + |s| < MaxAttempts ==>
              s[|s| - 1].output.CodecError? || s[|s| - 1].output.length <= TargetMaxSize
    decreases MaxAttempts - attempts
  {
    if attempts < MaxAttempts {
      var out := encode(quality, maxWidth, attempts);
      var s := Search(encode, quality, maxWidth, attempts);
      if out.Encoded? && out.length > TargetMaxSize {
        var q', w' := NextQuality(quality), NextWidth(quality, maxWidth);
        var rest := Search(encode, q', w', attempts + 1);
        assert s == [Attempt(quality, maxWidth, out)] + rest;
        SearchStopsAtFirstFit(encode, q', w', attempts + 1);
        if |rest| > 0 {
          assert s[|s| - 1] == rest[|rest| - 1];
        }
      } else {
        assert s == [Attempt(quality, maxWidth, out)];
      }
    }
  }

  /**
   * The output the search ends with from the state (quality, maxWidth,
   * attempts): that of the first attempt within 300 KiB or failing, or of
   * the eighth attempt.
   */
  function SearchResult(encode: EncodeFn, quality: int, maxWidth: real, attempts: nat): Encoded
    requires attempts < MaxAttempts
    decreases MaxAttempts - attempts
  {
    var out := encode(quality, maxWidth, attempts);
    if out.CodecError? || out.length <= TargetMaxSize || attempts + 1 == MaxAttempts then out
    else SearchResult(encode, NextQuality(quality), NextWidth(quality, maxWidth), attempts + 1)
  }

  /** The search's result is the output of its last attempt. */
  lemma {:induction false} SearchEndsWithResult(encode: EncodeFn, quality: int, maxWidth: real, attempts: nat)
    requires attempts < MaxAttempts
    ensures var s := Search(encode, quality, maxWidth, attempts);
            |s| > 0 && s[|s| - 1].output == SearchResult(encode, quality, maxWidth, attempts)
    decreases MaxAttempts - attempts
  {
    var out := encode(quality, maxWidth, attempts);
    if !(out.CodecError? || out.length <= TargetMaxSize) {
      var q', w' := NextQuality(quality), NextWidth(quality, maxWidth);
      var rest := Search(encode, q', w', attempts + 1);
      assert Search(encode, quality, maxWidth, attempts) == [Attempt(quality, maxWidth, out)] + rest;
      if attempts + 1 < MaxAttempts {
        SearchEndsWithResult(encode, q', w', attempts + 1);
      } else {
        assert rest == [];
      }
    }
  }

  /** The encoding of one attempt, with the PNG-to-JPEG fallback. */
  method Encode(codec: Codec, isPng: bool, quality: int, maxWidth: real, attempts: nat) returns (out: Encoded)
    ensures out == EncodeOnce(codec, isPng, quality, maxWidth, attempts)
    ensures !isPng || FallsBack(codec, quality, maxWidth, attempts) ==> out == codec(Jpeg, quality, Round(maxWidth))
    ensures isPng && !FallsBack(codec, quality, maxWidth, attempts) ==> out == codec(Png, quality, Round(maxWidth))
  {
    EncodeOnceEncoding(codec, isPng, quality, maxWidth, attempts);
    var w := Round(maxWidth);
    if isPng {
      out := codec(Png, quality, w);
      if out.Encoded? && out.length > PngFallbackSize && attempts > PngFallbackAfter {
        out := codec(Jpeg, quality, w);
      }
    } else {
      out := codec(Jpeg, quality, w);
    }
  }

  /**
   * The search loop of `compressImageCore`: its output is the one the
   * search ends with, that is the output of the last attempt of the plan
   * (SearchEndsWithResult). `original` stands for the input buffer the
   * source starts from, which the first attempt always replaces.
   */
  method SearchEncoding(codec: Codec, isPng: bool, width: nat, original: nat) returns (out: Encoded)
    ensures out == SearchResult(EncoderOf(codec, isPng), InitialQuality, InitialWidth(width), 0)
  {
    var quality := InitialQuality;
    var maxWidth := InitialWidth(width);
    var attempts: nat := 0;
    out := Encoded(original);
    ghost var encode := EncoderOf(codec, isPng);
    ghost var final := SearchResult(encode, quality, maxWidth, 0);
    while attempts < MaxAttempts
      invariant attempts <= MaxAttempts
      invariant attempts < MaxAttempts ==> SearchResult(encode, quality, maxWidth, attempts) == final
      invariant attempts == MaxAttempts ==> out == final
      decreases MaxAttempts - attempts
    {
      out := Encode(codec, isPng, quality, maxWidth, attempts);
      if out.CodecError? || out.length <= TargetMaxSize {
        break;
      }
      quality, maxWidth := LowerSettings(quality, maxWidth);
      attempts := attempts + 1;
    }
  }

  /** After an attempt over 300 KiB: a lower quality, or below the floor a smaller width and quality 75 again. */
  method LowerSettings(quality: int, maxWidth: real) returns (q: int, w: real)
    ensures q == NextQuality(quality) && w == NextWidth(quality, maxWidth)
  {
    if quality > QualityFloor {
      q, w := quality - QualityStep, maxWidth;
    } else {
      q, w := ResetQuality, maxWidth * ShrinkFactor;
    }
  }

  // ---------------------------------------------------------------------
  // The whole of compressImageCore for one file.

  /** What the file system and the decoder tell about one source file. */
  datatype SourceImage = SourceImage(
    size: nat,             // fs.stat(filePath).size
    width: Option<nat>,    // metadata().width; None when readFile or metadata throws
    writable: bool)        // whether writeFile succeeds

  datatype ErrorReason =
    | Unreadable
    | CodecFailed(reason: string)
    | WriteFailed
    | NoSelection          // selectedPaths[0] is undefined, so path.dirname throws

  datatype CompressionResult =
    | Success(file: Path, fullPath: Path, originalSize: nat, newSize: nat)
    | Failure(file: Path, fullPath: Path, error: ErrorReason)

  /** The result of compressing `file`, and the length written over it, if any. */
  function Compressed(file: Path, image: SourceImage, codec: Codec, isPng: bool, selectedPaths: seq<Path>)
    : (r: (CompressionResult, Option<nat>))
    ensures r.0.fullPath == file
    ensures r.0.Success? <==> r.1.Some? && |selectedPaths| > 0
    ensures r.1.Some? <==> (image.width.Some? && image.writable &&
      Plan(codec, isPng, image.width.value)[|Plan(codec, isPng, image.width.value)| - 1].output.Encoded?)
    ensures r.1.Some? ==> r.1.value == Plan(codec, isPng, image.width.value)[|Plan(codec, isPng, image.width.value)| - 1].output.length
    ensures r.0.Success? ==>
      r.0.file == Relative(Dirname(selectedPaths[0]), file) && r.0.originalSize == image.size && r.0.newSize == r.1.value
    ensures r.0.Failure? ==> r.0.file == file
    ensures r.0 == Failure(file, file, Unreadable) <==> image.width.None?
    ensures image.width.Some? && Plan(codec, isPng, image.width.value)[|Plan(codec, isPng, image.width.value)| - 1].output.CodecError? ==>
      r.0 == Failure(file, file, CodecFailed(Plan(codec, isPng, image.width.value)[|Plan(codec, isPng, image.width.value)| - 1].output.reason))
    ensures r.0 == Failure(file, file, WriteFailed) <==>
      (image.width.Some? && !image.writable &&
       Plan(codec, isPng, image.width.value)[|Plan(codec, isPng, image.width.value)| - 1].output.Encoded?)
    ensures r.0 == Failure(file, file, NoSelection) <==> r.1.Some? && |selectedPaths| == 0
  {
    match image.width
    case None => (Failure(file, file, Unreadable), None)
    case Some(w) =>
      PlanSchedule(codec, isPng, w);
      var p := Plan(codec, isPng, w);
      match p[|p| - 1].output
      case CodecError(e) => (Failure(file, file, CodecFailed(e)), None)
      case Encoded(n) =>
        if !image.writable then (Failure(file, file, WriteFailed), None)
        else if |selectedPaths| == 0 then (Failure(file, file, NoSelection), Some(n))
        else (Success(Relative(Dirname(selectedPaths[0]), file), file, image.size, n), Some(n))
  }

  /** `compressImageCore(filePath, selectedPaths)`, with `.png` decided from the file's extension. */
  method CompressImageCore(file: Path, image: SourceImage, codec: Codec, isPng: bool, selectedPaths: seq<Path>)
    returns (result: CompressionResult, written: Option<nat>)
    ensures (result, written) == Compressed(file, image, codec, isPng, selectedPaths)
  {
    if image.width.None? {
      return Failure(file, file, Unreadable), None;
    }
    var out := SearchEncoding(codec, isPng, image.width.value, image.size);
    SearchEndsWithResult(EncoderOf(codec, isPng), InitialQuality, InitialWidth(image.width.value), 0);
    ghost var plan := Plan(codec, isPng, image.width.value);
    assert plan[|plan| - 1].output == out;
    if out.CodecError? {
      return Failure(file, file, CodecFailed(out.reason)), None;
    }
    if !image.writable {
      return Failure(file, file, WriteFailed), None;
    }
    written := Some(out.length);
    if |selectedPaths| == 0 {
      result := Failure(file, file, NoSelection);
    } else {
      result := Success(Relative(Dirname(selectedPaths[0]), file), file, image.size, out.length);
    }
  }
}
