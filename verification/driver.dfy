/**
  The pure parts of the batch driver: classifying a file name, the tiers
  produced for one image, the output and direct-copy names, and where each
  engine return code lands (generated, error, or copied directly).
 */
module Driver {
  import opened Wrappers
  import opened Strings
  import opened TierCatalog
  import opened Resizer

  /** Extensions handled as images (`EXTS`). */
  const Exts: seq<string> := ["jpg", "jpeg", "png", "avif", "webp"]

  /** The marker an original carries before its extension. */
  const Marker: string := "_orig."

  /** The text the direct-copy rename replaces. */
  const MarkerStem: string := "_orig"

  const OrigSizeSuffix: string := "_origsize"
  const OutputExtension: string := ".avif"

  /** The last dot-separated segment of a name (`file.split(".")[-1]`): the text after the last dot, or the whole name. */
  function Extension(file: string): (ext: string)
    ensures !Contains(ext, ".")
    ensures EndsWith(file, ext)
    ensures ext == file || (|ext| < |file| && file[|file| - |ext| - 1] == '.')
  {
    var parts := Split(file, ".");
    SplitPiecesFree(file, ".");
    LastSegment(file);
    parts[|parts| - 1]
  }

  /** The last dot-separated segment is a suffix, preceded by a dot unless it is the whole name. */
  lemma LastSegment(file: string)
    ensures var p := Split(file, "."); var last := p[|p| - 1];
      && EndsWith(file, last)
      && (last == file || (|last| < |file| && file[|file| - |last| - 1] == '.'))
  {
    var p := Split(file, ".");
    var last := p[|p| - 1];
    SplitLast(file, ".");
    if |p| > 1 {
      var k := |file| - |last| - 1;
      assert file[k..k + 1] == ".";
      assert file[k] == file[k..k + 1][0];
    }
  }

  /** Casefolded extension in `EXTS`. */
  predicate IsImageName(file: string)
  {
    LowerAscii(Extension(file)) in Exts
  }

  /** What the driver does with a file: copy it verbatim, report it unmarked, or convert it under the base name before the marker. */
  datatype FileKind = CopyVerbatim | UnmarkedImage | MarkedImage(base: string)

  function Classify(file: string): (k: FileKind)
    ensures k.CopyVerbatim? <==> !IsImageName(file)
    ensures k.UnmarkedImage? <==> IsImageName(file) && !Contains(file, Marker)
    ensures k.MarkedImage? <==> IsImageName(file) && Contains(file, Marker)
    ensures k.MarkedImage? ==>
      && |k.base| + |Marker| <= |file|
      && file[..|k.base|] == k.base
      && OccursAt(file, Marker, |k.base|)
      && !Contains(k.base, Marker)
      && forall j :: 0 <= j < |k.base| ==> !OccursAt(file, Marker, j)
  {
    if !IsImageName(file) then CopyVerbatim
    else if !Contains(file, Marker) then UnmarkedImage
    else
      var i := Find(file, Marker).value;
      SplitStep(file, Marker, i);
      SplitPiecesFree(file, Marker);
      MarkedImage(Split(file, Marker)[0])
  }

  predicate StrictlyDecreasing(s: seq<int>)
  {
    forall i, j :: 0 <= i < j < |s| ==> s[i] > s[j]
  }

  /** The breakpoints not above `maxDim`, kept in catalog order. */
  function BreakpointsUpTo(bps: seq<int>, maxDim: int): (r: seq<int>)
    ensures forall x :: x in r <==> x in bps && x <= maxDim
    ensures StrictlyDecreasing(bps) ==> StrictlyDecreasing(r)
  {
    if |bps| == 0 then []
    else
      var rest := BreakpointsUpTo(bps[1..], maxDim);
      assert StrictlyDecreasing(bps) ==> StrictlyDecreasing(bps[1..]);
      if bps[0] <= maxDim then
        var r := [bps[0]] + rest;
        assert StrictlyDecreasing(bps) ==> StrictlyDecreasing(r) by {
          if StrictlyDecreasing(bps) {
            forall i, j | 0 <= i < j < |r| ensures r[i] > r[j] {
              assert r[j] in bps[1..];
              if i > 0 {
                assert r[i] == rest[i - 1] && r[j] == rest[j - 1];
              }
            }
          }
        }
        r
      else rest
  }

  /**
    The tiers produced for an image whose longer side is `maxDim`: the
    breakpoints not above it, each once and in catalog order, followed by
    `maxDim` itself when the catalog allows it (so a native size equal to a
    breakpoint is listed twice).
   */
  function TierList(maxDim: nat): (r: seq<int>)
    // every tier passes the engine's guard
    ensures forall i :: 0 <= i < |r| ==> 0 <= r[i] <= MaxDimension
    // the native size is appended exactly when the catalog allows it
    ensures maxDim <= MaxDimension <==> |r| > 0 && r[|r| - 1] == maxDim
    // before it: exactly the breakpoints not above the native size, each once, in catalog order
    ensures var pre := if maxDim <= MaxDimension then r[..|r| - 1] else r;
      && StrictlyDecreasing(pre)
      && (forall x :: x in pre <==> x in Breakpoints && x <= maxDim)
  {
    var upTo := BreakpointsUpTo(Breakpoints, maxDim);
    assert StrictlyDecreasing(Breakpoints);
    assert forall i :: 0 <= i < |upTo| ==> upTo[i] in upTo;
    if maxDim <= MaxDimension then
      assert (upTo + [maxDim])[..|upTo|] == upTo;
      upTo + [maxDim]
    else
      assert |upTo| > 0 ==> upTo[|upTo| - 1] in upTo;
      upTo
  }

  /** What follows the digits in a size identifier: nothing for a breakpoint, `_origsize` otherwise. */
  function IdentifierSuffix(d: nat): (suffix: string)
    ensures |suffix| == 0 || suffix[0] == '_'
  {
    if d in Breakpoints then "" else OrigSizeSuffix
  }

  /** The size part of an output name: the dimension, marked `_origsize` when it is not a breakpoint. */
  function SizeIdentifier(d: nat): string
  {
    NatToString(d) + IdentifierSuffix(d)
  }

  /** A size identifier carries the `_origsize` mark iff the dimension is not a breakpoint. */
  lemma SizeIdentifierMark(d: nat)
    ensures EndsWith(SizeIdentifier(d), OrigSizeSuffix) <==> d !in Breakpoints
  {
    var digits := NatToString(d);
    if d !in Breakpoints {
      assert SizeIdentifier(d)[|SizeIdentifier(d)| - |OrigSizeSuffix|..] == OrigSizeSuffix;
    } else {
      assert SizeIdentifier(d) == digits;
      if |OrigSizeSuffix| <= |digits| {
        assert digits[|digits| - |OrigSizeSuffix|] in digits;
      }
    }
  }

  /** The dimension reads back from the leading digits of its size identifier. */
  lemma SizeIdentifierRoundTrip(d: nat)
    ensures ParseNat(TakeDigits(SizeIdentifier(d))) == d
  {
    TakeDigitsOf(NatToString(d), IdentifierSuffix(d));
    ParseNatToString(d);
  }

  /** The output name of tier `d` for an original whose base name is `base`. */
  function OutputFilename(base: string, d: nat): (name: string)
    ensures |base| + 1 <= |name| && name[..|base| + 1] == base + "_"
    ensures EndsWith(name, OutputExtension)
    ensures ParseNat(TakeDigits(name[|base| + 1..])) == d
    // the digit run is never empty: `base_` is followed by a digit
    ensures |base| + 1 < |name| && IsDigit(name[|base| + 1])
    // nothing but the decimal digits, the mark when it applies, and `.avif` follows `base_`
    ensures |name| == |base| + 1 + |NatToString(d)| + (if d in Breakpoints then 0 else |OrigSizeSuffix|) + |OutputExtension|
    // the `_origsize` mark sits before `.avif` exactly when the dimension is not a breakpoint
    ensures EndsWith(name, OrigSizeSuffix + OutputExtension) <==> d !in Breakpoints
  {
    NameParts(base, d);
    NameMark(base, d);
    base + "_" + SizeIdentifier(d) + OutputExtension
  }

  /** The prefix, suffix, digits and length of a name `base_<identifier>.avif`. */
  lemma NameParts(base: string, d: nat)
    ensures var name := base + "_" + SizeIdentifier(d) + OutputExtension;
      && |base| + 1 <= |name| && name[..|base| + 1] == base + "_"
      && EndsWith(name, OutputExtension)
      && ParseNat(TakeDigits(name[|base| + 1..])) == d
      && |base| + 1 < |name| && IsDigit(name[|base| + 1])
      && |name| == |base| + 1 + |NatToString(d)| + |IdentifierSuffix(d)| + |OutputExtension|
  {
    var prefix, digits, suffix := base + "_", NatToString(d), IdentifierSuffix(d);
    var name := base + "_" + SizeIdentifier(d) + OutputExtension;
    assert name == prefix + digits + suffix + OutputExtension;
    assert |prefix| == |base| + 1;
    assert OutputExtension[0] == '.';
    DigitsBetween(prefix, digits, suffix, OutputExtension);
    assert TakeDigits(name[|prefix|..]) == digits;
    ParseNatToString(d);
  }

  /** A name `base_<identifier>.avif` carries `_origsize` before `.avif` iff the dimension is not a breakpoint. */
  lemma NameMark(base: string, d: nat)
    ensures EndsWith(base + "_" + SizeIdentifier(d) + OutputExtension, OrigSizeSuffix + OutputExtension) <==> d !in Breakpoints
  {
    var id := SizeIdentifier(d);
    var stem := base + "_" + id;
    EndsWithAppend(stem, OrigSizeSuffix, OutputExtension);
    if d !in Breakpoints {
      SizeIdentifierMark(d);
      EndsWithExtend(base + "_", id, OrigSizeSuffix);
    } else {
      var digits := NatToString(d);
      assert id == digits;
      // the name's stem ends in a digit, where the mark ends in `e`
      assert stem[|stem| - 1] == digits[|digits| - 1];
      LastCharDiffers(stem, OrigSizeSuffix);
    }
  }

  /**
    A name built as prefix, digit run, suffix and extension starts with the
    prefix, ends with the extension, has the four lengths added up, and its
    digit run is read back whole when neither the suffix nor the extension
    starts with a digit.
   */
  lemma DigitsBetween(prefix: string, digits: string, suffix: string, ext: string)
    requires AllDigits(digits)
    requires |suffix| > 0 ==> !IsDigit(suffix[0])
    requires |ext| > 0 ==> !IsDigit(ext[0])
    ensures var x := prefix + digits + suffix + ext;
      && |x| == |prefix| + |digits| + |suffix| + |ext|
      && x[..|prefix|] == prefix
      && EndsWith(x, ext)
      && TakeDigits(x[|prefix|..]) == digits
      && (|digits| > 0 ==> IsDigit(x[|prefix|]))
  {
    var x := prefix + digits + suffix + ext;
    assert x == prefix + (digits + (suffix + ext));
    assert x[|prefix|..] == digits + (suffix + ext);
    assert |digits| > 0 ==> x[|prefix|] == digits[0];
    assert x == (prefix + digits + suffix) + ext;
    if |suffix| > 0 {
      assert (suffix + ext)[0] == suffix[0];
    } else {
      assert suffix + ext == ext;
    }
    TakeDigitsOf(digits, suffix + ext);
  }

  /** The text that replaces `_orig` in a direct copy of tier `d`. */
  function DirectCopyTag(d: nat): string
  {
    "_" + NatToString(d) + "_directcopy"
  }

  /** The name a direct copy gets: every `_orig` replaced by `_<d>_directcopy`. */
  function DirectCopyName(file: string, d: nat): string
  {
    ReplaceAll(file, MarkerStem, DirectCopyTag(d))
  }

  /** Why a tier ended up in the error list. */
  datatype ErrorReason = OpenFailed | TransformFailed | TargetMissing | UnknownReturn

  /** The message the driver records with each reason. */
  function ReasonText(reason: ErrorReason): string
  {
    match reason
    case OpenFailed => "Image.open() failed on source"
    case TransformFailed => "ImageMagick reported an error during transform"
    case TargetMissing => "Target file was not generated after ImageMagick call"
    case UnknownReturn => "Unknown return value from resize()"
  }

  /** Where one return code lands. */
  datatype Bucket =
    | Generated(path: string)
    | Failed(path: string, reason: ErrorReason)
    | CopiedDirectly(path: string)
    | Ignored

  /** The driver's dispatch on the engine's return code for tier `d`. */
  function Dispatch(code: int, outputName: string, file: string, d: nat): Bucket
  {
    if code == 0 then Generated(outputName)
    else if code == -1 then Failed(outputName, OpenFailed)
    else if code == -2 then Failed(outputName, TransformFailed)
    else if code == -3 then Failed(outputName, TargetMissing)
    else if code == 1 then Ignored
    else if code == 2 then CopiedDirectly(DirectCopyName(file, d))
    else Failed(outputName, UnknownReturn)
  }

  /** One tier of one image: its dimension, output name, engine run and bucket. */
  datatype Job = Job(dimension: nat, outputName: string, resolution: Resolution, bucket: Bucket)

  /** Tier `d` of a readable original, to be written under `name`: run the engine, dispatch on its code. */
  function RunTier(file: string, name: string, source: SourceImage, d: nat, transcoder: Call -> Attempt): (job: Job)
    requires d <= MaxDimension
    requires source.dims.Some?
    ensures job.dimension == d && job.outputName == name
    ensures job.resolution == Resolve(d, source, transcoder)
    ensures job.resolution.Resolved?
  {
    var res := Resolve(d, source, transcoder);
    Job(d, name, res, Dispatch(Code(res.trace.outcome), name, file, d))
  }

  /**
    Where a tier of a readable original lands: the engine never reports the
    source unreadable, every outcome goes to its own bucket, and code 1 and
    the catch-all are never reached.
   */
  lemma RunTierBuckets(file: string, name: string, source: SourceImage, d: nat, transcoder: Call -> Attempt)
    requires d <= MaxDimension
    requires source.dims.Some?
    ensures var job := RunTier(file, name, source, d, transcoder);
      var o := job.resolution.trace.outcome;
      && o != SourceUnreadable
      && (job.bucket == Generated(job.outputName) <==> o == Success)
      && (job.bucket == Failed(job.outputName, TransformFailed) <==> o == TranscodeFailed)
      && (job.bucket == Failed(job.outputName, TargetMissing) <==> o == OutputMissing)
      && (job.bucket == CopiedDirectly(DirectCopyName(file, d)) <==> o == UseDirectCopy)
      && !job.bucket.Ignored?
      && job.bucket != Failed(job.outputName, UnknownReturn)
  {
    var job := RunTier(file, name, source, d, transcoder);
    ResolveEarlyExits(d, source, transcoder);
    DispatchOutcome(job.resolution.trace.outcome, job.outputName, file, d);
  }

  /**
    The dispatch table: 0 is generated under the output name; -1, -2 and -3
    are errors for the output name with their own reasons; 1 is ignored; 2
    is copied directly under the direct-copy name; every other code is an
    error with the unknown-return reason.
   */
  lemma DispatchTable(code: int, name: string, file: string, d: nat)
    ensures var b := Dispatch(code, name, file, d);
      && (b == Generated(name) <==> code == 0)
      && (b == Failed(name, OpenFailed) <==> code == -1)
      && (b == Failed(name, TransformFailed) <==> code == -2)
      && (b == Failed(name, TargetMissing) <==> code == -3)
      && (b.Ignored? <==> code == 1)
      && (b == CopiedDirectly(DirectCopyName(file, d)) <==> code == 2)
      && (b == Failed(name, UnknownReturn) <==> code !in {0, -1, -2, -3, 1, 2})
  {
  }

  /** The code of every outcome a readable source can have lands in that outcome's own bucket. */
  lemma DispatchOutcome(o: Outcome, name: string, file: string, d: nat)
    requires o != SourceUnreadable
    ensures var b := Dispatch(Code(o), name, file, d);
      && (b == Generated(name) <==> o == Success)
      && (b == Failed(name, TransformFailed) <==> o == TranscodeFailed)
      && (b == Failed(name, TargetMissing) <==> o == OutputMissing)
      && (b == CopiedDirectly(DirectCopyName(file, d)) <==> o == UseDirectCopy)
      && !b.Ignored?
      && b != Failed(name, UnknownReturn)
  {
  }

  /** A marked original of `width` x `height` and `byteSize` bytes through every tier of its tier list. */
  function ProcessImage(file: string, width: nat, height: nat, byteSize: nat, transcoder: Call -> Attempt): (jobs: seq<Job>)
    ensures |jobs| == |TierList(Max(width, height))|
    ensures forall i :: 0 <= i < |jobs| ==>
      && jobs[i].dimension == TierList(Max(width, height))[i]
      && jobs[i].resolution.Resolved?
      && jobs[i] == RunTier(file, OutputFilename(Split(file, Marker)[0], jobs[i].dimension),
                            SourceImage(Some(Dims(width, height)), byteSize), jobs[i].dimension, transcoder)
  {
    var tiers := TierList(Max(width, height));
    var base := Split(file, Marker)[0];
    var source := SourceImage(Some(Dims(width, height)), byteSize);
    seq(|tiers|, i requires 0 <= i < |tiers| =>
      assert tiers[i] in tiers;
      RunTier(file, OutputFilename(base, tiers[i] as nat), source, tiers[i] as nat, transcoder))
  }

  /** No match of `_orig` can start inside `base` when the text after it begins with `_`. */
  lemma NoStemBefore(base: string, rest: string)
    requires !Contains(base, MarkerStem)
    requires |rest| > 0 && rest[0] == '_'
    ensures forall j :: 0 <= j < |base| ==> !OccursAt(base + rest, MarkerStem, j)
  {
    var s := base + rest;
    forall j | 0 <= j < |base|
      ensures !OccursAt(s, MarkerStem, j)
    {
      if j + |MarkerStem| <= |base| {
        assert base[j..j + |MarkerStem|] == s[j..j + |MarkerStem|];
        assert !OccursAt(base, MarkerStem, j);
      } else if j + |MarkerStem| <= |s| {
        assert s[j..j + |MarkerStem|][|base| - j] == s[|base|] == '_';
        assert MarkerStem[|base| - j] != '_';
      }
    }
  }

  /** The extension of `<base>_orig.<ext>` is `<ext>` when `<ext>` has no dot. */
  lemma ExtensionOfMarkedName(base: string, ext: string)
    requires !Contains(ext, ".")
    ensures Extension(base + Marker + ext) == ext
  {
    var file := base + Marker + ext;
    var last := Extension(file);
    assert file[|file| - |ext| - 1] == '.';
    if |last| > |ext| {
      assert last[|last| - |ext| - 1] == file[|file| - |ext| - 1];
      assert OccursAt(last, ".", |last| - |ext| - 1);
    } else if |last| < |ext| {
      assert ext[|ext| - |last| - 1] == file[|file| - |last| - 1];
      assert OccursAt(ext, ".", |ext| - |last| - 1);
    }
  }

  /** The base of `<base>_orig.<ext>` is `<base>` when `<base>` has no `_orig`. */
  lemma BaseOfMarkedName(base: string, ext: string)
    requires !Contains(base, MarkerStem)
    requires IsImageName(base + Marker + ext)
    ensures Classify(base + Marker + ext) == MarkedImage(base)
  {
    var file := base + Marker + ext;
    NoStemBefore(base, Marker + ext);
    assert file == base + (Marker + ext);
    assert Marker[..|MarkerStem|] == MarkerStem;
    forall j | 0 <= j < |base|
      ensures !OccursAt(file, Marker, j)
    {
      NoLongerOccurrence(file, Marker, j, |MarkerStem|);
    }
    assert file[|base|..|base| + |Marker|] == Marker;
    assert OccursAt(file, Marker, |base|);
    var k := Classify(file);
    assert |k.base| == |base|;
    assert k.base == file[..|base|];
  }

  /** A dot in front of a name free of `_orig` does not create one. */
  lemma NoStemAfterDot(ext: string)
    requires !Contains(ext, MarkerStem)
    ensures !Contains("." + ext, MarkerStem)
  {
    var tail := "." + ext;
    forall j | 0 <= j <= |tail|
      ensures !OccursAt(tail, MarkerStem, j)
    {
      if j == 0 && |MarkerStem| <= |tail| {
        assert tail[..|MarkerStem|][0] == '.' != MarkerStem[0];
      } else if 0 < j && j + |MarkerStem| <= |tail| {
        assert tail[j..j + |MarkerStem|] == ext[j - 1..j - 1 + |MarkerStem|];
        assert !OccursAt(ext, MarkerStem, j - 1);
      }
    }
  }

  /** `<base>_orig.<ext>` splits at `_orig` into `<base>` and `.<ext>` when neither part has `_orig`. */
  lemma SplitMarkedName(base: string, ext: string)
    requires !Contains(base, MarkerStem) && !Contains(ext, MarkerStem)
    ensures Split(base + Marker + ext, MarkerStem) == [base, "." + ext]
  {
    var tail := "." + ext;
    assert base + Marker + ext == base + MarkerStem + tail == base + (MarkerStem + tail);
    NoStemBefore(base, MarkerStem + tail);
    SplitAt(base, MarkerStem, tail);
    NoStemAfterDot(ext);
    SplitWithout(tail, MarkerStem);
  }

  /** The direct copy of `<base>_orig.<ext>` is `<base>_<d>_directcopy.<ext>` when neither part has `_orig`. */
  lemma DirectCopyOfMarkedName(base: string, ext: string, d: nat)
    requires !Contains(base, MarkerStem) && !Contains(ext, MarkerStem)
    ensures DirectCopyName(base + Marker + ext, d) == base + DirectCopyTag(d) + "." + ext
  {
    SplitMarkedName(base, ext);
    JoinCons(DirectCopyTag(d), base, ["." + ext]);
    assert [base] + ["." + ext] == [base, "." + ext];
  }
}
