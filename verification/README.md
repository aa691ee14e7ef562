# Batch AVIF resizer — a Dafny model of the resolution engine and the driver's pure parts

The repository turns a tree of original images (files named `<base>_orig.<ext>`)
into AVIF derivatives at several resolution tiers, each held under a byte
budget by lowering the encoder quality step by step. This project models,
in `image_autoresize.py`:

- the **tier catalog** `IMAGE_SIZES` and the budget lookup (`tiers.dfy`,
  module `TierCatalog`): the first row with `hi >= size >= lo`, else the
  last row;
- the **resolution engine** `Resizer.__new__` (`resizer.dfy`, module
  `Resizer`): the guard on over-large targets, the source read, the choice
  of resize, the cheap "already small" skip, the descending quality search
  80, 75, ..., 50 with its early exits, and the final comparison with the
  source size. It is written twice: as the recursive function `Resolve`
  and as the method `RunResizer`, whose quality loop `SearchLoop` has the
  shape of the source's `while` loop; the method is proved to compute
  exactly what the function computes;
- the **pure parts of the batch driver** (`driver.dfy`, module `Driver`):
  extension classification, the `_orig.` marker test, the per-image tier
  list, the size identifier and output name, the direct-copy rename and the
  dispatch of return codes into generated / error / copied-directly;
- the Python string operations those rely on (`strings.dfy`, module
  `Strings`): `in`, `split`, `join`, lower-casing and `f"{n}"`.

`scenarios.dfy` states the outcome of five concrete requests.

The image reader becomes the `dims` field of `SourceImage` (`None` when
the file cannot be opened). ImageMagick becomes a function
`transcoder: Call -> Attempt`, from the geometry and quality it is asked
for to its exit status, whether it wrote an output, and that output's byte
size. The return codes 0, -1, -2, -3, 2 become the datatype `Outcome`. The
exception raised for a target above 2560 becomes the value `GuardRaised`.
A request's `Trace` records the outcome, the transcoder calls in order,
whether the destination was cleared, and the size of the artifact this
request left there (`None` when it wrote none). A file that was already at
the destination before the request is not part of the model: on -1 and on
the cheap skip the source returns before its deletion step, so such a file
stays, and the trace still records `None`. The artifact includes an output a failing transcoder wrote before exiting
non-zero: nothing removes it before the engine returns -2.

The multiplier 0.4 is replaced by the exact comparison
`10 * sourceBytes < 4 * budget` (`AlreadySmall`). For the three budgets in
the catalog, `budget * 0.4` evaluates in IEEE double precision to exactly
200000, 120000 and 40000. So for whole-number file sizes the two tests agree.

Where the code and its comments disagree, the model follows the code. The
comment at line 92 says the quality bottoms out at 60; the loop runs down
to `LOWEST_QUALITY` = 50. The comment at line 30 says a size of 0 means no
resize; the code has no such case, and `ResizeFor` resizes to 0 unless the
source's longer side is itself 0. The budget lookup is the list comprehension at
line 64, `hi >= size and lo <= size`, with the fallback to the last row at
line 65.

A source whose longer side equals a breakpoint (say 2048) gets that tier
twice: `TierList(2048)` is `[2048, 1024, 2048]`, as the code at lines
207-209 builds it. The model keeps this, and the contract of `TierList`
states it: the breakpoints come once each, in catalog order, and the native
size is appended after them.

## Model

| member | source | states |
|---|---|---|
| TierCatalog.FirstMatch | image_autoresize.py:64-65 | the index of the first catalog row whose range holds the size, or the row count when none does; every earlier row misses |
| TierCatalog.MatchingRows | image_autoresize.py:64 | the filtered rows are exactly the matching rows; the filter is non-empty iff some row matches, and its head is the first matching row |
| TierCatalog.BudgetFor | image_autoresize.py:64-67 | the budget is that of the first matching row, or of the last row when no row matches |
| TierCatalog.BudgetRanges | image_autoresize.py:14-19 | sizes 0..1024 get 100000 bytes, 1025..2048 get 300000, 2049..2560 get 500000; a negative size or one above 2560 falls back to 100000 |
| TierCatalog.SkipThresholds | image_autoresize.py:72 | the cheap skip `AlreadySmall` fires below 200000, 120000 and 40000 bytes for the three catalog budgets, the values of `budget * 0.4` |
| Resizer.Code | image_autoresize.py:32-38 | every outcome's code is one of 0, -1, -2, -3, 2 |
| Resizer.CodeRoundTrip | image_autoresize.py:32-38 | codes and outcomes correspond one to one: reading a code back gives the outcome, and code 1 is never produced |
| Resizer.ResizeFor | image_autoresize.py:56-61 | no resize exactly when the source's longer side equals the target; otherwise the bound is the target, on the width when the width is strictly larger and on the height otherwise, ties included (the choice made at line 85) |
| Resizer.SearchShape | image_autoresize.py:90-118 | the quality search `QualitySearch` calls the transcoder at 80, 75, ... with no step skipped and never below 50; every call but the last ran cleanly and exceeded the budget; a non-zero exit ends it as a tool failure, a missing output as no output, otherwise it settles on the last output's size, which fits the budget unless that call was at the floor |
| Resizer.SearchLoop | image_autoresize.py:90-118 | the `while quality >= 50` loop with its early returns and `break` produces the same end and the same calls as the recursive search |
| Resizer.Resolve | image_autoresize.py:41-42 | the request raises iff the target exceeds 2560, the largest catalog size |
| Resizer.ResolveEarlyExits | image_autoresize.py:41-82 | below the guard the request always resolves; it gives -1 iff the source is unreadable, then with no call and the destination untouched; a readable source below 0.4 of the budget gives 2 with no call and no deletion; otherwise at least one call is made; the destination is cleared iff the transcoder was called |
| Resizer.ResolveSearch | image_autoresize.py:85-127 | for a readable source: at most 7 calls, at qualities 80 - 5i, each with the resize chosen from the source; every call but the last ran cleanly and exceeded the budget; the last call decides -2 (non-zero exit, with whatever output it wrote left as the artifact) or -3 (no output, no artifact); otherwise the artifact is that call's output, the result is 2 iff it is not smaller than the source and 0 iff it is, and an artifact still over budget means all 7 qualities were tried |
| Resizer.RunResizer | image_autoresize.py:41-127 | the statement-by-statement engine returns exactly the resolution of `Resolve` |
| Driver.Extension | image_autoresize.py:178-179 | the extension is the text after the last dot, containing no dot, or the whole name when there is no dot |
| Driver.Classify | image_autoresize.py:177-190 | a name is copied verbatim iff its casefolded extension is not in `EXTS`, reported unmarked iff it is an image without `_orig.`, and converted otherwise; the base is the text before the first `_orig.` and contains none |
| Driver.BreakpointsUpTo | image_autoresize.py:207 | keeps exactly the breakpoints not above the native size, in catalog (strictly decreasing) order |
| Driver.TierList | image_autoresize.py:200-209 | every tier is between 0 and 2560, so the engine's guard never fires from the driver; the native size is appended last iff it is at most 2560; the entries before it are exactly the breakpoints not above the native size, each once, strictly decreasing |
| Driver.SizeIdentifierMark | image_autoresize.py:215-217 | the size identifier `SizeIdentifier` ends in `_origsize` iff the dimension is not a breakpoint |
| Driver.SizeIdentifierRoundTrip | image_autoresize.py:215-217 | the dimension reads back from the leading digits of `SizeIdentifier` |
| Driver.OutputFilename | image_autoresize.py:215-218 | the output name starts with the base and `_`, ends in `.avif`, the text after the base and `_` starts with a digit and the dimension reads back from its digits, it ends in `_origsize.avif` iff the dimension is not a breakpoint, and its length leaves room for nothing but the decimal digits, `_origsize` when the dimension is not a breakpoint, and `.avif` |
| Driver.RunTier | image_autoresize.py:226 | for a readable source and a tier within the guard: the job carries the tier, the output name it is given, and the engine's resolution (`Resolve`) for that tier, which never raises |
| Driver.RunTierBuckets | image_autoresize.py:226-267 | for a readable source and a tier within the guard: the engine never reports the source unreadable; the tier is generated iff the outcome is 0; it is an error for the output name with the transform reason iff the outcome is -2 and with the missing-target reason iff it is -3; it is copied directly under the direct-copy name iff the outcome is 2; code 1 and the unknown-return branch are never reached |
| Driver.DispatchTable | image_autoresize.py:228-267 | the dispatch `Dispatch` of every return code: 0 generated under the output name; -1, -2, -3 errors for the output name with their own reasons; 1 ignored; 2 copied directly under the direct-copy name; every other code an error with the unknown-return reason |
| Driver.ProcessImage | image_autoresize.py:207-226 | one job per entry of the tier list, in order, each one the run of that tier under its output name `OutputFilename(base, tier)` with the base before the first `_orig.`, none of them raising |
| Driver.ExtensionOfMarkedName | image_autoresize.py:178 | for `<base>_orig.<ext>` with no dot in `<ext>`, the extension is `<ext>` |
| Driver.BaseOfMarkedName | image_autoresize.py:190 | for an image name `<base>_orig.<ext>` with no `_orig` in `<base>`, the base is `<base>` |
| Driver.DirectCopyOfMarkedName | image_autoresize.py:256 | for `<base>_orig.<ext>` with no `_orig` in either part, the rename `DirectCopyName` of tier d is `<base>_<d>_directcopy.<ext>` |
| Strings.Find | image_autoresize.py:185 | finds an occurrence iff the pattern is in the string, and it is the first one |
| Strings.Split | image_autoresize.py:178 | `split` yields at least one piece |
| Strings.SplitPiecesFree | image_autoresize.py:178 | no piece of a split contains the separator |
| Strings.JoinSplit | image_autoresize.py:256 | joining the pieces of a split with the same separator gives the string back |
| Strings.SplitLast | image_autoresize.py:178 | the last piece of a split is a suffix, the whole string iff there was one piece, and preceded by the separator otherwise |
| Strings.NatToString | image_autoresize.py:215 | the decimal rendering is non-empty, all digits, with no leading zero |
| Strings.ParseNatToString | image_autoresize.py:215 | parsing the decimal rendering gives the number back |
| Strings.LowerChar | image_autoresize.py:179 | lower-casing a character moves `A`..`Z` to the matching `a`..`z`, leaves every other character, and leaves no upper-case ASCII letter |
| Strings.LowerAscii | image_autoresize.py:179 | the lower-cased string (the model of `casefold`) has the same length, no upper-case ASCII letter, each upper-case letter replaced by its lower-case partner and every other character kept |
| Strings.LowerAsciiIdempotent | image_autoresize.py:179 | lower-casing is idempotent, and leaves a string without upper-case letters (such as every entry of `EXTS`) unchanged |
| Scenarios.LandscapeFitsAtFirstQuality | image_autoresize.py:41-127 | a 3000x2000 source of 280000 bytes at 2048 whose first output is 260000 bytes succeeds after one call bounding the width |
| Scenarios.SmallExactTierIsCopied | image_autoresize.py:56-74 | a 1024x768 source of 30000 bytes at 1024 gives 2 with no transcoder call, whatever the transcoder |
| Scenarios.ToolFailureStopsSearch | image_autoresize.py:100-104 | a non-zero exit at quality 80 gives -2 after that single call |
| Scenarios.ToolFailureLeavesOutput | image_autoresize.py:100-104 | a non-zero exit at quality 80 after writing a 5000-byte output gives -2 with that output left as the artifact |
| Scenarios.BudgetNeverMet | image_autoresize.py:90-127 | when every output is over budget, all 7 qualities are tried, the last at 50, and the quality-50 artifact is kept |

## Left out

- Directory walking, `makedirs`, `shutil.copy2`, `rmtree`, `os.remove` and the `--wipe` / `--skip-existing` flags: filesystem and command-line plumbing. Output paths are modelled as file names, without the output directory.
- The destination's state before a request: a file already there survives a -1 or cheap-skip return, and the trace does not record it.
- Decoding with `Image.open`: it is modelled only as "readable with these dimensions" or "unreadable".
- The ImageMagick command line, `os.system` and `os.WEXITSTATUS`: the transcoder is the `transcoder` parameter. The exact flag text (colour space, Lanczos filter, AVIF speed and chroma settings) is not modelled. Only the geometry (`ResizeSpec`) and the quality are. ImageMagick's shrink-only `\>` is the tool's behaviour and is not modelled either.
- The command at line 100 reads the loop variables `root` and `file` of the driver instead of `source`; the model's transcoder input is the request's own source.
- The driver's error path at lines 193-197 carries on after a failed `Image.open` with an undefined image and a stale output path; it is not modelled. `ProcessImage` takes the dimensions the driver read.
- EXIF removal with `piexif` (lines 258-260, with `EXIF_EXTS`): a foreign library call.
- All `print` output and the summary listing (lines 269-287).
- Floating point: the 0.4 multiplier is the integer comparison described above.
- Driver.Classify: `str.casefold` is modelled as ASCII lower-casing. No character outside ASCII casefolds into one of the `EXTS` strings, so the image test agrees with the source.
- Driver.BaseOfMarkedName: stated for names with one marker, the shape the driver expects. Names with several `_orig` occurrences are still classified by `Classify`, but no closed form of their base is proved.
- Driver.DirectCopyOfMarkedName: stated for names with one marker. For names with several `_orig` occurrences, `DirectCopyName` still computes the rename, but no closed form is proved.
