/**
  The per-(source, target dimension) resolution engine (`Resizer.__new__`).
  The image reader is abstracted to the dimensions it reports (or none, when
  the source cannot be opened) and the external transcoder to a function from
  the call it receives to what it reports: exit status, whether the output
  exists, and its byte size.
 */
module Resizer {
  import opened Wrappers
  import opened TierCatalog

  const BaseQuality: int := 80
  const LowestQuality: int := 50
  const QualityStep: int := 5

  /** The most transcoder calls one request can make: qualities 80, 75, ..., 50. */
  const MaxAttempts: nat := 7

  /** The closed set of results of one request. */
  datatype Outcome =
    | Success            //  0: artifact kept at the destination
    | SourceUnreadable   // -1: the source could not be opened
    | TranscodeFailed    // -2: the transcoder exited non-zero
    | OutputMissing      // -3: the transcoder reported success but wrote nothing
    | UseDirectCopy      //  2: the caller copies the source instead

  /** The integer return code of an outcome. */
  function Code(o: Outcome): (c: int)
    ensures c in {0, -1, -2, -3, 2}
  {
    match o
    case Success => 0
    case SourceUnreadable => -1
    case TranscodeFailed => -2
    case OutputMissing => -3
    case UseDirectCopy => 2
  }

  /** Reads a return code back; code 1 (deprecated) and every other integer are not outcomes. */
  function FromCode(c: int): Option<Outcome>
  {
    if c == 0 then Some(Success)
    else if c == -1 then Some(SourceUnreadable)
    else if c == -2 then Some(TranscodeFailed)
    else if c == -3 then Some(OutputMissing)
    else if c == 2 then Some(UseDirectCopy)
    else None
  }

  /** Codes and outcomes are in one-to-one correspondence, and code 1 is never produced. */
  lemma CodeRoundTrip(o: Outcome, c: int)
    ensures FromCode(Code(o)) == Some(o)
    ensures FromCode(c).Some? ==> Code(FromCode(c).value) == c
    ensures Code(o) != 1
  {
  }

  datatype Dims = Dims(width: nat, height: nat)

  /** What the engine can learn about a source: its dimensions if it opens, and its byte size. */
  datatype SourceImage = SourceImage(dims: Option<Dims>, byteSize: nat)

  function Max(a: int, b: int): int
  {
    if a >= b then a else b
  }

  /** The geometry requested from the transcoder: none, or a bound on one side. */
  datatype ResizeSpec = NoResize | BoundWidth(bound: int) | BoundHeight(bound: int)

  /** The resize the engine requests for a source of `d` and a target dimension `size`. */
  function ResizeFor(d: Dims, size: int): (r: ResizeSpec)
    ensures r.NoResize? <==> Max(d.width, d.height) == size
    ensures !r.NoResize? ==> r.bound == size
    ensures r.BoundWidth? ==> d.width > d.height
    ensures r.BoundHeight? ==> d.height >= d.width
  {
    if size == Max(d.width, d.height) then NoResize
    else if d.width > d.height then BoundWidth(size)
    else BoundHeight(size)
  }

  /** One transcoder invocation: the geometry and the quality. */
  datatype Call = Call(spec: ResizeSpec, quality: int)

  /** What the transcoder reports for one invocation. */
  datatype Attempt = Attempt(exitStatus: int, outputExists: bool, outputSize: nat)

  /** The transcoder ran cleanly and left an output above the budget: the search goes on. */
  predicate OverBudget(a: Attempt, budget: nat)
  {
    a.exitStatus == 0 && a.outputExists && a.outputSize > budget
  }

  /** The output a failing transcoder leaves at the destination, if any: nothing removes it. */
  function Leftover(a: Attempt): (o: Option<nat>)
    ensures o.Some? <==> a.outputExists
    ensures o.Some? ==> o.value == a.outputSize
  {
    if a.outputExists then Some(a.outputSize) else None
  }

  /** How a quality search ends: a tool failure (with whatever it left behind), no output, or an artifact of the given size. */
  datatype SearchEnd = ToolFailed(leftover: Option<nat>) | NoOutput | Settled(finalSize: nat)

  datatype Search = Search(end: SearchEnd, calls: seq<Call>)

  /** The descending quality search from `quality` down to the floor. */
  function QualitySearch(spec: ResizeSpec, budget: nat, quality: int, transcoder: Call -> Attempt): Search
    requires LowestQuality <= quality
    decreases quality
  {
    var call := Call(spec, quality);
    var a := transcoder(call);
    if a.exitStatus != 0 then Search(ToolFailed(Leftover(a)), [call])
    else if !a.outputExists then Search(NoOutput, [call])
    else if a.outputSize > budget && quality - QualityStep >= LowestQuality then
      var rest := QualitySearch(spec, budget, quality - QualityStep, transcoder);
      Search(rest.end, [call] + rest.calls)
    else Search(Settled(a.outputSize), [call])
  }

  /** One step of the search: the first call either ends it or hands over to the search one quality lower. */
  lemma SearchStep(spec: ResizeSpec, budget: nat, quality: int, transcoder: Call -> Attempt)
    requires LowestQuality <= quality
    ensures var call := Call(spec, quality);
      var a := transcoder(call);
      var s := QualitySearch(spec, budget, quality, transcoder);
      && (a.exitStatus != 0 ==> s == Search(ToolFailed(Leftover(a)), [call]))
      && (a.exitStatus == 0 && !a.outputExists ==> s == Search(NoOutput, [call]))
      && (OverBudget(a, budget) && quality - QualityStep >= LowestQuality ==>
            var rest := QualitySearch(spec, budget, quality - QualityStep, transcoder);
            s.end == rest.end && s.calls == [call] + rest.calls)
      && (a.exitStatus == 0 && a.outputExists && !(a.outputSize > budget && quality - QualityStep >= LowestQuality) ==>
            s == Search(Settled(a.outputSize), [call]))
  {
  }

  /**
    What a search does: it calls the transcoder at `quality`, `quality - 5`, ...
    without skipping a step, never below the floor; every call but the last
    ran cleanly and missed the budget; and the last call explains the end:
    a non-zero exit, a missing output, or an artifact that fits the budget
    or was made at the floor.
   */
  lemma {:induction false} SearchShape(spec: ResizeSpec, budget: nat, quality: int, transcoder: Call -> Attempt)
    requires LowestQuality <= quality
    ensures var s := QualitySearch(spec, budget, quality, transcoder);
      && 1 <= |s.calls| <= (quality - LowestQuality) / QualityStep + 1
      && (forall i :: 0 <= i < |s.calls| ==> s.calls[i] == Call(spec, quality - QualityStep * i))
      && (forall i :: 0 <= i < |s.calls| - 1 ==> OverBudget(transcoder(s.calls[i]), budget))
      && var last := transcoder(s.calls[|s.calls| - 1]);
      && (s.end.ToolFailed? <==> last.exitStatus != 0)
      && (s.end.ToolFailed? ==> s.end.leftover == Leftover(last))
      && (s.end == NoOutput <==> last.exitStatus == 0 && !last.outputExists)
      && (s.end.Settled? ==> last.exitStatus == 0 && last.outputExists && s.end.finalSize == last.outputSize)
      && (s.end.Settled? && last.outputSize > budget ==> s.calls[|s.calls| - 1].quality - QualityStep < LowestQuality)
    decreases quality
  {
    var call := Call(spec, quality);
    var a := transcoder(call);
    if a.exitStatus == 0 && a.outputExists && a.outputSize > budget && quality - QualityStep >= LowestQuality {
      SearchShape(spec, budget, quality - QualityStep, transcoder);
      var rest := QualitySearch(spec, budget, quality - QualityStep, transcoder);
      var s := QualitySearch(spec, budget, quality, transcoder);
      assert s.calls == [call] + rest.calls;
      forall i | 1 <= i < |s.calls|
        ensures s.calls[i] == Call(spec, quality - QualityStep * i)
      {
        assert s.calls[i] == rest.calls[i - 1];
      }
    }
  }

  /** What one request did: its outcome, the transcoder calls in order, whether the destination was cleared, and the artifact left there. */
  datatype Trace = Trace(outcome: Outcome, calls: seq<Call>, destCleared: bool, artifactSize: Option<nat>)

  /** A request either aborts at the guard (the source raises) or resolves. */
  datatype Resolution = GuardRaised | Resolved(trace: Trace)

  /** The engine: one request for target dimension `size`. Only over-large targets raise. */
  function Resolve(size: int, source: SourceImage, transcoder: Call -> Attempt): (r: Resolution)
    ensures r.GuardRaised? <==> size > MaxDimension
  {
    if size > MaxDimension then GuardRaised
    else match source.dims
      case None => Resolved(Trace(SourceUnreadable, [], false, None))
      case Some(d) =>
        var budget := BudgetFor(size);
        if AlreadySmall(source.byteSize, budget) then Resolved(Trace(UseDirectCopy, [], false, None))
        else
          var s := QualitySearch(ResizeFor(d, size), budget, BaseQuality, transcoder);
          match s.end
          case ToolFailed(leftover) => Resolved(Trace(TranscodeFailed, s.calls, true, leftover))
          case NoOutput => Resolved(Trace(OutputMissing, s.calls, true, None))
          case Settled(finalSize) =>
            var outcome := if finalSize >= source.byteSize then UseDirectCopy else Success;
            Resolved(Trace(outcome, s.calls, true, Some(finalSize)))
  }

  /**
    The exits before the search: an unreadable source gives -1 with no call
    and the destination untouched, and a readable one never gives -1; a
    source already below 0.4 of the budget is copied without any call or
    deletion; otherwise the destination is cleared and the transcoder called.
   */
  lemma ResolveEarlyExits(size: int, source: SourceImage, transcoder: Call -> Attempt)
    requires size <= MaxDimension
    ensures var r := Resolve(size, source, transcoder);
      && r.Resolved?
      && (r.trace.outcome == SourceUnreadable <==> source.dims.None?)
      && (source.dims.None? ==> r.trace == Trace(SourceUnreadable, [], false, None))
      && (source.dims.Some? && AlreadySmall(source.byteSize, BudgetFor(size)) ==>
            r.trace == Trace(UseDirectCopy, [], false, None))
      && (source.dims.Some? && !AlreadySmall(source.byteSize, BudgetFor(size)) ==> |r.trace.calls| > 0)
      && (r.trace.destCleared <==> |r.trace.calls| > 0)
  {
    if source.dims.Some? {
      SearchShape(ResizeFor(source.dims.value, size), BudgetFor(size), BaseQuality, transcoder);
    }
  }

  /**
    The search as the request sees it: at most 7 calls, at qualities
    80, 75, ..., each with the resize chosen from the source; every call but
    the last ran cleanly and missed the budget; the last call decides -2 or
    -3, or else leaves the artifact, and the result is 2 iff that artifact
    is not smaller than the source (0 iff it is), whether or not it met the
    budget; an artifact still over budget means all 7 qualities were tried.
   */
  lemma ResolveSearch(size: int, source: SourceImage, transcoder: Call -> Attempt)
    requires size <= MaxDimension && source.dims.Some?
    ensures var r := Resolve(size, source, transcoder);
      var calls := r.trace.calls;
      && r.Resolved?
      && |calls| <= MaxAttempts
      && (forall i :: 0 <= i < |calls| ==>
            calls[i] == Call(ResizeFor(source.dims.value, size), BaseQuality - QualityStep * i))
      && (forall i :: 0 <= i < |calls| - 1 ==> OverBudget(transcoder(calls[i]), BudgetFor(size)))
      && (|calls| > 0 ==>
            var last := transcoder(calls[|calls| - 1]);
            && (r.trace.outcome == TranscodeFailed <==> last.exitStatus != 0)
            && (last.exitStatus != 0 ==> r.trace.artifactSize == Leftover(last))
            && (r.trace.outcome == OutputMissing <==> last.exitStatus == 0 && !last.outputExists)
            && (r.trace.outcome == OutputMissing ==> r.trace.artifactSize == None)
            && (last.exitStatus == 0 && last.outputExists ==>
                  && r.trace.artifactSize == Some(last.outputSize)
                  && (r.trace.outcome == Success <==> last.outputSize < source.byteSize)
                  && (r.trace.outcome == UseDirectCopy <==> last.outputSize >= source.byteSize)
                  && (last.outputSize > BudgetFor(size) ==> |calls| == MaxAttempts)))
  {
    SearchShape(ResizeFor(source.dims.value, size), BudgetFor(size), BaseQuality, transcoder);
  }

  /** A step that hands over: the calls so far, this call, then the search one quality lower. */
  lemma SearchGoesOn(before: seq<Call>, spec: ResizeSpec, budget: nat, quality: int, transcoder: Call -> Attempt)
    requires LowestQuality <= quality - QualityStep
    requires OverBudget(transcoder(Call(spec, quality)), budget)
    ensures var here := QualitySearch(spec, budget, quality, transcoder);
      var rest := QualitySearch(spec, budget, quality - QualityStep, transcoder);
      && here.end == rest.end
      && before + here.calls == (before + [Call(spec, quality)]) + rest.calls
  {
    SearchStep(spec, budget, quality, transcoder);
  }

  /** A step that ends the search: its one call is this one, and its end is read off the attempt. */
  lemma SearchEnds(spec: ResizeSpec, budget: nat, quality: int, transcoder: Call -> Attempt)
    requires LowestQuality <= quality
    requires !OverBudget(transcoder(Call(spec, quality)), budget) || quality - QualityStep < LowestQuality
    ensures var a := transcoder(Call(spec, quality));
      QualitySearch(spec, budget, quality, transcoder) ==
        Search(if a.exitStatus != 0 then ToolFailed(Leftover(a)) else if !a.outputExists then NoOutput else Settled(a.outputSize),
               [Call(spec, quality)])
  {
    SearchStep(spec, budget, quality, transcoder);
  }

  /**
    The quality loop written as the source writes it: `while quality >= 50`,
    one transcoder call per pass, early exits on tool failure and missing
    output, the quality stepped down by 5 while the output exceeds the budget.
   */
  method SearchLoop(spec: ResizeSpec, budget: nat, transcoder: Call -> Attempt) returns (end: SearchEnd, calls: seq<Call>)
    ensures Search(end, calls) == QualitySearch(spec, budget, BaseQuality, transcoder)
  {
    ghost var search := QualitySearch(spec, budget, BaseQuality, transcoder);
    var quality := BaseQuality;
    calls := [];
    var lastSize: nat := 0;
    while quality >= LowestQuality
      invariant LowestQuality - QualityStep <= quality <= BaseQuality
      invariant quality >= LowestQuality ==>
        search.end == QualitySearch(spec, budget, quality, transcoder).end &&
        search.calls == calls + QualitySearch(spec, budget, quality, transcoder).calls
      invariant quality < LowestQuality ==> search == Search(Settled(lastSize), calls)
      decreases quality
    {
      var call := Call(spec, quality);
      var attempt := transcoder(call);
      if attempt.exitStatus != 0 {
        SearchEnds(spec, budget, quality, transcoder);
        return ToolFailed(Leftover(attempt)), calls + [call];
      }
      if !attempt.outputExists {
        SearchEnds(spec, budget, quality, transcoder);
        return NoOutput, calls + [call];
      }
      lastSize := attempt.outputSize;
      if attempt.outputSize > budget {
        if quality - QualityStep >= LowestQuality {
          SearchGoesOn(calls, spec, budget, quality, transcoder);
        } else {
          SearchEnds(spec, budget, quality, transcoder);
        }
        calls := calls + [call];
        quality := quality - QualityStep;
      } else {
        SearchEnds(spec, budget, quality, transcoder);
        calls := calls + [call];
        break;
      }
    }
    end := Settled(lastSize);
  }

  /** The engine as a method: guard, read, cheap skip, quality loop, final comparison. */
  method RunResizer(size: int, source: SourceImage, transcoder: Call -> Attempt) returns (r: Resolution)
    ensures r == Resolve(size, source, transcoder)
  {
    if size > MaxDimension {
      return GuardRaised;
    }
    if source.dims.None? {
      return Resolved(Trace(SourceUnreadable, [], false, None));
    }
    var budget := BudgetFor(size);
    if AlreadySmall(source.byteSize, budget) {
      return Resolved(Trace(UseDirectCopy, [], false, None));
    }
    var end, calls := SearchLoop(ResizeFor(source.dims.value, size), budget, transcoder);
    match end {
      case ToolFailed(leftover) => r := Resolved(Trace(TranscodeFailed, calls, true, leftover));
      case NoOutput => r := Resolved(Trace(OutputMissing, calls, true, None));
      case Settled(finalSize) =>
        var outcome := if finalSize >= source.byteSize then UseDirectCopy else Success;
        r := Resolved(Trace(outcome, calls, true, Some(finalSize)));
    }
  }
}
