/** Worked requests through the engine, each with a scripted transcoder. */
module Scenarios {
  import opened Wrappers
  import opened TierCatalog
  import opened Resizer

  /** A 3000x2000 source of 280000 bytes at tier 2048 fits the 300000-byte budget at quality 80 and beats the source. */
  lemma LandscapeFitsAtFirstQuality()
    ensures Resolve(2048, SourceImage(Some(Dims(3000, 2000)), 280000), c => Attempt(0, true, 260000))
      == Resolved(Trace(Success, [Call(BoundWidth(2048), 80)], true, Some(260000)))
  {
    BudgetRanges(2048);
  }

  /** A 1024x768 source of 30000 bytes at tier 1024 is below 0.4 of its 100000-byte budget: copied without any call. */
  lemma SmallExactTierIsCopied(transcoder: Call -> Attempt)
    ensures Resolve(1024, SourceImage(Some(Dims(1024, 768)), 30000), transcoder)
      == Resolved(Trace(UseDirectCopy, [], false, None))
  {
    BudgetRanges(1024);
  }

  /** A transcoder that exits non-zero stops the search after its first call. */
  lemma ToolFailureStopsSearch()
    ensures Resolve(2048, SourceImage(Some(Dims(3000, 2000)), 280000), c => Attempt(1, false, 0))
      == Resolved(Trace(TranscodeFailed, [Call(BoundWidth(2048), 80)], true, None))
  {
    BudgetRanges(2048);
  }

  /** A transcoder that exits non-zero after writing an output leaves that output at the destination. */
  lemma ToolFailureLeavesOutput()
    ensures Resolve(2048, SourceImage(Some(Dims(3000, 2000)), 280000), c => Attempt(1, true, 5000))
      == Resolved(Trace(TranscodeFailed, [Call(BoundWidth(2048), 80)], true, Some(5000)))
  {
    BudgetRanges(2048);
  }

  /** When no quality fits the budget, all seven qualities are tried and the quality-50 artifact is kept. */
  lemma BudgetNeverMet()
    ensures var r := Resolve(2048, SourceImage(Some(Dims(1500, 2000)), 1000000), c => Attempt(0, true, 400000));
      && r.Resolved? && r.trace.outcome == Success && r.trace.artifactSize == Some(400000)
      && |r.trace.calls| == MaxAttempts
      && r.trace.calls[MaxAttempts - 1] == Call(BoundHeight(2048), LowestQuality)
  {
    BudgetRanges(2048);
    ResolveSearch(2048, SourceImage(Some(Dims(1500, 2000)), 1000000), c => Attempt(0, true, 400000));
  }
}
