/**
  The tier catalog (`IMAGE_SIZES`): resolution ranges with the largest
  byte size an output of that range may have, and the lookup the engine
  uses to pick the budget for a target dimension.
 */
module TierCatalog {

  /** One catalog row: the range `lo..hi` of target dimensions and its byte budget. */
  datatype TierEntry = TierEntry(hi: int, lo: int, budget: nat)

  /** The catalog, largest tier first. */
  const ImageSizes: seq<TierEntry> := [
    TierEntry(2560, 2049, 500000), // heroes and backgrounds
    TierEntry(2048, 1025, 300000), // large gallery views
    TierEntry(1024, 0, 100000)     // thumbnails
  ]

  /** The largest dimension any caller may ask for (`IMAGE_SIZES[0][0][0]`). */
  const MaxDimension: int := ImageSizes[0].hi

  /** The tier dimensions the driver treats as breakpoints: the `hi` of every row, in catalog order. */
  const Breakpoints: seq<int> := [ImageSizes[0].hi, ImageSizes[1].hi, ImageSizes[2].hi]

  /** Source sizes below this fraction (4/10) of the budget skip compression. */
  const NoResizeNumerator: nat := 4
  const NoResizeDenominator: nat := 10

  predicate Matches(e: TierEntry, size: int)
  {
    e.hi >= size && e.lo <= size
  }

  /** The index of the first row whose range holds `size`, or `|rows|` when none does. */
  function FirstMatch(rows: seq<TierEntry>, size: int): (i: nat)
    ensures i <= |rows|
    ensures i < |rows| ==> Matches(rows[i], size)
    ensures forall j :: 0 <= j < i ==> !Matches(rows[j], size)
  {
    if |rows| == 0 then 0
    else if Matches(rows[0], size) then 0
    else 1 + FirstMatch(rows[1..], size)
  }

  /** The rows whose range holds `size`, in catalog order: the list comprehension of the lookup. */
  function MatchingRows(rows: seq<TierEntry>, size: int): (r: seq<TierEntry>)
    ensures forall e :: e in r <==> e in rows && Matches(e, size)
    ensures |r| > 0 <==> FirstMatch(rows, size) < |rows|
    ensures |r| > 0 ==> r[0] == rows[FirstMatch(rows, size)]
  {
    if |rows| == 0 then []
    else if Matches(rows[0], size) then [rows[0]] + MatchingRows(rows[1..], size)
    else MatchingRows(rows[1..], size)
  }

  /** The byte budget for a target dimension: the first matching row, else the last row. */
  function BudgetFor(size: int): (b: nat)
    ensures FirstMatch(ImageSizes, size) < |ImageSizes| ==> b == ImageSizes[FirstMatch(ImageSizes, size)].budget
    ensures FirstMatch(ImageSizes, size) == |ImageSizes| ==> b == ImageSizes[|ImageSizes| - 1].budget
  {
    var matching := MatchingRows(ImageSizes, size);
    var row := if |matching| > 0 then matching[0] else ImageSizes[|ImageSizes| - 1];
    row.budget
  }

  /** The budget per range of target dimensions, with the fallback to the last row outside every range. */
  lemma BudgetRanges(size: int)
    ensures 0 <= size <= 1024 ==> BudgetFor(size) == 100000
    ensures 1025 <= size <= 2048 ==> BudgetFor(size) == 300000
    ensures 2049 <= size <= 2560 ==> BudgetFor(size) == 500000
    ensures size < 0 || size > MaxDimension ==> BudgetFor(size) == 100000
  {
    assert ImageSizes[1..][1..] == [ImageSizes[2]];
    assert FirstMatch(ImageSizes[1..][1..][1..], size) == 0;
  }

  /** The cheap skip of the engine: the source is already below 0.4 times the budget. */
  predicate AlreadySmall(sourceBytes: nat, budget: nat)
  {
    NoResizeDenominator * sourceBytes < NoResizeNumerator * budget
  }

  /**
    The skip thresholds of the three catalog rows: 0.4 of 500000, 300000 and
    100000 bytes, the values `budget * 0.4` takes in double precision.
   */
  lemma SkipThresholds(sourceBytes: nat)
    ensures AlreadySmall(sourceBytes, ImageSizes[0].budget) <==> sourceBytes < 200000
    ensures AlreadySmall(sourceBytes, ImageSizes[1].budget) <==> sourceBytes < 120000
    ensures AlreadySmall(sourceBytes, ImageSizes[2].budget) <==> sourceBytes < 40000
  {
  }
}
