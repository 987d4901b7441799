/** Whole runs of region operations over any number of regions: every region stays well formed and
    stands for the set the same operations build on plain point sets. */
module RegionRuns {
  import opened RegionRects
  import opened RegionOps

  /** One call; `dst` and `src` number the regions and may be equal. */
  datatype Call =
    | Clear(dst: nat)
    | Copy(dst: nat, src: nat)
    | Union(dst: nat, src: nat, rect: Rect)
    | Intersect(dst: nat, src: nat, rect: Rect)
  {
    /** The regions exist, and a rectangle that is added is not empty. */
    predicate Legal(n: nat) {
      && dst < n
      && (!Clear? ==> src < n)
      && (Union? ==> rect.NonEmpty())
    }
  }

  function Step(regions: seq<RegionValue>, c: Call): seq<RegionValue>
    requires c.Legal(|regions|)
  {
    match c
    case Clear(dst) => regions[dst := EMPTY_REGION]
    case Copy(dst, src) => regions[dst := regions[src]]
    case Union(dst, src, rect) => regions[dst := UnionRect(regions[src], rect)]
    case Intersect(dst, src, rect) => regions[dst := IntersectRect(regions[src], rect)]
  }

  ghost function SetStep(sets: seq<iset<Point>>, c: Call): seq<iset<Point>>
    requires c.Legal(|sets|)
  {
    match c
    case Clear(dst) => sets[dst := iset{}]
    case Copy(dst, src) => sets[dst := sets[src]]
    case Union(dst, src, rect) => sets[dst := sets[src] + RectPoints(rect)]
    case Intersect(dst, src, rect) => sets[dst := sets[src] * RectPoints(rect)]
  }

  ghost predicate AllLegal(calls: seq<Call>, n: nat) {
    forall i :: 0 <= i < |calls| ==> calls[i].Legal(n)
  }

  function Run(regions: seq<RegionValue>, calls: seq<Call>): (r: seq<RegionValue>)
    requires forall i :: 0 <= i < |calls| ==> calls[i].Legal(|regions|)
    ensures |r| == |regions|
    decreases |calls|
  {
    if calls == [] then regions else Run(Step(regions, calls[0]), calls[1..])
  }

  ghost function SetRun(sets: seq<iset<Point>>, calls: seq<Call>): (r: seq<iset<Point>>)
    requires AllLegal(calls, |sets|)
    ensures |r| == |sets|
    decreases |calls|
  {
    if calls == [] then sets else SetRun(SetStep(sets, calls[0]), calls[1..])
  }

  /** The regions are well formed and stand for the given sets. */
  ghost predicate Represents(regions: seq<RegionValue>, sets: seq<iset<Point>>) {
    && |regions| == |sets|
    && forall k :: 0 <= k < |regions| ==> WellFormed(regions[k]) && Points(regions[k].rects) == sets[k]
  }

  lemma EmptyRepresents()
    ensures WellFormed(EMPTY_REGION) && Points(EMPTY_REGION.rects) == iset{}
  {
  }

  lemma StepRepresents(regions: seq<RegionValue>, sets: seq<iset<Point>>, c: Call)
    requires Represents(regions, sets) && c.Legal(|regions|)
    ensures Represents(Step(regions, c), SetStep(sets, c))
  {
    match c
    case Clear(dst) => EmptyRepresents();
    case Copy(dst, src) =>
    case Union(dst, src, rect) => UnionIsUnion(regions[src], rect);
    case Intersect(dst, src, rect) => IntersectIsIntersection(regions[src], rect);
  }

  /** From any well-formed regions, and so in particular from freshly initialised ones, every run
      of calls keeps every region well formed and computes the abstract sets. */
  lemma {:induction false} RunRepresents(regions: seq<RegionValue>, sets: seq<iset<Point>>, calls: seq<Call>)
    requires Represents(regions, sets) && AllLegal(calls, |regions|)
    ensures Represents(Run(regions, calls), SetRun(sets, calls))
    decreases |calls|
  {
    if calls != [] {
      StepRepresents(regions, sets, calls[0]);
      RunRepresents(Step(regions, calls[0]), SetStep(sets, calls[0]), calls[1..]);
    }
  }

  lemma RunFromInit(n: nat, calls: seq<Call>)
    requires AllLegal(calls, n)
    ensures Represents(Run(seq(n, _ => EMPTY_REGION), calls), SetRun(seq(n, _ => iset{}), calls))
  {
    EmptyRepresents();
    RunRepresents(seq(n, _ => EMPTY_REGION), seq(n, _ => iset{}), calls);
  }
}
