/** From a finished parallel build to the files on disk and back to a searchable index. */
module BuildOutput {
  import opened Bytes
  import opened HnswFiles
  import HnswValidation
  import VectorSearch
  import opened ParallelBuild

  const MAX_LEVEL := 32

  /** The vectors being indexed, sorted by node id, and the header fields they share. */
  datatype Input = Input(ids: seq<nat>, vectorOffsets: seq<nat>, metric: DistanceMetric, dimension: nat)

  function FinalGraph(c: Config, s: State): Graph {
    seq(|c.levels|, p requires 0 <= p < |c.levels| =>
      seq(c.levels[p] + 1, l requires 0 <= l => if (p, l) in s.lists then s.lists[(p, l)] else []))
  }

  /** The built index assembled from the final state. */
  function Output(c: Config, s: State, input: Input): Built
    requires |input.ids| == |input.vectorOffsets| == |c.levels|
  {
    var graph := FinalGraph(c, s);
    Built(Header(|c.levels|, s.entry.point, s.entry.level, c.m, c.efConstruction, input.metric, input.dimension),
          seq(|c.levels|, p requires 0 <= p < |c.levels| =>
            PointMeta(input.ids[p], input.vectorOffsets[p], |GraphBytes(graph[..p])|, c.levels[p])),
          graph)
  }

  /** What the engine guarantees about the input, and the sizes the format can hold. */
  ghost predicate Acceptable(c: Config, input: Input, blobLength: nat) {
    && 0 < |c.levels| <= 0xFFFF_FFFF && |input.ids| == |input.vectorOffsets| == |c.levels|
    && (forall p | 0 <= p < |c.levels| :: c.levels[p] <= MAX_LEVEL)
    && c.m <= 32767 && c.efConstruction < 0x1_0000
    && 4 * input.dimension < Pow256(4)
    && (forall p, q | 0 <= p < q < |c.levels| :: input.ids[p] < input.ids[q])
    && (forall p | 0 <= p < |c.levels| ::
          && input.ids[p] < Pow256(8) && input.vectorOffsets[p] < Pow256(8)
          && input.vectorOffsets[p] + 4 * input.dimension <= blobLength)
  }

  /** At every moment of every interleaving every list fits the format: at most 65534 neighbours
      when m is at most 32767, each an existing point. */
  lemma ListsFit(c: Config, schedule: seq<Choice>, p: nat, l: nat)
    requires 0 < |c.levels| <= 0xFFFF_FFFF && c.m <= 32767
    requires p < |c.levels| && l <= c.levels[p]
    ensures (p, l) in Run(c, schedule).lists
    ensures HnswValidation.Fits(|c.levels|, Run(c, schedule).lists[(p, l)])
  {
    EveryRunStructured(c, schedule);
    PowersOf256();
    var s := Run(c, schedule);
    assert HasLevel(c, p, l);
    assert (p, l) in s.lists;
    assert ListOk(c, l, s.lists[(p, l)]);
  }

  /** Whatever the interleaving, the state in which every worker is done gives files that the writer can hold
      exactly, that the validator accepts, and that load as the very graph that was built. */
  lemma BuildWriteSearch(c: Config, schedule: seq<Choice>, input: Input, blobLength: nat)
    requires Acceptable(c, input, blobLength)
    requires forall w | 0 <= w < |c.levels| :: Run(c, schedule).workers[w] == Done
    requires |GraphBytes(FinalGraph(c, Run(c, schedule)))| < Pow256(8)
    ensures var b := Output(c, Run(c, schedule), input);
            && Writable(b)
            && HnswValidation.Decision(
                 MetaBytes(b), GraphBytes(b.graph), blobLength, |c.levels|,
                 Some(HnswValidation.Expected(input.metric, input.dimension, c.m, c.efConstruction))
               ) == HnswValidation.Valid(b.header)
            && HnswValidation.LoadIndex(MetaBytes(b), GraphBytes(b.graph), b.header) == HnswValidation.BuiltIndex(b)
            && VectorSearch.Sound(HnswValidation.BuiltIndex(b))
  {
    var b := Output(c, Run(c, schedule), input);
    OutputWritable(c, schedule, input, blobLength);
    HnswValidation.WrittenFilesAccepted(b, blobLength);
    HnswValidation.WrittenIndexLoads(b);
    HnswValidation.AcceptedFilesAreSound(
      MetaBytes(b), GraphBytes(b.graph), blobLength, |c.levels|,
      Some(HnswValidation.Expected(input.metric, input.dimension, c.m, c.efConstruction)));
  }

  lemma GraphPrefixLength(graph: Graph, p: nat)
    requires p <= |graph|
    ensures |GraphBytes(graph[..p])| <= |GraphBytes(graph)|
  {
    assert graph == graph[..p] + graph[p..];
    GraphBytesConcat(graph[..p], graph[p..]);
  }

  lemma OutputLists(c: Config, schedule: seq<Choice>, input: Input)
    requires 0 < |c.levels| <= 0xFFFF_FFFF && c.m <= 32767
    requires |input.ids| == |input.vectorOffsets| == |c.levels|
    ensures var graph := Output(c, Run(c, schedule), input).graph;
            && StorableGraph(graph)
            && forall p | 0 <= p < |graph| :: forall l | 0 <= l < |graph[p]| ::
                 forall n | n in graph[p][l] :: n < |c.levels|
  {
    var graph := Output(c, Run(c, schedule), input).graph;
    forall p, l | 0 <= p < |graph| && 0 <= l < |graph[p]|
      ensures HnswValidation.Fits(|c.levels|, graph[p][l])
    {
      ListsFit(c, schedule, p, l);
    }
  }

  lemma OutputTable(c: Config, schedule: seq<Choice>, input: Input, blobLength: nat, p: nat)
    requires Acceptable(c, input, blobLength) && p < |c.levels|
    requires forall w | 0 <= w < |c.levels| :: Run(c, schedule).workers[w] == Done
    requires |GraphBytes(FinalGraph(c, Run(c, schedule)))| < Pow256(8)
    ensures var b := Output(c, Run(c, schedule), input);
            && b.metas[p].levelOffset == |GraphBytes(b.graph[..p])| < Pow256(8)
            && b.metas[p].maxLevel <= b.header.maxLevel
            && |b.graph[p]| == b.metas[p].maxLevel + 1
  {
    FinalEntryIsHighest(c, schedule);
    GraphPrefixLength(FinalGraph(c, Run(c, schedule)), p);
  }

  lemma OutputRows(c: Config, schedule: seq<Choice>, input: Input, blobLength: nat)
    requires Acceptable(c, input, blobLength)
    requires forall w | 0 <= w < |c.levels| :: Run(c, schedule).workers[w] == Done
    requires |GraphBytes(FinalGraph(c, Run(c, schedule)))| < Pow256(8)
    ensures var b := Output(c, Run(c, schedule), input);
            forall p: nat | p < |c.levels| ::
              && b.metas[p].levelOffset == |GraphBytes(b.graph[..p])| < Pow256(8)
              && b.metas[p].maxLevel <= b.header.maxLevel
              && |b.graph[p]| == b.metas[p].maxLevel + 1
  {
    var b := Output(c, Run(c, schedule), input);
    forall p: nat | p < |c.levels|
      ensures b.metas[p].levelOffset == |GraphBytes(b.graph[..p])| < Pow256(8)
      ensures b.metas[p].maxLevel <= b.header.maxLevel
      ensures |b.graph[p]| == b.metas[p].maxLevel + 1
    {
      OutputTable(c, schedule, input, blobLength, p);
    }
  }

  lemma OutputHeader(c: Config, schedule: seq<Choice>, input: Input, blobLength: nat)
    requires Acceptable(c, input, blobLength)
    requires forall w | 0 <= w < |c.levels| :: Run(c, schedule).workers[w] == Done
    ensures var h := Output(c, Run(c, schedule), input).header;
            && 0 < h.pointCount <= 0xFFFF_FFFF && h.entryPoint < h.pointCount
            && h.maxLevel < Pow256(2) && h.m < Pow256(2) && h.efConstruction < Pow256(2)
            && h.dimension < Pow256(4)
  {
    PowersOf256();
    FinalEntryIsHighest(c, schedule);
  }

  lemma OutputWritable(c: Config, schedule: seq<Choice>, input: Input, blobLength: nat)
    requires Acceptable(c, input, blobLength)
    requires forall w | 0 <= w < |c.levels| :: Run(c, schedule).workers[w] == Done
    requires |GraphBytes(FinalGraph(c, Run(c, schedule)))| < Pow256(8)
    ensures var b := Output(c, Run(c, schedule), input);
            Writable(b) && HnswValidation.Consistent(b, blobLength)
  {
    OutputHeader(c, schedule, input, blobLength);
    OutputLists(c, schedule, input);
    OutputRows(c, schedule, input, blobLength);
  }
}
