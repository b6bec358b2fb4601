/**
 The two plain search loops of include/faiss/IndexIVFFastScan.cpp: query by query, and batched
 by inverted list. A kernel call on a list is recorded by what it is given.
 */
module FastScanSearch {
  import opened Arithmetic
  import opened FlatMaps
  import opened Multisets
  import opened TopKHeap
  import opened Wrappers

  /** One query against one list: the probe's rank, the row of the lookup table, the bias. */
  datatype Scan = Scan(qno: nat, rank: nat, listNo: nat, lut: nat, bias: Option<int>, size: nat)

  /** A query and a list to visit, the rank'th of the coarse quantizer. */
  datatype QC = QC(qno: nat, listNo: nat, rank: nat)

  /** A kernel call: the scans of one list that are run together. */
  type Batch = seq<Scan>

  datatype Probing = Probing(n: nat, nprobe: nat, ids: seq<int>, singleLut: bool, biases: Option<seq<int>>,
                             sizes: seq<nat>) {
    ghost predicate Valid() {
      && |ids| == n * nprobe
      && (forall ij :: 0 <= ij < |ids| ==> ids[ij] < |sizes|)
      && (biases.Some? ==> |biases.value| == |ids|)
    }

    /** The probes that have a list, among the first m. */
    function Probes(m: nat): seq<QC>
      requires Valid() && m <= |ids|
    {
      if m == 0 then []
      else Probes(m - 1) + if ids[m - 1] < 0 then [] else [Probe(m - 1)]
    }

    function Probe(ij: nat): QC
      requires Valid() && ij < |ids| && 0 <= ids[ij]
    {
      assert nprobe != 0;
      QC(ij / nprobe, ids[ij], ij % nprobe)
    }

    /** What a probe leads to: nothing when its list is empty. */
    function ScansOf(qc: QC): seq<Scan> {
      var ij := qc.qno * nprobe + qc.rank;
      if qc.listNo < |sizes| && sizes[qc.listNo] > 0 then
        [Scan(qc.qno, qc.rank, qc.listNo, if singleLut then qc.qno else ij,
              if biases.Some? && ij < |biases.value| then Some(biases.value[ij]) else None, sizes[qc.listNo])]
      else []
    }

    function Scanner(): QC -> seq<Scan> {
      qc => ScansOf(qc)
    }
  }

  /** How many codes the scans go through. */
  function Volume(scans: seq<Scan>): nat {
    if scans == [] then 0 else Volume(scans[..|scans| - 1]) + scans[|scans| - 1].size
  }

  // ---------- query by query ----------

  /** Place ij of the probe table belongs to query i and rank j. */
  lemma Place(p: Probing, i: nat, j: nat)
    requires p.Valid() && i < p.n && j < p.nprobe
    ensures i * p.nprobe + j < |p.ids|
    ensures (i * p.nprobe + j) / p.nprobe == i && (i * p.nprobe + j) % p.nprobe == j
  {
    DivMod(i, p.nprobe, j);
    MulMonotone(i + 1, p.n, p.nprobe);
  }

  lemma OneProbe(p: Probing, i: nat, j: nat)
    requires p.Valid() && i < p.n && j < p.nprobe
    ensures var ij := i * p.nprobe + j;
      && ij < |p.ids|
      && p.Probes(ij + 1) == p.Probes(ij) + if p.ids[ij] < 0 then [] else [QC(i, p.ids[ij], j)]
  {
    Place(p, i, j);
  }

  lemma OneScan(p: Probing, i: nat, j: nat)
    requires p.Valid() && i < p.n && j < p.nprobe
    ensures var ij := i * p.nprobe + j;
      && ij < |p.ids|
      && FlatMap(p.Probes(ij + 1), p.Scanner())
         == FlatMap(p.Probes(ij), p.Scanner()) + if p.ids[ij] < 0 then [] else p.ScansOf(QC(i, p.ids[ij], j))
  {
    hide FlatMap, Probing.Probes, Probing.ScansOf;
    var ij := i * p.nprobe + j;
    OneProbe(p, i, j);
    if p.ids[ij] < 0 {
      assert p.Probes(ij) + [] == p.Probes(ij);
    } else {
      FlatMapMore(p.Probes(ij), QC(i, p.ids[ij], j), p.Scanner());
    }
  }

  method SearchImplem10(p: Probing) returns (log: seq<Scan>, ndis: nat, nlistVisited: nat)
    requires p.Valid()
    ensures log == FlatMap(p.Probes(|p.ids|), p.Scanner())
    ensures ndis == Volume(log) && nlistVisited == |log|
  {
    hide FlatMap, Probing.Probes;
    log, ndis, nlistVisited := [], 0, 0;
    NoScans(p);
    for i := 0 to p.n
      invariant i * p.nprobe <= |p.ids| && log == FlatMap(p.Probes(i * p.nprobe), p.Scanner())
      invariant ndis == Volume(log) && nlistVisited == |log|
    {
      MulMonotone(i + 1, p.n, p.nprobe);
      for j := 0 to p.nprobe
        invariant i * p.nprobe + j <= |p.ids| && log == FlatMap(p.Probes(i * p.nprobe + j), p.Scanner())
        invariant ndis == Volume(log) && nlistVisited == |log|
      {
        OneScan(p, i, j);
        var ij := i * p.nprobe + j;
        var lut := if p.singleLut then i else ij;
        var bias := if p.biases.Some? then Some(p.biases.value[ij]) else None;
        var listNo := p.ids[ij];
        if listNo < 0 {
          continue;
        }
        var ls := p.sizes[listNo];
        if ls == 0 {
          continue;
        }
        log := log + [Scan(i, j, listNo, lut, bias, ls)];
        ndis := ndis + ls;
        nlistVisited := nlistVisited + 1;
      }
    }
  }

  lemma NoScans(p: Probing)
    requires p.Valid()
    ensures FlatMap(p.Probes(0), p.Scanner()) == []
  {
  }

  // ---------- batched by list ----------

  ghost predicate ByList(qcs: seq<QC>) {
    forall a, b :: 0 <= a < b < |qcs| ==> qcs[a].listNo <= qcs[b].listNo
  }

  /** Any outcome of std::sort, which need not keep the order of equal elements. */
  ghost predicate IsSortOf(sorted: seq<QC>, qcs: seq<QC>) {
    ByList(sorted) && multiset(sorted) == multiset(qcs)
  }

  /** A batch scans one list, for at least one and at most width queries. */
  ghost predicate IsBatch(batch: Batch, width: nat) {
    1 <= |batch| <= width && forall i :: 0 <= i < |batch| ==> batch[i].listNo == batch[0].listNo
  }

  /** The batches go through the lists in order, and only a full one is followed by another of its list. */
  ghost predicate AreBatches(batches: seq<Batch>, width: nat) {
    && (forall b :: 0 <= b < |batches| ==> IsBatch(batches[b], width))
    && (forall b :: 0 < b < |batches| ==> Follows(batches, b, width))
  }

  ghost predicate Follows(batches: seq<Batch>, b: nat, width: nat)
    requires 0 < b < |batches|
  {
    var before, batch := batches[b - 1], batches[b];
    && |before| > 0 && |batch| > 0
    && (before[0].listNo < batch[0].listNo || (before[0].listNo == batch[0].listNo && |before| == width))
  }

  function Flatten(batches: seq<Batch>): seq<Scan> {
    if batches == [] then [] else Flatten(batches[..|batches| - 1]) + batches[|batches| - 1]
  }

  /** The probes that have a list, with the running number of the source's double loop. */
  method CollectProbes(p: Probing) returns (qcs: seq<QC>)
    requires p.Valid()
    ensures qcs == p.Probes(|p.ids|)
  {
    hide Probing.Probes;
    qcs := [];
    NoProbes(p);
    var ij := 0;
    for i := 0 to p.n
      invariant ij == i * p.nprobe <= |p.ids| && qcs == p.Probes(ij)
    {
      MulMonotone(i + 1, p.n, p.nprobe);
      for j := 0 to p.nprobe
        invariant ij == i * p.nprobe + j <= |p.ids| && qcs == p.Probes(ij)
      {
        OneProbe(p, i, j);
        if p.ids[ij] >= 0 {
          qcs := qcs + [QC(i, p.ids[ij], j)];
        }
        ij := ij + 1;
      }
    }
  }

  lemma NoProbes(p: Probing)
    requires p.Valid()
    ensures p.Probes(0) == []
  {
  }

  /** The width of a batch: qbs2, or 11 when that is zero. */
  function Width(qbs2: nat): nat {
    if qbs2 != 0 then qbs2 else 11
  }

  /** qc is a probe of the table; it is at place Ij. */
  ghost predicate IsProbe(p: Probing, qc: QC)
    requires p.Valid()
  {
    qc.listNo < |p.sizes| && Ij(p, qc) < |p.ids|
  }

  function Ij(p: Probing, qc: QC): nat {
    qc.qno * p.nprobe + qc.rank
  }

  /** What the kernel is given for the queries of a batch. */
  datatype Call = Call(qMap: seq<nat>, probeMap: seq<nat>, lutEntries: seq<nat>, biases: Option<seq<int>>) {
    predicate Wide(nc: nat) {
      |qMap| == |probeMap| == |lutEntries| == nc && (biases.Some? ==> |biases.value| == nc)
    }

    ghost predicate IsFor(p: Probing, qcs: seq<QC>)
      requires p.Valid()
    {
      && Wide(|qcs|) && biases.Some? == p.biases.Some?
      && forall c :: 0 <= c < |qcs| ==>
           && IsProbe(p, qcs[c]) && qMap[c] == qcs[c].qno && probeMap[c] == qcs[c].rank
           && lutEntries[c] == (if p.singleLut then qcs[c].qno else Ij(p, qcs[c]))
           && (biases.Some? ==> biases.value[c] == p.biases.value[Ij(p, qcs[c])])
    }

    /** The kernel scans the list for every query it is given. */
    function Scans(listNo: nat, listSize: nat): seq<Scan>
      requires Wide(|qMap|)
    {
      seq(|qMap|, c requires 0 <= c < |qMap| =>
        Scan(qMap[c], probeMap[c], listNo, lutEntries[c],
             if biases.Some? then Some(biases.value[c]) else None, listSize))
    }
  }

  /** Gathers the rows and biases of a batch; the bias buffer is reused from batch to batch. */
  method PrepareBatch(p: Probing, qcs: seq<QC>, tmpBias: array<int>) returns (call: Call)
    requires p.Valid() && |qcs| <= tmpBias.Length && forall i :: 0 <= i < |qcs| ==> IsProbe(p, qcs[i])
    modifies tmpBias
    ensures call.IsFor(p, qcs)
  {
    hide Ij;
    var nc := |qcs|;
    var qMap, lutEntries := seq(nc, c => 0), seq(nc, c => 0);
    for i := 0 to nc
      invariant |qMap| == |lutEntries| == nc
      invariant forall c :: 0 <= c < i ==> qMap[c] == qcs[c].qno
      invariant forall c :: 0 <= c < i ==> lutEntries[c] == if p.singleLut then qcs[c].qno else Ij(p, qcs[c])
      invariant p.biases.Some? ==> forall c :: 0 <= c < i ==> tmpBias[c] == p.biases.value[Ij(p, qcs[c])]
    {
      var qc := qcs[i];
      qMap := qMap[i := qc.qno];
      var ij := Ij(p, qc);
      lutEntries := lutEntries[i := if p.singleLut then qc.qno else ij];
      if p.biases.Some? {
        tmpBias[i] := p.biases.value[ij];
      }
    }
    var probeMap := seq(nc, c => 0);
    for i := 0 to nc
      invariant |probeMap| == nc && forall c :: 0 <= c < i ==> probeMap[c] == qcs[c].rank
    {
      probeMap := probeMap[i := qcs[i].rank];
    }
    call := Call(qMap, probeMap, lutEntries, if p.biases.Some? then Some(tmpBias[..nc]) else None);
  }

  lemma CallScans(p: Probing, qcs: seq<QC>, call: Call, listNo: nat)
    requires p.Valid() && (forall i :: 0 <= i < |qcs| ==> IsProbe(p, qcs[i]) && qcs[i].listNo == listNo)
    requires call.IsFor(p, qcs) && listNo < |p.sizes| && p.sizes[listNo] > 0
    ensures call.Wide(|qcs|) && var batch := call.Scans(listNo, p.sizes[listNo]);
      && batch == FlatMap(qcs, p.Scanner()) && |batch| == |qcs|
      && forall i :: 0 <= i < |batch| ==> batch[i].listNo == listNo && batch[i].size == p.sizes[listNo]
  {
    hide FlatMap;
    FlatMapSingles(qcs, p.Scanner(), call.Scans(listNo, p.sizes[listNo]));
  }

  /** One batch: the kernel call for its queries. */
  method RunBatch(p: Probing, qcs: seq<QC>, listNo: nat, tmpBias: array<int>) returns (batch: Batch)
    requires p.Valid() && |qcs| <= tmpBias.Length
    requires forall i :: 0 <= i < |qcs| ==> IsProbe(p, qcs[i]) && qcs[i].listNo == listNo
    requires listNo < |p.sizes| && p.sizes[listNo] > 0
    modifies tmpBias
    ensures batch == FlatMap(qcs, p.Scanner()) && |batch| == |qcs|
    ensures forall i :: 0 <= i < |batch| ==> batch[i].listNo == listNo && batch[i].size == p.sizes[listNo]
  {
    var call := PrepareBatch(p, qcs, tmpBias);
    CallScans(p, qcs, call, listNo);
    batch := call.Scans(listNo, p.sizes[listNo]);
  }

  lemma EmptyList(p: Probing, qcs: seq<QC>, listNo: nat)
    requires forall i :: 0 <= i < |qcs| ==> qcs[i].listNo == listNo
    requires listNo < |p.sizes| && p.sizes[listNo] == 0
    ensures FlatMap(qcs, p.Scanner()) == []
  {
  }

  lemma {:induction false} ProbesAreProbes(p: Probing, m: nat)
    requires p.Valid() && m <= |p.ids|
    ensures forall i :: 0 <= i < |p.Probes(m)| ==> IsProbe(p, p.Probes(m)[i])
  {
    if m > 0 {
      ProbesAreProbes(p, m - 1);
      if p.ids[m - 1] >= 0 {
        var qc := p.Probe(m - 1);
        assert Ij(p, qc) == m - 1;
      }
    }
  }

  lemma SortedAreProbes(p: Probing, sorted: seq<QC>)
    requires p.Valid() && IsSortOf(sorted, p.Probes(|p.ids|))
    ensures ByList(sorted) && forall i :: 0 <= i < |sorted| ==> IsProbe(p, sorted[i])
  {
    ProbesAreProbes(p, |p.ids|);
    SameElements(sorted, p.Probes(|p.ids|));
    forall i | 0 <= i < |sorted|
      ensures IsProbe(p, sorted[i])
    {
      assert sorted[i] in p.Probes(|p.ids|);
    }
  }

  /** Where a batch of list listNo ended: it is full, or no later probe is of that list. */
  ghost predicate Ended(sorted: seq<QC>, i1: nat, last: Batch, width: nat)
    requires i1 <= |sorted|
  {
    |last| > 0 && forall i :: i1 <= i < |sorted| ==>
      last[0].listNo < sorted[i].listNo || (last[0].listNo == sorted[i].listNo && |last| == width)
  }

  lemma BatchEnded(sorted: seq<QC>, i0: nat, i1: nat, batch: Batch, width: nat)
    requires ByList(sorted) && i0 < i1 <= |sorted| && |batch| == i1 - i0
    requires sorted[i0].listNo == batch[0].listNo
    requires i1 < |sorted| && sorted[i1].listNo == batch[0].listNo ==> i1 - i0 == width
    ensures Ended(sorted, i1, batch, width)
  {
    forall i | i1 <= i < |sorted|
      ensures batch[0].listNo < sorted[i].listNo || (batch[0].listNo == sorted[i].listNo && |batch| == width)
    {
      assert sorted[i0].listNo <= sorted[i1].listNo <= sorted[i].listNo;
    }
  }

  lemma EndedLater(sorted: seq<QC>, i0: nat, i1: nat, last: Batch, width: nat)
    requires i0 <= i1 <= |sorted| && Ended(sorted, i0, last, width)
    ensures Ended(sorted, i1, last, width)
  {
  }

  lemma FlattenMore(batches: seq<Batch>, batch: Batch)
    ensures Flatten(batches + [batch]) == Flatten(batches) + batch
  {
    assert (batches + [batch])[..|batches|] == batches;
  }

  lemma OneMore(batches: seq<Batch>, batch: Batch, sorted: seq<QC>, i0: nat, width: nat)
    requires AreBatches(batches, width) && IsBatch(batch, width)
    requires i0 < |sorted| && sorted[i0].listNo == batch[0].listNo
    requires batches != [] ==> Ended(sorted, i0, batches[|batches| - 1], width)
    ensures AreBatches(batches + [batch], width)
  {
    hide IsBatch;
    var longer := batches + [batch];
    forall b | 0 < b < |longer|
      ensures Follows(longer, b, width)
    {
      if b < |batches| {
        assert Follows(batches, b, width);
      } else {
        NonEmpty(batch, width);
      }
    }
  }

  lemma NonEmpty(batch: Batch, width: nat)
    requires IsBatch(batch, width)
    ensures |batch| > 0
  {
  }

  /** The batches made so far scan the probes before i0. */
  ghost predicate Progress(p: Probing, sorted: seq<QC>, i0: nat, batches: seq<Batch>, ndis: nat, width: nat)
    requires i0 <= |sorted|
  {
    && Flatten(batches) == FlatMap(sorted[..i0], p.Scanner()) && ndis == Volume(Flatten(batches))
    && AreBatches(batches, width)
    && (batches != [] ==> Ended(sorted, i0, batches[|batches| - 1], width))
  }

  lemma ProgressStart(p: Probing, sorted: seq<QC>, width: nat)
    ensures Progress(p, sorted, 0, [], 0, width)
  {
  }

  lemma ProgressSkip(p: Probing, sorted: seq<QC>, i0: nat, i1: nat, batches: seq<Batch>, ndis: nat, width: nat,
                     listNo: nat)
    requires i0 <= i1 <= |sorted| && Progress(p, sorted, i0, batches, ndis, width)
    requires forall i :: i0 <= i < i1 ==> sorted[i].listNo == listNo
    requires listNo < |p.sizes| && p.sizes[listNo] == 0
    ensures Progress(p, sorted, i1, batches, ndis, width)
  {
    hide FlatMap, Flatten, AreBatches, Ended;
    var group := sorted[i0..i1];
    assert sorted[..i1] == sorted[..i0] + group;
    FlatMapConcat(sorted[..i0], group, p.Scanner());
    EmptyList(p, group, listNo);
    if batches != [] {
      EndedLater(sorted, i0, i1, batches[|batches| - 1], width);
    }
  }

  lemma ProgressBatch(p: Probing, sorted: seq<QC>, i0: nat, i1: nat, batches: seq<Batch>, ndis: nat, width: nat,
                      batch: Batch, size: nat)
    requires i0 < i1 <= |sorted| && Progress(p, sorted, i0, batches, ndis, width) && ByList(sorted)
    requires batch == FlatMap(sorted[i0..i1], p.Scanner()) && |batch| == i1 - i0 <= width
    requires forall i :: 0 <= i < |batch| ==> batch[i].listNo == sorted[i0].listNo && batch[i].size == size
    requires i1 < |sorted| && sorted[i1].listNo == sorted[i0].listNo ==> i1 - i0 == width
    ensures Progress(p, sorted, i1, batches + [batch], ndis + (i1 - i0) * size, width)
  {
    hide FlatMap, Flatten, AreBatches, Ended, Volume, ByList;
    var group := sorted[i0..i1];
    assert sorted[..i1] == sorted[..i0] + group;
    FlatMapConcat(sorted[..i0], group, p.Scanner());
    BatchVolume(Flatten(batches), batch, size);
    BatchEnded(sorted, i0, i1, batch, width);
    OneMore(batches, batch, sorted, i0, width);
    FlattenMore(batches, batch);
  }

  /** Where the batch that begins at i0 ends. */
  method GroupEnd(sorted: seq<QC>, i0: nat, width: nat) returns (i1: nat)
    requires i0 < |sorted| && width > 0
    ensures i0 < i1 <= |sorted| && i1 - i0 <= width
    ensures forall i :: i0 <= i < i1 ==> sorted[i].listNo == sorted[i0].listNo
    ensures i1 < |sorted| && sorted[i1].listNo == sorted[i0].listNo ==> i1 - i0 == width
  {
    var listNo := sorted[i0].listNo;
    i1 := i0 + 1;
    while i1 < |sorted| && i1 < i0 + width
      invariant i0 < i1 <= |sorted| && i1 - i0 <= width
      invariant forall i :: i0 <= i < i1 ==> sorted[i].listNo == listNo
    {
      if sorted[i1].listNo != listNo {
        break;
      }
      i1 := i1 + 1;
    }
  }

  /**
   The batched search, for any outcome of the sort. The results of the call are unchanged when
   there are no queries, and it refuses a block size other than 32.
   */
  method SearchImplem12(p: Probing, bbs: nat, qbs2: nat, sorted: seq<QC>, ndis0: nat, nlist0: nat)
    returns (ok: bool, batches: seq<Batch>, ndis: nat, nlistVisited: nat)
    requires p.Valid() && IsSortOf(sorted, p.Probes(|p.ids|))
    ensures ok <==> p.n == 0 || bbs == 32
    ensures p.n == 0 || bbs != 32 ==> batches == [] && ndis == ndis0 && nlistVisited == nlist0
    ensures p.n != 0 && ok ==> Flatten(batches) == FlatMap(sorted, p.Scanner()) && AreBatches(batches, Width(qbs2))
    ensures Width(qbs2) == if qbs2 == 0 then 11 else qbs2
    ensures p.n != 0 && ok ==> ndis == Volume(Flatten(batches)) && nlistVisited == |batches|
  {
    if p.n == 0 {
      return true, [], ndis0, nlist0;
    }
    if bbs != 32 {
      return false, [], ndis0, nlist0;
    }
    ok := true;
    var qcs := CollectProbes(p);
    assert IsSortOf(sorted, qcs);
    batches, ndis, nlistVisited := RunBatches(p, qbs2, sorted);
  }

  method RunBatches(p: Probing, qbs2: nat, sorted: seq<QC>) returns (batches: seq<Batch>, ndis: nat, nlistVisited: nat)
    requires p.Valid() && IsSortOf(sorted, p.Probes(|p.ids|))
    ensures Flatten(batches) == FlatMap(sorted, p.Scanner()) && AreBatches(batches, Width(qbs2))
    ensures ndis == Volume(Flatten(batches)) && nlistVisited == |batches|
  {
    hide FlatMap, IsProbe, Progress, ByList, IsSortOf, Probing.Valid;
    var actualQbs2 := Width(qbs2);
    var tmpBias := new int[actualQbs2];
    batches, ndis, nlistVisited := [], 0, 0;
    SortedAreProbes(p, sorted);
    ProgressStart(p, sorted, actualQbs2);
    var i0 := 0;
    while i0 < |sorted|
      invariant 0 <= i0 <= |sorted| && nlistVisited == |batches|
      invariant Progress(p, sorted, i0, batches, ndis, actualQbs2)
      decreases |sorted| - i0
    {
      var listNo := sorted[i0].listNo;
      var i1 := GroupEnd(sorted, i0, actualQbs2);
      ListInRange(p, sorted[i0]);
      var listSize := p.sizes[listNo];
      if listSize == 0 {
        ProgressSkip(p, sorted, i0, i1, batches, ndis, actualQbs2, listNo);
        i0 := i1;
        continue;
      }
      nlistVisited := nlistVisited + 1;
      GroupOf(p, sorted, i0, i1, listNo);
      var batch := RunBatch(p, sorted[i0..i1], listNo, tmpBias);
      ProgressBatch(p, sorted, i0, i1, batches, ndis, actualQbs2, batch, listSize);
      ndis := ndis + (i1 - i0) * listSize;
      batches := batches + [batch];
      i0 := i1;
    }
    ProgressEnd(p, sorted, batches, ndis, actualQbs2);
  }

  lemma ProgressEnd(p: Probing, sorted: seq<QC>, batches: seq<Batch>, ndis: nat, width: nat)
    requires Progress(p, sorted, |sorted|, batches, ndis, width)
    ensures Flatten(batches) == FlatMap(sorted, p.Scanner()) && AreBatches(batches, width)
    ensures ndis == Volume(Flatten(batches))
  {
    assert sorted[..|sorted|] == sorted;
  }

  lemma GroupOf(p: Probing, sorted: seq<QC>, i0: nat, i1: nat, listNo: nat)
    requires p.Valid() && i0 <= i1 <= |sorted|
    requires forall i :: 0 <= i < |sorted| ==> IsProbe(p, sorted[i])
    requires forall i :: i0 <= i < i1 ==> sorted[i].listNo == listNo
    ensures forall i :: 0 <= i < i1 - i0 ==> IsProbe(p, sorted[i0..i1][i]) && sorted[i0..i1][i].listNo == listNo
  {
    hide IsProbe;
  }

  lemma ListInRange(p: Probing, qc: QC)
    requires p.Valid() && IsProbe(p, qc)
    ensures qc.listNo < |p.sizes|
  {
  }

  lemma {:induction false} BatchVolume(scans: seq<Scan>, batch: Batch, size: nat)
    requires forall i :: 0 <= i < |batch| ==> batch[i].size == size
    ensures Volume(scans + batch) == Volume(scans) + |batch| * size
    decreases |batch|
  {
    if batch == [] {
      assert scans + batch == scans;
    } else {
      var n := |batch| - 1;
      BatchVolume(scans, batch[..n], size);
      assert (scans + batch)[..|scans| + n] == scans + batch[..n];
      assert |batch| * size == n * size + size;
    }
  }

  // ---------- the two searches compared ----------

  lemma IsItsPlace(p: Probing, ij: nat, i: nat, listNo: nat, j: nat)
    requires p.Valid() && ij < |p.ids| && p.ids[ij] >= 0 && i < p.n && j < p.nprobe
    ensures p.Probe(ij) == QC(i, listNo, j) <==> ij == i * p.nprobe + j && p.ids[ij] == listNo
  {
    Place(p, i, j);
    assert ij == ij / p.nprobe * p.nprobe + ij % p.nprobe;
  }

  lemma MoreProbes(p: Probing, m: nat)
    requires p.Valid() && m < |p.ids|
    ensures p.Probes(m + 1) == p.Probes(m) + if p.ids[m] < 0 then [] else [p.Probe(m)]
  {
  }

  /** Every place of the probe table that names a list is probed once, for its query and rank. */
  lemma {:induction false} ProbedOnce(p: Probing, m: nat, i: nat, listNo: nat, j: nat)
    requires p.Valid() && m <= |p.ids| && i < p.n && j < p.nprobe
    ensures i * p.nprobe + j < |p.ids|
    ensures multiset(p.Probes(m))[QC(i, listNo, j)]
      == if i * p.nprobe + j < m && p.ids[i * p.nprobe + j] == listNo then 1 else 0
  {
    hide Probing.Probes, Probing.Probe;
    Place(p, i, j);
    if m == 0 {
      NoProbes(p);
    } else {
      ProbedOnce(p, m - 1, i, listNo, j);
      MoreProbes(p, m - 1);
      if p.ids[m - 1] >= 0 {
        IsItsPlace(p, m - 1, i, listNo, j);
      }
    }
  }

  /**
   The scan of place ij of the probe table: the list it names, when that is not empty, for the
   query and the rank of the place, with the row of the query, or of the place, and the bias there.
   */
  ghost predicate IsScanOf(p: Probing, ij: nat, e: Scan)
    requires p.Valid() && ij < |p.ids|
  {
    && e.rank < p.nprobe && ij == e.qno * p.nprobe + e.rank
    && p.ids[ij] == e.listNo && e.size == p.sizes[e.listNo] > 0
    && e.lut == (if p.singleLut then e.qno else ij)
    && e.bias == if p.biases.Some? then Some(p.biases.value[ij]) else None
  }

  /** One place makes the scan that is its own and no other. */
  lemma PlaceScans(p: Probing, ij: nat, e: Scan)
    requires p.Valid() && ij < |p.ids| && p.ids[ij] >= 0
    ensures multiset(p.ScansOf(p.Probe(ij)))[e] == if IsScanOf(p, ij, e) then 1 else 0
  {
    var i, j := ij / p.nprobe, ij % p.nprobe;
    QuotientEquation(ij, p.nprobe);
    if e.rank < p.nprobe && ij == e.qno * p.nprobe + e.rank {
      DivMod(e.qno, p.nprobe, e.rank);
    }
  }

  /** The scans made are exactly those of the places, once each. */
  lemma {:induction false} ScannedOnce(p: Probing, m: nat, e: Scan)
    requires p.Valid() && m <= |p.ids|
    ensures var ij := e.qno * p.nprobe + e.rank;
      multiset(FlatMap(p.Probes(m), p.Scanner()))[e] == if ij < m && IsScanOf(p, ij, e) then 1 else 0
  {
    hide Probing.Probes, Probing.Probe, Probing.ScansOf, FlatMap, IsScanOf;
    if m == 0 {
      NoScans(p);
    } else {
      ScannedOnce(p, m - 1, e);
      MoreProbes(p, m - 1);
      var before := FlatMap(p.Probes(m - 1), p.Scanner());
      if p.ids[m - 1] >= 0 {
        FlatMapMore(p.Probes(m - 1), p.Probe(m - 1), p.Scanner());
        PlaceScans(p, m - 1, e);
        ScanPlace(p, m - 1, e);
        var more := p.ScansOf(p.Probe(m - 1));
        assert multiset(before + more)[e] == multiset(before)[e] + multiset(more)[e];
      } else {
        ScanPlace(p, m - 1, e);
        assert p.Probes(m - 1) + [] == p.Probes(m - 1);
      }
    }
  }

  lemma ScanPlace(p: Probing, ij: nat, e: Scan)
    requires p.Valid() && ij < |p.ids|
    ensures IsScanOf(p, ij, e) ==> ij == e.qno * p.nprobe + e.rank && p.ids[ij] >= 0
  {
  }

  /** The scans are made query by query, and for a query by rank. */
  lemma {:induction false} ScansInOrder(p: Probing, m: nat)
    requires p.Valid() && m <= |p.ids|
    ensures var log := FlatMap(p.Probes(m), p.Scanner());
      && (forall a :: 0 <= a < |log| ==> log[a].qno * p.nprobe + log[a].rank < m)
      && (forall a, c :: 0 <= a < c < |log| ==>
            log[a].qno * p.nprobe + log[a].rank < log[c].qno * p.nprobe + log[c].rank)
  {
    hide Probing.Probes, FlatMap;
    if m == 0 {
      NoScans(p);
    } else {
      ScansInOrder(p, m - 1);
      MoreProbes(p, m - 1);
      if p.ids[m - 1] >= 0 {
        FlatMapMore(p.Probes(m - 1), p.Probe(m - 1), p.Scanner());
        QuotientEquation(m - 1, p.nprobe);
      } else {
        assert p.Probes(m - 1) + [] == p.Probes(m - 1);
      }
    }
  }

  lemma {:induction false} VolumeConcat(a: seq<Scan>, b: seq<Scan>)
    ensures Volume(a + b) == Volume(a) + Volume(b)
    decreases |b|
  {
    if b == [] {
      assert a + b == a;
    } else {
      assert (a + b)[..|a| + |b| - 1] == a + b[..|b| - 1];
      VolumeConcat(a, b[..|b| - 1]);
    }
  }

  lemma VolumeMore(s: seq<Scan>, e: Scan)
    ensures Volume(s + [e]) == Volume(s) + e.size
  {
    assert (s + [e])[..|s|] == s;
  }

  lemma VolumeTakeOut(b: seq<Scan>, i: nat)
    requires i < |b|
    ensures Volume(b) == Volume(b[..i] + b[i + 1..]) + b[i].size
  {
    hide Volume;
    assert b == b[..i] + [b[i]] + b[i + 1..];
    VolumeMore(b[..i], b[i]);
    VolumeConcat(b[..i] + [b[i]], b[i + 1..]);
    VolumeConcat(b[..i], b[i + 1..]);
  }

  lemma {:induction false} VolumeMultiset(a: seq<Scan>, b: seq<Scan>)
    requires multiset(a) == multiset(b)
    ensures Volume(a) == Volume(b)
    decreases |a|
  {
    if a == [] {
      assert |multiset(b)| == 0;
    } else {
      hide Volume;
      var e := a[|a| - 1];
      assert e in multiset(b);
      var i :| 0 <= i < |b| && b[i] == e;
      var front, rest := a[..|a| - 1], b[..i] + b[i + 1..];
      assert a == front + [e] && b == b[..i] + [e] + b[i + 1..];
      CancelOne(multiset(front), multiset(rest), e);
      VolumeMultiset(front, rest);
      VolumeTakeOut(b, i);
      VolumeTakeOut(a, |a| - 1);
      assert a[..|a| - 1] + a[|a|..] == front;
    }
  }

  /** Batching by list changes neither the scans that are made nor the number of codes seen. */
  lemma BatchedIsNested(p: Probing, sorted: seq<QC>, batches: seq<Batch>)
    requires p.Valid() && IsSortOf(sorted, p.Probes(|p.ids|))
    requires Flatten(batches) == FlatMap(sorted, p.Scanner())
    ensures var log := FlatMap(p.Probes(|p.ids|), p.Scanner());
      multiset(Flatten(batches)) == multiset(log) && Volume(Flatten(batches)) == Volume(log)
  {
    FlatMapMultiset(sorted, p.Probes(|p.ids|), p.Scanner());
    VolumeMultiset(Flatten(batches), FlatMap(p.Probes(|p.ids|), p.Scanner()));
  }

  /** The results of the scans of query q, when a scan finds what found says. */
  function Candidates(scans: seq<Scan>, q: nat, found: Scan -> seq<Entry>): seq<Entry> {
    FlatMap(scans, ForQuery(q, found))
  }

  function ForQuery(q: nat, found: Scan -> seq<Entry>): (f: Scan -> seq<Entry>)
    ensures forall scan :: f(scan) == if scan.qno == q then found(scan) else []
  {
    (scan: Scan) => if scan.qno == q then found(scan) else []
  }

  /** Whatever a scan finds, the top k of both searches are at the same distances. */
  lemma SameDistances(p: Probing, sorted: seq<QC>, batches: seq<Batch>, q: nat, found: Scan -> seq<Entry>,
                      r10: seq<Entry>, r12: seq<Entry>)
    requires p.Valid() && IsSortOf(sorted, p.Probes(|p.ids|))
    requires Flatten(batches) == FlatMap(sorted, p.Scanner())
    requires IsTopKResult(r10, Candidates(FlatMap(p.Probes(|p.ids|), p.Scanner()), q, found))
    requires IsTopKResult(r12, Candidates(Flatten(batches), q, found)) && |r10| == |r12|
    ensures forall i :: 0 <= i < |r10| ==> r10[i].dis == r12[i].dis
  {
    var log := FlatMap(p.Probes(|p.ids|), p.Scanner());
    BatchedIsNested(p, sorted, batches);
    FlatMapMultiset(log, Flatten(batches), ForQuery(q, found));
    ResultDistancesUnique(r10, Candidates(log, q, found), r12, Candidates(Flatten(batches), q, found));
  }
}
