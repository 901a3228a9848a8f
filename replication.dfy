/** The second pass of the integrity monitor, `checkReplicationFactor`, as a fold over the
    metadata snapshot: every chunk index whose active replicas fall short of the target gets new
    copies (`replicateChunk`), every index with too many loses the replicas with the highest
    replica index (`removeExcessReplicas`). The metadata store and the fleet change together. */
module Replication {
  import opened Common
  import opened Locations
  import opened Network
  import opened Master

  /** The metadata store of the master together with the fleet. */
  datatype Cluster = Cluster(store: map<PdfId, PdfMetadata>, nodes: Nodes)

  /** A cluster and the number of replicas an operation created or removed. */
  datatype Step = Step(cluster: Cluster, count: nat)

  /** The four figures `checkReplicationFactor` reports. */
  datatype Counts = Counts(under: nat, over: nat, created: nat, removed: nat)

  datatype Balance = Balance(cluster: Cluster, counts: Counts)

  /** The active replicas of a bucket: on a healthy server and confirmed present, in list order. */
  function ActiveReplicas(replicas: seq<ChunkLocation>, healthy: seq<Url>, nodes: Nodes, key: ChunkKey)
    : seq<ChunkLocation>
  {
    if replicas == [] then []
    else
      var last := replicas[|replicas| - 1];
      ActiveReplicas(replicas[..|replicas| - 1], healthy, nodes, key)
        + (if last.chunkserverUrl in healthy && ChunkExists(nodes, last.chunkserverUrl, key) then [last] else [])
  }

  lemma {:induction false} ActiveMembers(replicas: seq<ChunkLocation>, healthy: seq<Url>, nodes: Nodes, key: ChunkKey)
    ensures forall c :: c in ActiveReplicas(replicas, healthy, nodes, key) <==>
                          c in replicas && c.chunkserverUrl in healthy && ChunkExists(nodes, c.chunkserverUrl, key)
    ensures |ActiveReplicas(replicas, healthy, nodes, key)| <= |replicas|
  {
    if replicas != [] {
      var init := replicas[..|replicas| - 1];
      assert replicas == init + [replicas[|replicas| - 1]];
      ActiveMembers(init, healthy, nodes, key);
    }
  }

  /** The healthy servers outside `exclude`, in list order (the target filter of `replicateChunk`). */
  function Candidates(healthy: seq<Url>, exclude: set<Url>): seq<Url> {
    if healthy == [] then []
    else
      var last := healthy[|healthy| - 1];
      Candidates(healthy[..|healthy| - 1], exclude) + (if last in exclude then [] else [last])
  }

  lemma {:induction false} CandidatesMembers(healthy: seq<Url>, exclude: set<Url>)
    ensures forall u :: u in Candidates(healthy, exclude) <==> u in healthy && u !in exclude
    ensures Distinct(healthy) ==> Distinct(Candidates(healthy, exclude))
  {
    if healthy != [] {
      var init, last := healthy[..|healthy| - 1], healthy[|healthy| - 1];
      assert healthy == init + [last];
      CandidatesMembers(init, exclude);
      if Distinct(healthy) {
        assert Distinct(init) by {
          forall i, j | 0 <= i < j < |init| ensures init[i] != init[j] { assert init[i] == healthy[i] && init[j] == healthy[j]; }
        }
        assert last !in init by {
          forall i | 0 <= i < |init| ensures init[i] != last { assert init[i] == healthy[i]; }
        }
      }
    }
  }

  /** `mapToInt(getReplicaIndex).max().orElse(-1)`. */
  function MaxReplicaIndex(rs: seq<ChunkLocation>): (m: int)
    ensures forall c :: c in rs ==> c.replicaIndex <= m
    ensures rs == [] ==> m == -1
    ensures rs != [] ==> exists c :: c in rs && c.replicaIndex == m
  {
    if rs == [] then -1
    else
      var init, last := rs[..|rs| - 1], rs[|rs| - 1];
      assert rs == init + [last];
      var m := MaxReplicaIndex(init);
      assert forall c :: c in rs ==> c in init || c == last;
      if init == [] || last.replicaIndex > m then
        assert last in rs;
        last.replicaIndex
      else
        assert forall c :: c in init ==> c in rs;
        m
  }

  /** The source of `replicateChunk`: the first replica on a healthy server. */
  function FirstOnHealthy(replicas: seq<ChunkLocation>, healthy: seq<Url>): (r: Option<nat>)
    ensures r.Some? ==> r.value < |replicas| && replicas[r.value].chunkserverUrl in healthy
                        && forall j :: 0 <= j < r.value ==> replicas[j].chunkserverUrl !in healthy
    ensures r.None? ==> forall j :: 0 <= j < |replicas| ==> replicas[j].chunkserverUrl !in healthy
  {
    if replicas == [] then None
    else if replicas[0].chunkserverUrl in healthy then Some(0)
    else
      match FirstOnHealthy(replicas[1..], healthy)
      case None => None
      case Some(k) => Some(k + 1)
  }

  /** The loop of `replicateChunk` over the targets: each write that reaches its node is
      followed by a new location with replica index `next`. */
  function CopyToTargets(c: Cluster, pdfId: PdfId, chunkIndex: int, data: Bytes, targets: seq<Url>, next: int)
    : (r: Step)
    ensures r.count <= |targets|
  {
    if targets == [] then Step(c, 0)
    else
      var prev := CopyToTargets(c, pdfId, chunkIndex, data, targets[..|targets| - 1], next);
      var t := targets[|targets| - 1];
      if t in prev.cluster.nodes then
        Step(Cluster(WithReplica(prev.cluster.store, pdfId, ChunkLocation(chunkIndex, t, next)),
                     WriteChunk(prev.cluster.nodes, t, ChunkKey(pdfId, chunkIndex), data)),
             prev.count + 1)
      else prev
  }

  /** The targets of `replicateChunk`: up to `needed` healthy servers holding no listed replica. */
  function Targets(existing: seq<ChunkLocation>, needed: int, healthy: seq<Url>): seq<Url> {
    Take(Candidates(healthy, Urls(existing)), needed)
  }

  /** `replicateChunk`: nothing without a source on a healthy server, without targets, or when
      the source cannot be read; otherwise the source's payload is copied to every target. */
  function Replicate(c: Cluster, pdfId: PdfId, chunkIndex: int, existing: seq<ChunkLocation>, needed: int,
                     healthy: seq<Url>): Step
  {
    match FirstOnHealthy(existing, healthy)
    case None => Step(c, 0)
    case Some(s) =>
      var targets := Targets(existing, needed, healthy);
      if targets == [] then Step(c, 0)
      else
        match ReadChunk(c.nodes, existing[s].chunkserverUrl, ChunkKey(pdfId, chunkIndex))
        case None => Step(c, 0)
        case Some(data) => CopyToTargets(c, pdfId, chunkIndex, data, targets, MaxReplicaIndex(existing) + 1)
  }

  /** The locations listed by decreasing replica index. */
  predicate SortedDesc(s: seq<ChunkLocation>) {
    forall i, j :: 0 <= i < j < |s| ==> s[i].replicaIndex >= s[j].replicaIndex
  }

  /** A sorted list stays sorted under a head no smaller than every element. */
  lemma SortedCons(a: ChunkLocation, t: seq<ChunkLocation>)
    requires SortedDesc(t) && forall j :: 0 <= j < |t| ==> t[j].replicaIndex <= a.replicaIndex
    ensures SortedDesc([a] + t)
  {
    var s := [a] + t;
    forall i, j | 0 <= i < j < |s| ensures s[i].replicaIndex >= s[j].replicaIndex {
      if i > 0 { assert s[i] == t[i - 1]; }
      assert s[j] == t[j - 1];
    }
  }

  /** `x` placed before the first element whose replica index is at most its own. */
  function InsertByReplicaDesc(x: ChunkLocation, s: seq<ChunkLocation>): (r: seq<ChunkLocation>)
    requires SortedDesc(s)
    ensures SortedDesc(r) && multiset(r) == multiset(s) + multiset{x}
  {
    if s == [] then [x]
    else if s[0].replicaIndex <= x.replicaIndex then
      assert s == [s[0]] + s[1..];
      SortedCons(x, s);
      [x] + s
    else
      var tail := s[1..];
      assert s == [s[0]] + tail;
      assert SortedDesc(tail) by {
        forall i, j | 0 <= i < j < |tail| ensures tail[i].replicaIndex >= tail[j].replicaIndex {
          assert tail[i] == s[i + 1] && tail[j] == s[j + 1];
        }
      }
      var rest := InsertByReplicaDesc(x, tail);
      assert forall j :: 0 <= j < |rest| ==> rest[j].replicaIndex <= s[0].replicaIndex by {
        forall j | 0 <= j < |rest| ensures rest[j].replicaIndex <= s[0].replicaIndex {
          assert rest[j] in multiset(rest);
          assert rest[j] in multiset(tail) || rest[j] == x;
          if rest[j] != x {
            assert rest[j] in tail;
            var k :| 0 <= k < |tail| && tail[k] == rest[j];
            assert tail[k] == s[k + 1];
          }
        }
      }
      SortedCons(s[0], rest);
      [s[0]] + rest
  }

  /** `sorted(comparingInt(getReplicaIndex).reversed())`: an insertion sort that, like the
      stable sort of Java streams, keeps replicas with equal indices in list order. */
  function SortByReplicaDesc(s: seq<ChunkLocation>): (r: seq<ChunkLocation>)
    ensures SortedDesc(r) && multiset(r) == multiset(s)
  {
    if s == [] then []
    else
      assert s == [s[0]] + s[1..];
      InsertByReplicaDesc(s[0], SortByReplicaDesc(s[1..]))
  }

  /** The replicas `removeExcessReplicas` tries to evict: the first `excess` after sorting. */
  function Victims(active: seq<ChunkLocation>, excess: int): seq<ChunkLocation> {
    Take(SortByReplicaDesc(active), excess)
  }

  /** The eviction loop: a delete that reaches its node is followed by the removal of the
      location from the metadata; a failed delete leaves both alone. */
  function Evict(c: Cluster, pdfId: PdfId, chunkIndex: int, victims: seq<ChunkLocation>): (r: Step)
    ensures r.count <= |victims|
  {
    if victims == [] then Step(c, 0)
    else
      var prev := Evict(c, pdfId, chunkIndex, victims[..|victims| - 1]);
      var url := victims[|victims| - 1].chunkserverUrl;
      if url in prev.cluster.nodes then
        Step(Cluster(WithoutReplica(prev.cluster.store, pdfId, chunkIndex, url),
                     DeleteChunk(prev.cluster.nodes, url, ChunkKey(pdfId, chunkIndex))),
             prev.count + 1)
      else prev
  }

  /** `removeExcessReplicas`. */
  function RemoveExcess(c: Cluster, pdfId: PdfId, chunkIndex: int, active: seq<ChunkLocation>, excess: int): Step {
    Evict(c, pdfId, chunkIndex, Victims(active, excess))
  }

  /** One chunk index of `checkReplicationFactor`: compare the active replicas with
      min(replicationFactor, healthy servers) and replicate or evict the difference. */
  function BalanceChunk(b: Balance, pdf: PdfMetadata, chunkIndex: int, healthy: seq<Url>, rf: nat): Balance {
    var key := ChunkKey(pdf.pdfId, chunkIndex);
    var active := ActiveReplicas(ReplicasOf(pdf.chunks, chunkIndex), healthy, b.cluster.nodes, key);
    var target := Min(rf, |healthy|);
    if |active| < target then
      var s := Replicate(b.cluster, pdf.pdfId, chunkIndex, active, target - |active|, healthy);
      Balance(s.cluster, b.counts.(under := b.counts.under + 1, created := b.counts.created + s.count))
    else if |active| > target then
      var s := RemoveExcess(b.cluster, pdf.pdfId, chunkIndex, active, |active| - target);
      Balance(s.cluster, b.counts.(over := b.counts.over + 1, removed := b.counts.removed + s.count))
    else b
  }

  /** The index groups of one blob, visited in `order`. */
  function BalanceIndices(b: Balance, pdf: PdfMetadata, order: seq<int>, healthy: seq<Url>, rf: nat): Balance {
    if order == [] then b
    else BalanceChunk(BalanceIndices(b, pdf, order[..|order| - 1], healthy, rf), pdf, order[|order| - 1], healthy, rf)
  }

  /** The blobs of the snapshot, visited in order. */
  function BalancePdfs(b: Balance, pdfs: seq<PdfMetadata>, healthy: seq<Url>, rf: nat): Balance {
    if pdfs == [] then b
    else
      var pdf := pdfs[|pdfs| - 1];
      BalanceIndices(BalancePdfs(b, pdfs[..|pdfs| - 1], healthy, rf), pdf, DistinctIndices(pdf.chunks), healthy, rf)
  }

  // ---------------------------------------------------------------------------------------
  // Properties
  // ---------------------------------------------------------------------------------------

  /** The targets are healthy, distinct when the healthy list is, hold no listed replica, and
      are as many as `needed` allows: all such servers when there are fewer. */
  lemma TargetsFit(existing: seq<ChunkLocation>, needed: int, healthy: seq<Url>)
    ensures forall t :: t in Targets(existing, needed, healthy) ==> t in healthy && t !in Urls(existing)
    ensures Distinct(healthy) ==> Distinct(Targets(existing, needed, healthy))
    ensures Distinct(healthy) ==>
              |Targets(existing, needed, healthy)|
              == if needed <= 0 then 0 else Min(needed, |set u | u in healthy && u !in Urls(existing)|)
  {
    var cands := Candidates(healthy, Urls(existing));
    var targets := Targets(existing, needed, healthy);
    CandidatesMembers(healthy, Urls(existing));
    assert forall t :: t in targets ==> t in cands by {
      forall t | t in targets ensures t in cands {
        var i :| 0 <= i < |targets| && targets[i] == t;
        assert cands[i] == t;
      }
    }
    if Distinct(healthy) {
      assert Distinct(targets) by {
        forall i, j | 0 <= i < j < |targets| ensures targets[i] != targets[j] { assert targets[i] == cands[i]; }
      }
      DistinctCardinality(cands);
      assert (set u | u in cands) == (set u | u in healthy && u !in Urls(existing));
    }
  }

  /** The copy loop writes `data` under the chunk's key on every reachable target; no other node
      and no other key of a target changes, and no node joins or leaves. */
  lemma {:induction false} CopyToTargetsWrites(c: Cluster, pdfId: PdfId, chunkIndex: int, data: Bytes,
                                               targets: seq<Url>, next: int)
    ensures var r := CopyToTargets(c, pdfId, chunkIndex, data, targets, next);
            && r.cluster.nodes.Keys == c.nodes.Keys
            && forall u :: u in c.nodes ==>
                 r.cluster.nodes[u] == if u in targets then c.nodes[u][ChunkKey(pdfId, chunkIndex) := data] else c.nodes[u]
  {
    if targets != [] {
      var init, t := targets[..|targets| - 1], targets[|targets| - 1];
      CopyToTargetsWrites(c, pdfId, chunkIndex, data, init, next);
      assert forall u :: u in targets <==> u in init || u == t by {
        assert targets == init + [t];
      }
    }
  }

  /** The copy loop appends one location per reachable target, all with replica index `next`,
      each on a node that now holds `data`; nothing else in the metadata changes, the fleet
      changes only by those writes, and no node joins or leaves. */
  lemma {:induction false} CopyToTargetsAppends(c: Cluster, pdfId: PdfId, chunkIndex: int, data: Bytes,
                                                targets: seq<Url>, next: int)
    ensures var r := CopyToTargets(c, pdfId, chunkIndex, data, targets, next);
            && r.cluster.nodes.Keys == c.nodes.Keys
            && (forall u :: u in c.nodes ==>
                  r.cluster.nodes[u] == if u in targets then c.nodes[u][ChunkKey(pdfId, chunkIndex) := data] else c.nodes[u])
            && r.cluster.store.Keys == c.store.Keys
            && (forall p :: p in c.store && p != pdfId ==> r.cluster.store[p] == c.store[p])
            && (pdfId in c.store ==>
                  var before, after := c.store[pdfId].chunks, r.cluster.store[pdfId].chunks;
                  && r.cluster.store[pdfId] == c.store[pdfId].(chunks := after)
                  && |after| == |before| + r.count && after[..|before|] == before
                  && forall j :: |before| <= j < |after| ==>
                       && after[j].chunkIndex == chunkIndex && after[j].replicaIndex == next
                       && after[j].chunkserverUrl in targets
                       && ChunkExists(r.cluster.nodes, after[j].chunkserverUrl, ChunkKey(pdfId, chunkIndex))
                       && r.cluster.nodes[after[j].chunkserverUrl][ChunkKey(pdfId, chunkIndex)] == data)
  {
    CopyToTargetsWrites(c, pdfId, chunkIndex, data, targets, next);
    if targets != [] {
      var init, t := targets[..|targets| - 1], targets[|targets| - 1];
      var key := ChunkKey(pdfId, chunkIndex);
      CopyToTargetsAppends(c, pdfId, chunkIndex, data, init, next);
      var prev := CopyToTargets(c, pdfId, chunkIndex, data, init, next);
      assert forall u :: u in init ==> u in targets;
      if t in prev.cluster.nodes && pdfId in c.store {
        var before, mid := c.store[pdfId].chunks, prev.cluster.store[pdfId].chunks;
        var r := CopyToTargets(c, pdfId, chunkIndex, data, targets, next);
        var after := r.cluster.store[pdfId].chunks;
        assert after == mid + [ChunkLocation(chunkIndex, t, next)];
        assert after[..|before|] == mid[..|before|];
        forall j | |before| <= j < |after|
          ensures ChunkExists(r.cluster.nodes, after[j].chunkserverUrl, key)
                  && r.cluster.nodes[after[j].chunkserverUrl][key] == data
        {
          if j < |mid| { assert after[j] == mid[j]; }
        }
      }
    }
  }

  /** `replicateChunk` only appends: every new location is on a healthy server that held no
      listed replica, carries the same replica index, one above every existing one, and names a
      node that now holds the payload of the source. At most `needed` are created, and nothing
      happens without a source. In the fleet, exactly the targets that answer gain the source's
      payload under the chunk's key, when the source holds it; nothing else changes. */
  lemma ReplicateAddsFreshReplicas(c: Cluster, pdfId: PdfId, chunkIndex: int, existing: seq<ChunkLocation>,
                                   needed: int, healthy: seq<Url>)
    ensures var r := Replicate(c, pdfId, chunkIndex, existing, needed, healthy);
            && r.count <= (if needed <= 0 then 0 else needed)
            && (FirstOnHealthy(existing, healthy).None? ==> r == Step(c, 0))
            && r.cluster.nodes.Keys == c.nodes.Keys
            && r.cluster.store.Keys == c.store.Keys
            && (forall p :: p in c.store && p != pdfId ==> r.cluster.store[p] == c.store[p])
            && (pdfId in c.store ==>
                  var before, after := c.store[pdfId].chunks, r.cluster.store[pdfId].chunks;
                  && r.cluster.store[pdfId] == c.store[pdfId].(chunks := after)
                  && |after| == |before| + r.count && after[..|before|] == before
                  && forall j :: |before| <= j < |after| ==>
                       && after[j].chunkIndex == chunkIndex
                       && after[j].replicaIndex == MaxReplicaIndex(existing) + 1
                       && after[j].chunkserverUrl in healthy && after[j].chunkserverUrl !in Urls(existing)
                       && ChunkExists(r.cluster.nodes, after[j].chunkserverUrl, ChunkKey(pdfId, chunkIndex)))
            && match FirstOnHealthy(existing, healthy)
               case None => r.cluster.nodes == c.nodes
               case Some(s) =>
                 var src, key := existing[s].chunkserverUrl, ChunkKey(pdfId, chunkIndex);
                 && (forall u :: u in c.nodes ==>
                       r.cluster.nodes[u] ==
                         if u in Targets(existing, needed, healthy) && ChunkExists(c.nodes, src, key)
                         then c.nodes[u][key := c.nodes[src][key]] else c.nodes[u])
                 && (pdfId in c.store ==>
                       var before, after := c.store[pdfId].chunks, r.cluster.store[pdfId].chunks;
                       forall j :: |before| <= j < |after| ==>
                         && ChunkExists(c.nodes, src, key) && ChunkExists(r.cluster.nodes, after[j].chunkserverUrl, key)
                         && r.cluster.nodes[after[j].chunkserverUrl][key] == c.nodes[src][key])
  {
    match FirstOnHealthy(existing, healthy)
    case None =>
    case Some(s) =>
      var targets := Targets(existing, needed, healthy);
      TargetsFit(existing, needed, healthy);
      if targets != [] {
        match ReadChunk(c.nodes, existing[s].chunkserverUrl, ChunkKey(pdfId, chunkIndex))
        case None =>
        case Some(data) =>
          CopyToTargetsAppends(c, pdfId, chunkIndex, data, targets, MaxReplicaIndex(existing) + 1);
      }
  }

  /** The eviction loop only removes: a location leaves the metadata only for a victim's server,
      which answered and no longer holds the chunk; no other chunk is deleted anywhere. */
  lemma {:induction false} EvictOnlyDeleted(c: Cluster, pdfId: PdfId, chunkIndex: int, victims: seq<ChunkLocation>)
    ensures var r := Evict(c, pdfId, chunkIndex, victims); var key := ChunkKey(pdfId, chunkIndex);
            && r.cluster.nodes.Keys == c.nodes.Keys
            && r.cluster.store.Keys == c.store.Keys
            && (forall p :: p in c.store && p != pdfId ==> r.cluster.store[p] == c.store[p])
            && (forall u, k :: u in c.nodes && k in c.nodes[u] && k != key ==>
                  k in r.cluster.nodes[u] && r.cluster.nodes[u][k] == c.nodes[u][k])
            && (pdfId in c.store ==>
                  var before, after := c.store[pdfId].chunks, r.cluster.store[pdfId].chunks;
                  && r.cluster.store[pdfId] == c.store[pdfId].(chunks := after)
                  && (forall l :: l in after ==> l in before)
                  && forall l :: l in before && l !in after ==>
                       && l.chunkIndex == chunkIndex && l.chunkserverUrl in Urls(victims)
                       && l.chunkserverUrl in c.nodes && !ChunkExists(r.cluster.nodes, l.chunkserverUrl, key))
  {
    if victims != [] {
      var init, v := victims[..|victims| - 1], victims[|victims| - 1];
      var key := ChunkKey(pdfId, chunkIndex);
      EvictOnlyDeleted(c, pdfId, chunkIndex, init);
      var prev := Evict(c, pdfId, chunkIndex, init);
      assert Urls(init) <= Urls(victims) && v.chunkserverUrl in Urls(victims) by {
        assert victims == init + [v];
      }
      if v.chunkserverUrl in prev.cluster.nodes && pdfId in c.store {
        RemoveMatchingMembers(prev.cluster.store[pdfId].chunks, chunkIndex, v.chunkserverUrl);
      }
    }
  }

  /** The evicted replicas come from the active ones, are at most `excess`, and each has a
      replica index at least that of every active replica that stays. */
  lemma VictimsAreHighest(active: seq<ChunkLocation>, excess: int)
    ensures var victims := Victims(active, excess);
            && |victims| <= (if excess <= 0 then 0 else excess)
            && multiset(victims) <= multiset(active)
            && forall v, w :: v in victims && w in multiset(active) - multiset(victims) ==>
                 v.replicaIndex >= w.replicaIndex
  {
    var sorted := SortByReplicaDesc(active);
    var k := |Victims(active, excess)|;
    assert Victims(active, excess) == sorted[..k];
    PrefixHighest(sorted, k);
  }

  /** In a list sorted by decreasing replica index, a prefix holds the highest ones. */
  lemma PrefixHighest(sorted: seq<ChunkLocation>, k: nat)
    requires SortedDesc(sorted) && k <= |sorted|
    ensures multiset(sorted[..k]) <= multiset(sorted)
    ensures forall v, w :: v in sorted[..k] && w in multiset(sorted) - multiset(sorted[..k]) ==>
              v.replicaIndex >= w.replicaIndex
  {
    var prefix, rest := sorted[..k], sorted[k..];
    assert sorted == prefix + rest;
    assert multiset(sorted) - multiset(prefix) == multiset(rest) by {
      assert multiset(sorted) == multiset(prefix) + multiset(rest);
    }
    PrefixAboveRest(sorted, k);
  }

  /** Every element of the prefix ranks at least as high as every element after it. */
  lemma PrefixAboveRest(sorted: seq<ChunkLocation>, k: nat)
    requires SortedDesc(sorted) && k <= |sorted|
    ensures forall v, w :: v in sorted[..k] && w in sorted[k..] ==> v.replicaIndex >= w.replicaIndex
  {
    forall v, w | v in sorted[..k] && w in sorted[k..]
      ensures v.replicaIndex >= w.replicaIndex
    {
      var i :| 0 <= i < k && sorted[..k][i] == v;
      var j :| 0 <= j < |sorted| - k && sorted[k..][j] == w;
      assert sorted[i] == v && sorted[k + j] == w;
    }
  }

  /** An index short of the target: the lists of the metadata only grow at the end, nothing is
      evicted, and at most the shortfall is created. */
  lemma BalanceChunkUnder(b: Balance, pdf: PdfMetadata, chunkIndex: int, healthy: seq<Url>, rf: nat)
    requires |ActiveReplicas(ReplicasOf(pdf.chunks, chunkIndex), healthy, b.cluster.nodes, ChunkKey(pdf.pdfId, chunkIndex))|
             < Min(rf, |healthy|)
    ensures var r := BalanceChunk(b, pdf, chunkIndex, healthy, rf);
            var active := ActiveReplicas(ReplicasOf(pdf.chunks, chunkIndex), healthy, b.cluster.nodes,
                                         ChunkKey(pdf.pdfId, chunkIndex));
            && r.cluster.nodes.Keys == b.cluster.nodes.Keys && r.cluster.store.Keys == b.cluster.store.Keys
            && r.counts.over == b.counts.over && r.counts.removed == b.counts.removed
            && r.counts.created - b.counts.created <= Min(rf, |healthy|) - |active|
            && forall p :: p in b.cluster.store ==>
                 var before := b.cluster.store[p].chunks;
                 |before| <= |r.cluster.store[p].chunks| && r.cluster.store[p].chunks[..|before|] == before
  {
    var active := ActiveReplicas(ReplicasOf(pdf.chunks, chunkIndex), healthy, b.cluster.nodes, ChunkKey(pdf.pdfId, chunkIndex));
    var needed := Min(rf, |healthy|) - |active|;
    var s := Replicate(b.cluster, pdf.pdfId, chunkIndex, active, needed, healthy);
    assert && s.count <= needed
           && s.cluster.nodes.Keys == b.cluster.nodes.Keys && s.cluster.store.Keys == b.cluster.store.Keys
           && forall p :: p in b.cluster.store ==>
                var before := b.cluster.store[p].chunks;
                |before| <= |s.cluster.store[p].chunks| && s.cluster.store[p].chunks[..|before|] == before
    by {
      ReplicateAddsFreshReplicas(b.cluster, pdf.pdfId, chunkIndex, active, needed, healthy);
    }
  }

  /** An index above the target: the lists of the metadata only lose locations, nothing is
      created, and at most the excess is evicted. */
  lemma BalanceChunkOver(b: Balance, pdf: PdfMetadata, chunkIndex: int, healthy: seq<Url>, rf: nat)
    requires |ActiveReplicas(ReplicasOf(pdf.chunks, chunkIndex), healthy, b.cluster.nodes, ChunkKey(pdf.pdfId, chunkIndex))|
             > Min(rf, |healthy|)
    ensures var r := BalanceChunk(b, pdf, chunkIndex, healthy, rf);
            var active := ActiveReplicas(ReplicasOf(pdf.chunks, chunkIndex), healthy, b.cluster.nodes,
                                         ChunkKey(pdf.pdfId, chunkIndex));
            && r.cluster.nodes.Keys == b.cluster.nodes.Keys && r.cluster.store.Keys == b.cluster.store.Keys
            && r.counts.under == b.counts.under && r.counts.created == b.counts.created
            && r.counts.removed - b.counts.removed <= |active| - Min(rf, |healthy|)
            && forall p, l :: p in b.cluster.store && l in r.cluster.store[p].chunks ==> l in b.cluster.store[p].chunks
  {
    var active := ActiveReplicas(ReplicasOf(pdf.chunks, chunkIndex), healthy, b.cluster.nodes, ChunkKey(pdf.pdfId, chunkIndex));
    var excess := |active| - Min(rf, |healthy|);
    EvictOnlyDeleted(b.cluster, pdf.pdfId, chunkIndex, Victims(active, excess));
  }

  /** An index whose active replicas meet the target is left alone, and no index adds or
      removes a blob or a node. */
  lemma BalanceChunkKeeps(b: Balance, pdf: PdfMetadata, chunkIndex: int, healthy: seq<Url>, rf: nat)
    ensures var r := BalanceChunk(b, pdf, chunkIndex, healthy, rf);
            var active := ActiveReplicas(ReplicasOf(pdf.chunks, chunkIndex), healthy, b.cluster.nodes,
                                         ChunkKey(pdf.pdfId, chunkIndex));
            && r.cluster.nodes.Keys == b.cluster.nodes.Keys && r.cluster.store.Keys == b.cluster.store.Keys
            && (|active| == Min(rf, |healthy|) ==> r == b)
  {
    var active := ActiveReplicas(ReplicasOf(pdf.chunks, chunkIndex), healthy, b.cluster.nodes, ChunkKey(pdf.pdfId, chunkIndex));
    if |active| < Min(rf, |healthy|) {
      BalanceChunkUnder(b, pdf, chunkIndex, healthy, rf);
    } else if |active| > Min(rf, |healthy|) {
      BalanceChunkOver(b, pdf, chunkIndex, healthy, rf);
    }
  }

  /** The whole pass keeps the set of blobs and the set of nodes. */
  lemma {:induction false} BalancePdfsKeepsKeys(b: Balance, pdfs: seq<PdfMetadata>, healthy: seq<Url>, rf: nat)
    ensures BalancePdfs(b, pdfs, healthy, rf).cluster.store.Keys == b.cluster.store.Keys
    ensures BalancePdfs(b, pdfs, healthy, rf).cluster.nodes.Keys == b.cluster.nodes.Keys
  {
    if pdfs != [] {
      var pdf := pdfs[|pdfs| - 1];
      BalancePdfsKeepsKeys(b, pdfs[..|pdfs| - 1], healthy, rf);
      BalanceIndicesKeepsKeys(BalancePdfs(b, pdfs[..|pdfs| - 1], healthy, rf), pdf, DistinctIndices(pdf.chunks), healthy, rf);
    }
  }

  lemma {:induction false} BalanceIndicesKeepsKeys(b: Balance, pdf: PdfMetadata, order: seq<int>, healthy: seq<Url>, rf: nat)
    ensures BalanceIndices(b, pdf, order, healthy, rf).cluster.store.Keys == b.cluster.store.Keys
    ensures BalanceIndices(b, pdf, order, healthy, rf).cluster.nodes.Keys == b.cluster.nodes.Keys
  {
    if order != [] {
      BalanceIndicesKeepsKeys(b, pdf, order[..|order| - 1], healthy, rf);
      BalanceChunkKeeps(BalanceIndices(b, pdf, order[..|order| - 1], healthy, rf), pdf, order[|order| - 1], healthy, rf);
    }
  }
}
