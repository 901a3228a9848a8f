/** The master's integrity monitor (IntegrityMonitor.java): four periodic passes over the
    metadata snapshot and the storage fleet. Each pass is one sequential method call; each is
    specified by a fold over the snapshot, and the properties of the passes are proved about
    those folds. */
module Monitor {
  import opened Common
  import opened Locations
  import opened Network
  import opened Master
  import opened Replication
  import opened Cleanup
  import opened Collection

  // ---------------------------------------------------------------------------------------
  // Pass 1: checkIntegrity and repairChunk
  // ---------------------------------------------------------------------------------------

  /** `r` may serve as the source when repairing `target`: another healthy server that holds
      the chunk. */
  predicate IsRepairSource(r: ChunkLocation, target: Url, healthy: seq<Url>, nodes: Nodes, key: ChunkKey) {
    r.chunkserverUrl != target && r.chunkserverUrl in healthy && ChunkExists(nodes, r.chunkserverUrl, key)
  }

  /** The position of the first repair source in `replicas`, if any. */
  function FirstRepairSource(replicas: seq<ChunkLocation>, target: Url, healthy: seq<Url>, nodes: Nodes,
                             key: ChunkKey): (r: Option<nat>)
    ensures r.Some? ==> r.value < |replicas| && IsRepairSource(replicas[r.value], target, healthy, nodes, key)
                        && forall j :: 0 <= j < r.value ==> !IsRepairSource(replicas[j], target, healthy, nodes, key)
    ensures r.None? ==> forall j :: 0 <= j < |replicas| ==> !IsRepairSource(replicas[j], target, healthy, nodes, key)
  {
    if replicas == [] then None
    else if IsRepairSource(replicas[0], target, healthy, nodes, key) then Some(0)
    else
      match FirstRepairSource(replicas[1..], target, healthy, nodes, key)
      case None => None
      case Some(k) => Some(k + 1)
  }

  /** The first source is at `j` when `j` is a source and none comes before it. */
  lemma FirstRepairSourceAt(replicas: seq<ChunkLocation>, target: Url, healthy: seq<Url>, nodes: Nodes,
                            key: ChunkKey, j: nat)
    requires j < |replicas| && IsRepairSource(replicas[j], target, healthy, nodes, key)
    requires forall l :: 0 <= l < j ==> !IsRepairSource(replicas[l], target, healthy, nodes, key)
    ensures FirstRepairSource(replicas, target, healthy, nodes, key) == Some(j)
  {
  }

  /** The fleet after `repairChunk`: the payload of the first source copied to `target`. */
  function Repaired(nodes: Nodes, key: ChunkKey, target: Url, replicas: seq<ChunkLocation>, healthy: seq<Url>): Nodes {
    match FirstRepairSource(replicas, target, healthy, nodes, key)
    case None => nodes
    case Some(k) => WriteChunk(nodes, target, key, nodes[replicas[k].chunkserverUrl][key])
  }

  /** What `repairChunk` returns: a source was found and the copy reached `target`. */
  predicate RepairSucceeds(nodes: Nodes, key: ChunkKey, target: Url, replicas: seq<ChunkLocation>, healthy: seq<Url>) {
    FirstRepairSource(replicas, target, healthy, nodes, key).Some? && target in nodes
  }

  /** `after` holds every chunk of `before` with the same payload, on the same set of nodes. */
  ghost predicate Extends(before: Nodes, after: Nodes) {
    && after.Keys == before.Keys
    && forall u, k :: u in before && k in before[u] ==> k in after[u] && after[u][k] == before[u][k]
  }

  lemma ExtendsTrans(a: Nodes, b: Nodes, c: Nodes)
    requires Extends(a, b) && Extends(b, c)
    ensures Extends(a, c)
  {
  }

  /** A repair copies the payload of the first healthy other replica that holds the chunk, and
      writes nothing else; with no such source nothing is written. */
  lemma RepairCopiesFirstSource(nodes: Nodes, key: ChunkKey, target: Url, replicas: seq<ChunkLocation>,
                                healthy: seq<Url>)
    ensures var after := Repaired(nodes, key, target, replicas, healthy);
            var src := FirstRepairSource(replicas, target, healthy, nodes, key);
            && (src.None? ==> after == nodes)
            && (src.Some? && target in nodes ==>
                  var u := replicas[src.value].chunkserverUrl;
                  && u != target && u in healthy && ChunkExists(nodes, u, key)
                  && ChunkExists(after, target, key) && after[target][key] == nodes[u][key])
            && (RepairSucceeds(nodes, key, target, replicas, healthy) <==> ChunkExists(after, target, key) && src.Some?)
            && after.Keys == nodes.Keys
            && forall u, k :: u in nodes && (u != target || k != key) ==>
                 (k in after[u] <==> k in nodes[u]) && (k in nodes[u] ==> after[u][k] == nodes[u][k])
  {
  }

  /** The counts of `checkIntegrity` together with the fleet. */
  datatype Tally = Tally(nodes: Nodes, found: nat, repaired: nat)

  /** One replica visited by `checkIntegrity`: skipped on an unhealthy server or when present;
      otherwise a detected issue, and a repair attempt. */
  function ProbeStep(t: Tally, key: ChunkKey, probe: ChunkLocation, replicas: seq<ChunkLocation>,
                     healthy: seq<Url>): Tally
  {
    var url := probe.chunkserverUrl;
    if url !in healthy || ChunkExists(t.nodes, url, key) then t
    else
      Tally(Repaired(t.nodes, key, url, replicas, healthy), t.found + 1,
            t.repaired + if RepairSucceeds(t.nodes, key, url, replicas, healthy) then 1 else 0)
  }

  /** The replicas of one chunk index visited in list order. The ensures gives only the bound
      on the counts; the value itself is what `CheckReplicas` computes and the *Extends lemmas
      describe. */
  function ProbeBucket(t: Tally, key: ChunkKey, probes: seq<ChunkLocation>, replicas: seq<ChunkLocation>,
                       healthy: seq<Url>): (r: Tally)
    ensures t.found <= r.found && r.repaired - t.repaired <= r.found - t.found && t.repaired <= r.repaired
  {
    if probes == [] then t
    else
      ProbeStep(ProbeBucket(t, key, probes[..|probes| - 1], replicas, healthy), key, probes[|probes| - 1],
                replicas, healthy)
  }

  /** The chunk indices of one blob visited in `order`, each with its own bucket; as for
      `ProbeBucket`, the ensures is only the bound on the counts. */
  function ProbeIndices(t: Tally, pdf: PdfMetadata, order: seq<int>, healthy: seq<Url>): (r: Tally)
    ensures t.found <= r.found && r.repaired - t.repaired <= r.found - t.found && t.repaired <= r.repaired
  {
    if order == [] then t
    else
      var idx := order[|order| - 1];
      var bucket := ReplicasOf(pdf.chunks, idx);
      ProbeBucket(ProbeIndices(t, pdf, order[..|order| - 1], healthy), ChunkKey(pdf.pdfId, idx), bucket, bucket, healthy)
  }

  /** The blobs of the snapshot visited in order; as for `ProbeBucket`, the ensures is only
      the bound on the counts. */
  function ProbePdfs(t: Tally, pdfs: seq<PdfMetadata>, healthy: seq<Url>): (r: Tally)
    ensures t.found <= r.found && r.repaired - t.repaired <= r.found - t.found && t.repaired <= r.repaired
  {
    if pdfs == [] then t
    else
      var pdf := pdfs[|pdfs| - 1];
      ProbeIndices(ProbePdfs(t, pdfs[..|pdfs| - 1], healthy), pdf, DistinctIndices(pdf.chunks), healthy)
  }

  /** One visit never loses or alters a chunk. */
  lemma ProbeStepExtends(t: Tally, key: ChunkKey, probe: ChunkLocation, replicas: seq<ChunkLocation>, healthy: seq<Url>)
    ensures Extends(t.nodes, ProbeStep(t, key, probe, replicas, healthy).nodes)
  {
  }

  lemma {:induction false} ProbeBucketExtends(t: Tally, key: ChunkKey, probes: seq<ChunkLocation>,
                                              replicas: seq<ChunkLocation>, healthy: seq<Url>)
    ensures Extends(t.nodes, ProbeBucket(t, key, probes, replicas, healthy).nodes)
  {
    if probes != [] {
      var mid := ProbeBucket(t, key, probes[..|probes| - 1], replicas, healthy);
      ProbeBucketExtends(t, key, probes[..|probes| - 1], replicas, healthy);
      ProbeStepExtends(mid, key, probes[|probes| - 1], replicas, healthy);
      ExtendsTrans(t.nodes, mid.nodes, ProbeBucket(t, key, probes, replicas, healthy).nodes);
    }
  }

  lemma {:induction false} ProbeIndicesExtends(t: Tally, pdf: PdfMetadata, order: seq<int>, healthy: seq<Url>)
    ensures Extends(t.nodes, ProbeIndices(t, pdf, order, healthy).nodes)
  {
    if order != [] {
      var idx := order[|order| - 1];
      var bucket := ReplicasOf(pdf.chunks, idx);
      var mid := ProbeIndices(t, pdf, order[..|order| - 1], healthy);
      ProbeIndicesExtends(t, pdf, order[..|order| - 1], healthy);
      ProbeBucketExtends(mid, ChunkKey(pdf.pdfId, idx), bucket, bucket, healthy);
      ExtendsTrans(t.nodes, mid.nodes, ProbeIndices(t, pdf, order, healthy).nodes);
    }
  }

  /** `checkIntegrity` only fills in missing chunks: every chunk present before the pass is still
      present afterwards with the same payload, and no node appears or disappears. */
  lemma {:induction false} IntegrityOnlyRestores(t: Tally, pdfs: seq<PdfMetadata>, healthy: seq<Url>)
    ensures var after := ProbePdfs(t, pdfs, healthy).nodes;
            && after.Keys == t.nodes.Keys
            && forall u, k :: u in t.nodes && k in t.nodes[u] ==> k in after[u] && after[u][k] == t.nodes[u][k]
  {
    if pdfs != [] {
      var pdf := pdfs[|pdfs| - 1];
      var mid := ProbePdfs(t, pdfs[..|pdfs| - 1], healthy);
      IntegrityOnlyRestores(t, pdfs[..|pdfs| - 1], healthy);
      ProbeIndicesExtends(mid, pdf, DistinctIndices(pdf.chunks), healthy);
      ExtendsTrans(t.nodes, mid.nodes, ProbePdfs(t, pdfs, healthy).nodes);
    }
  }

  /** Replicas on unhealthy servers are never probed: a bucket with none on a healthy server is
      left as it is. */
  lemma {:induction false} ProbeSkipsUnhealthy(t: Tally, key: ChunkKey, probes: seq<ChunkLocation>,
                                               replicas: seq<ChunkLocation>, healthy: seq<Url>)
    requires forall c :: c in probes ==> c.chunkserverUrl !in healthy
    ensures ProbeBucket(t, key, probes, replicas, healthy) == t
  {
    if probes != [] {
      assert forall c :: c in probes[..|probes| - 1] ==> c in probes;
      ProbeSkipsUnhealthy(t, key, probes[..|probes| - 1], replicas, healthy);
      assert probes[|probes| - 1] in probes;
    }
  }

  /** The monitor with its statistics counters. */
  class IntegrityMonitor {
    const master: MasterService
    const net: ChunkNetwork
    const replicationFactor: nat
    var totalRepairs: nat
    var totalChecks: nat
    var totalGarbageCollected: nat
    var totalReReplications: nat
    var totalOverReplicasRemoved: nat

    constructor (master: MasterService, net: ChunkNetwork, replicationFactor: nat)
      ensures this.master == master && this.net == net && this.replicationFactor == replicationFactor
      ensures totalRepairs == 0 && totalChecks == 0 && totalGarbageCollected == 0
      ensures totalReReplications == 0 && totalOverReplicasRemoved == 0
    {
      this.master := master;
      this.net := net;
      this.replicationFactor := replicationFactor;
      totalRepairs := 0;
      totalChecks := 0;
      totalGarbageCollected := 0;
      totalReReplications := 0;
      totalOverReplicasRemoved := 0;
    }

    /** `repairChunk`: copies the chunk to `targetServer` from the first other replica, in list
        order, on a healthy server that confirms it holds the chunk; a failed copy moves on to the
        next candidate. */
    method RepairChunk(pdfId: PdfId, chunkIndex: int, targetServer: Url, replicas: seq<ChunkLocation>, now: int)
      returns (repaired: bool)
      requires master.Valid()
      modifies net
      ensures var key := ChunkKey(pdfId, chunkIndex);
              && net.nodes == Repaired(old(net.nodes), key, targetServer, replicas, master.Healthy(now))
              && (repaired <==> RepairSucceeds(old(net.nodes), key, targetServer, replicas, master.Healthy(now)))
    {
      var healthyServers := master.GetHealthyChunkservers(now);
      var key := ChunkKey(pdfId, chunkIndex);
      var j := 0;
      while j < |replicas|
        invariant 0 <= j <= |replicas|
        invariant net.nodes == old(net.nodes)
        invariant targetServer in net.nodes ==>
                    forall l :: 0 <= l < j ==> !IsRepairSource(replicas[l], targetServer, healthyServers, net.nodes, key)
      {
        var sourceServer := replicas[j].chunkserverUrl;
        if sourceServer != targetServer && sourceServer in healthyServers && ChunkExists(net.nodes, sourceServer, key) {
          var chunkData := ReadChunk(net.nodes, sourceServer, key);
          if chunkData.Some? {
            var written := net.Write(targetServer, key, chunkData.value);
            if written {
              FirstRepairSourceAt(replicas, targetServer, healthyServers, old(net.nodes), key, j);
              return true;
            }
          }
        }
        j := j + 1;
      }
      return false;
    }

    /** The innermost loop of `checkIntegrity`: the replicas of one chunk index. */
    method CheckReplicas(pdfId: PdfId, chunkIndex: int, replicas: seq<ChunkLocation>, healthy: seq<Url>, now: int,
                         found0: nat, repaired0: nat) returns (found: nat, repaired: nat)
      requires master.Valid() && healthy == master.Healthy(now)
      modifies net
      ensures Tally(net.nodes, found, repaired)
              == ProbeBucket(Tally(old(net.nodes), found0, repaired0), ChunkKey(pdfId, chunkIndex), replicas, replicas, healthy)
    {
      found, repaired := found0, repaired0;
      var key := ChunkKey(pdfId, chunkIndex);
      var j := 0;
      while j < |replicas|
        invariant 0 <= j <= |replicas|
        invariant Tally(net.nodes, found, repaired)
                  == ProbeBucket(Tally(old(net.nodes), found0, repaired0), key, replicas[..j], replicas, healthy)
      {
        assert replicas[..j + 1][..j] == replicas[..j];
        ghost var before := Tally(net.nodes, found, repaired);
        var url := replicas[j].chunkserverUrl;
        if url in healthy && !ChunkExists(net.nodes, url, key) {
          found := found + 1;
          var ok := RepairChunk(pdfId, chunkIndex, url, replicas, now);
          if ok {
            repaired := repaired + 1;
          }
        }
        assert Tally(net.nodes, found, repaired) == ProbeStep(before, key, replicas[j], replicas, healthy);
        j := j + 1;
      }
      assert replicas[..j] == replicas;
    }

    /** The loop of `checkIntegrity` over the index groups of one blob. */
    method CheckPdf(pdf: PdfMetadata, healthy: seq<Url>, now: int, found0: nat, repaired0: nat)
      returns (found: nat, repaired: nat)
      requires master.Valid() && healthy == master.Healthy(now)
      modifies net
      ensures Tally(net.nodes, found, repaired)
              == ProbeIndices(Tally(old(net.nodes), found0, repaired0), pdf, DistinctIndices(pdf.chunks), healthy)
    {
      found, repaired := found0, repaired0;
      var chunksByIndex := GroupByIndex(pdf.chunks);
      var order := DistinctIndices(pdf.chunks);
      var i := 0;
      while i < |order|
        invariant 0 <= i <= |order|
        invariant Tally(net.nodes, found, repaired)
                  == ProbeIndices(Tally(old(net.nodes), found0, repaired0), pdf, order[..i], healthy)
      {
        assert order[..i + 1][..i] == order[..i];
        var chunkIndex := order[i];
        var replicas := chunksByIndex[chunkIndex];
        found, repaired := CheckReplicas(pdf.pdfId, chunkIndex, replicas, healthy, now, found, repaired);
        i := i + 1;
      }
      assert order[..i] == order;
    }

    /** The loop of `checkIntegrity` over the snapshot of the blobs. */
    method CheckPdfs(allPdfs: seq<PdfMetadata>, healthy: seq<Url>, now: int) returns (found: nat, repaired: nat)
      requires master.Valid() && healthy == master.Healthy(now)
      modifies net
      ensures Tally(net.nodes, found, repaired) == ProbePdfs(Tally(old(net.nodes), 0, 0), allPdfs, healthy)
    {
      found, repaired := 0, 0;
      var n := 0;
      while n < |allPdfs|
        invariant 0 <= n <= |allPdfs|
        invariant Tally(net.nodes, found, repaired) == ProbePdfs(Tally(old(net.nodes), 0, 0), allPdfs[..n], healthy)
      {
        assert allPdfs[..n + 1][..n] == allPdfs[..n];
        found, repaired := CheckPdf(allPdfs[n], healthy, now, found, repaired);
        n := n + 1;
      }
      assert allPdfs[..n] == allPdfs;
    }

    /** `checkIntegrity`: does nothing without healthy servers; otherwise probes every replica on
        a healthy server and repairs the missing ones. The metadata is not touched. */
    method CheckIntegrity(now: int) returns (issuesFound: nat, issuesRepaired: nat)
      requires master.Valid()
      modifies this, net
      ensures totalChecks == old(totalChecks) + 1 && totalRepairs == old(totalRepairs) + issuesRepaired
      ensures issuesRepaired <= issuesFound
      ensures master.Healthy(now) == [] ==> net.nodes == old(net.nodes) && issuesFound == 0
      ensures master.Healthy(now) != [] ==>
                Tally(net.nodes, issuesFound, issuesRepaired)
                == ProbePdfs(Tally(old(net.nodes), 0, 0), master.ListAllPdfs(), master.Healthy(now))
      ensures totalGarbageCollected == old(totalGarbageCollected) && totalReReplications == old(totalReReplications)
      ensures totalOverReplicasRemoved == old(totalOverReplicasRemoved)
    {
      var healthyServers := master.GetHealthyChunkservers(now);
      if healthyServers == [] {
        issuesFound, issuesRepaired := 0, 0;
      } else {
        var allPdfs := master.ListAllPdfs();
        issuesFound, issuesRepaired := CheckPdfs(allPdfs, healthyServers, now);
      }
      totalChecks := totalChecks + 1;
      totalRepairs := totalRepairs + issuesRepaired;
    }
  
    /** `replicateChunk`: copies the payload of the first replica on a healthy server to up to
        `neededReplicas` healthy servers that hold no listed replica, recording each copy that
        reaches its node with the next replica index. */
    method ReplicateChunk(pdfId: PdfId, chunkIndex: int, existingReplicas: seq<ChunkLocation>, neededReplicas: int,
                          healthyServers: seq<Url>) returns (created: nat)
      requires master.Valid()
      modifies master, net
      ensures master.Valid() && master.pdfOrder == old(master.pdfOrder)
      ensures master.chunkservers == old(master.chunkservers) && master.serverOrder == old(master.serverOrder)
      ensures Step(Cluster(master.pdfMetadataStore, net.nodes), created)
              == Replicate(Cluster(old(master.pdfMetadataStore), old(net.nodes)), pdfId, chunkIndex, existingReplicas,
                           neededReplicas, healthyServers)
    {
      created := 0;
      var source := FirstOnHealthy(existingReplicas, healthyServers);
      if source.None? {
        return;
      }
      var serversWithChunk := Urls(existingReplicas);
      var targetServers := Take(Candidates(healthyServers, serversWithChunk), neededReplicas);
      if targetServers == [] {
        return;
      }
      var key := ChunkKey(pdfId, chunkIndex);
      var chunkData := ReadChunk(net.nodes, existingReplicas[source.value].chunkserverUrl, key);
      if chunkData.None? {
        return;
      }
      created := CopyToTargetServers(pdfId, chunkIndex, chunkData.value, targetServers, MaxReplicaIndex(existingReplicas) + 1);
    }

    /** The copy loop of `replicateChunk`: a write that throws skips its target; a write that
        succeeds is recorded with `nextReplicaIndex`. */
    method CopyToTargetServers(pdfId: PdfId, chunkIndex: int, chunkData: Bytes, targetServers: seq<Url>,
                               nextReplicaIndex: int) returns (created: nat)
      requires master.Valid()
      modifies master, net
      ensures master.Valid() && master.pdfOrder == old(master.pdfOrder)
      ensures master.chunkservers == old(master.chunkservers) && master.serverOrder == old(master.serverOrder)
      ensures Step(Cluster(master.pdfMetadataStore, net.nodes), created)
              == CopyToTargets(Cluster(old(master.pdfMetadataStore), old(net.nodes)), pdfId, chunkIndex, chunkData,
                               targetServers, nextReplicaIndex)
    {
      created := 0;
      var key := ChunkKey(pdfId, chunkIndex);
      var k := 0;
      while k < |targetServers|
        invariant 0 <= k <= |targetServers|
        invariant master.Valid() && master.pdfOrder == old(master.pdfOrder)
        invariant master.chunkservers == old(master.chunkservers) && master.serverOrder == old(master.serverOrder)
        invariant Step(Cluster(master.pdfMetadataStore, net.nodes), created)
                  == CopyToTargets(Cluster(old(master.pdfMetadataStore), old(net.nodes)), pdfId, chunkIndex, chunkData,
                                   targetServers[..k], nextReplicaIndex)
      {
        assert targetServers[..k + 1][..k] == targetServers[..k];
        var targetServer := targetServers[k];
        ghost var before := Cluster(master.pdfMetadataStore, net.nodes);
        var written := net.Write(targetServer, key, chunkData);
        if written {
          master.AddChunkReplica(pdfId, ChunkLocation(chunkIndex, targetServer, nextReplicaIndex));
          created := created + 1;
          assert Cluster(master.pdfMetadataStore, net.nodes)
                 == Cluster(WithReplica(before.store, pdfId, ChunkLocation(chunkIndex, targetServer, nextReplicaIndex)),
                            WriteChunk(before.nodes, targetServer, key, chunkData));
        } else {
          assert Cluster(master.pdfMetadataStore, net.nodes) == before;
        }
        k := k + 1;
      }
      assert targetServers[..k] == targetServers;
    }

    /** `removeExcessReplicas`: visits the active replicas by decreasing replica index and, for
        the first `excessCount`, deletes the chunk and then its location. */
    method RemoveExcessReplicas(pdfId: PdfId, chunkIndex: int, activeReplicas: seq<ChunkLocation>, excessCount: int)
      returns (removed: nat)
      requires master.Valid()
      modifies master, net
      ensures master.Valid() && master.pdfOrder == old(master.pdfOrder)
      ensures master.chunkservers == old(master.chunkservers) && master.serverOrder == old(master.serverOrder)
      ensures Step(Cluster(master.pdfMetadataStore, net.nodes), removed)
              == RemoveExcess(Cluster(old(master.pdfMetadataStore), old(net.nodes)), pdfId, chunkIndex, activeReplicas,
                              excessCount)
    {
      var sortedReplicas := SortByReplicaDesc(activeReplicas);
      var key := ChunkKey(pdfId, chunkIndex);
      ghost var start := Cluster(master.pdfMetadataStore, net.nodes);
      removed := 0;
      var i := 0;
      while i < excessCount && i < |sortedReplicas|
        invariant 0 <= i <= |sortedReplicas| && (i == 0 || i <= excessCount)
        invariant master.Valid() && master.pdfOrder == old(master.pdfOrder)
        invariant master.chunkservers == old(master.chunkservers) && master.serverOrder == old(master.serverOrder)
        invariant Step(Cluster(master.pdfMetadataStore, net.nodes), removed)
                  == Evict(start, pdfId, chunkIndex, sortedReplicas[..i])
      {
        assert sortedReplicas[..i + 1][..i] == sortedReplicas[..i];
        var serverUrl := sortedReplicas[i].chunkserverUrl;
        ghost var before := Cluster(master.pdfMetadataStore, net.nodes);
        var deleted := net.Delete(serverUrl, key);
        if deleted {
          master.RemoveChunkReplica(pdfId, chunkIndex, serverUrl);
          removed := removed + 1;
          assert Cluster(master.pdfMetadataStore, net.nodes)
                 == Cluster(WithoutReplica(before.store, pdfId, chunkIndex, serverUrl), DeleteChunk(before.nodes, serverUrl, key));
        } else {
          assert Cluster(master.pdfMetadataStore, net.nodes) == before;
        }
        i := i + 1;
      }
      assert sortedReplicas[..i] == Victims(activeReplicas, excessCount);
    }

    /** The body of `checkReplicationFactor` for one chunk index. */
    method BalanceIndex(pdf: PdfMetadata, chunkIndex: int, replicas: seq<ChunkLocation>, healthy: seq<Url>,
                        counts0: Counts) returns (counts: Counts)
      requires master.Valid() && replicas == ReplicasOf(pdf.chunks, chunkIndex)
      modifies master, net
      ensures master.Valid() && master.pdfOrder == old(master.pdfOrder)
      ensures master.chunkservers == old(master.chunkservers) && master.serverOrder == old(master.serverOrder)
      ensures Balance(Cluster(master.pdfMetadataStore, net.nodes), counts)
              == BalanceChunk(Balance(Cluster(old(master.pdfMetadataStore), old(net.nodes)), counts0), pdf, chunkIndex,
                              healthy, replicationFactor)
    {
      counts := counts0;
      ghost var start := Cluster(master.pdfMetadataStore, net.nodes);
      var activeReplicas := ActiveReplicas(replicas, healthy, net.nodes, ChunkKey(pdf.pdfId, chunkIndex));
      var targetReplicas := Min(replicationFactor, |healthy|);
      if |activeReplicas| < targetReplicas {
        var neededReplicas := targetReplicas - |activeReplicas|;
        counts := counts.(under := counts.under + 1);
        var created := ReplicateChunk(pdf.pdfId, chunkIndex, activeReplicas, neededReplicas, healthy);
        ghost var s := Replicate(start, pdf.pdfId, chunkIndex, activeReplicas, neededReplicas, healthy);
        assert Cluster(master.pdfMetadataStore, net.nodes) == s.cluster && created == s.count;
        counts := counts.(created := counts.created + created);
      } else if |activeReplicas| > targetReplicas {
        var excessReplicas := |activeReplicas| - targetReplicas;
        counts := counts.(over := counts.over + 1);
        var removed := RemoveExcessReplicas(pdf.pdfId, chunkIndex, activeReplicas, excessReplicas);
        ghost var s := RemoveExcess(start, pdf.pdfId, chunkIndex, activeReplicas, excessReplicas);
        assert Cluster(master.pdfMetadataStore, net.nodes) == s.cluster && removed == s.count;
        counts := counts.(removed := counts.removed + removed);
      }
    }

    /** The loop of `checkReplicationFactor` over the index groups of one blob. */
    method BalancePdf(pdf: PdfMetadata, healthy: seq<Url>, counts0: Counts) returns (counts: Counts)
      requires master.Valid()
      modifies master, net
      ensures master.Valid() && master.pdfOrder == old(master.pdfOrder)
      ensures master.chunkservers == old(master.chunkservers) && master.serverOrder == old(master.serverOrder)
      ensures Balance(Cluster(master.pdfMetadataStore, net.nodes), counts)
              == BalanceIndices(Balance(Cluster(old(master.pdfMetadataStore), old(net.nodes)), counts0), pdf,
                                DistinctIndices(pdf.chunks), healthy, replicationFactor)
    {
      counts := counts0;
      var chunksByIndex := GroupByIndex(pdf.chunks);
      var order := DistinctIndices(pdf.chunks);
      var i := 0;
      while i < |order|
        invariant 0 <= i <= |order|
        invariant master.Valid() && master.pdfOrder == old(master.pdfOrder)
        invariant master.chunkservers == old(master.chunkservers) && master.serverOrder == old(master.serverOrder)
        invariant Balance(Cluster(master.pdfMetadataStore, net.nodes), counts)
                  == BalanceIndices(Balance(Cluster(old(master.pdfMetadataStore), old(net.nodes)), counts0), pdf,
                                    order[..i], healthy, replicationFactor)
      {
        assert order[..i + 1][..i] == order[..i];
        var chunkIndex := order[i];
        counts := BalanceIndex(pdf, chunkIndex, chunksByIndex[chunkIndex], healthy, counts);
        i := i + 1;
      }
      assert order[..i] == order;
    }

    /** The loop of `checkReplicationFactor` over the snapshot of the blobs. */
    method BalanceAll(allPdfs: seq<PdfMetadata>, healthy: seq<Url>) returns (counts: Counts)
      requires master.Valid()
      modifies master, net
      ensures master.Valid() && master.pdfOrder == old(master.pdfOrder)
      ensures master.chunkservers == old(master.chunkservers) && master.serverOrder == old(master.serverOrder)
      ensures Balance(Cluster(master.pdfMetadataStore, net.nodes), counts)
              == BalancePdfs(Balance(Cluster(old(master.pdfMetadataStore), old(net.nodes)), Counts(0, 0, 0, 0)),
                             allPdfs, healthy, replicationFactor)
    {
      counts := Counts(0, 0, 0, 0);
      var n := 0;
      while n < |allPdfs|
        invariant 0 <= n <= |allPdfs|
        invariant master.Valid() && master.pdfOrder == old(master.pdfOrder)
        invariant master.chunkservers == old(master.chunkservers) && master.serverOrder == old(master.serverOrder)
        invariant Balance(Cluster(master.pdfMetadataStore, net.nodes), counts)
                  == BalancePdfs(Balance(Cluster(old(master.pdfMetadataStore), old(net.nodes)), Counts(0, 0, 0, 0)),
                                 allPdfs[..n], healthy, replicationFactor)
      {
        assert allPdfs[..n + 1][..n] == allPdfs[..n];
        counts := BalancePdf(allPdfs[n], healthy, counts);
        n := n + 1;
      }
      assert allPdfs[..n] == allPdfs;
    }

    /** `checkReplicationFactor`: does nothing without healthy servers; otherwise brings every
        chunk index of the snapshot towards min(replicationFactor, healthy servers) active
        replicas, and adds the replicas created and removed to the running totals. */
    method CheckReplicationFactor(now: int) returns (report: Counts)
      requires master.Valid()
      modifies this, master, net
      ensures master.Valid() && master.pdfOrder == old(master.pdfOrder)
      ensures master.chunkservers == old(master.chunkservers) && master.serverOrder == old(master.serverOrder)
      ensures old(master.Healthy(now)) == [] ==>
                && master.pdfMetadataStore == old(master.pdfMetadataStore) && net.nodes == old(net.nodes)
                && report == Counts(0, 0, 0, 0)
      ensures old(master.Healthy(now)) != [] ==>
                Balance(Cluster(master.pdfMetadataStore, net.nodes), report)
                == BalancePdfs(Balance(Cluster(old(master.pdfMetadataStore), old(net.nodes)), Counts(0, 0, 0, 0)),
                               old(master.ListAllPdfs()), old(master.Healthy(now)), replicationFactor)
      ensures totalReReplications == old(totalReReplications) + report.created
      ensures totalOverReplicasRemoved == old(totalOverReplicasRemoved) + report.removed
      ensures totalRepairs == old(totalRepairs) && totalChecks == old(totalChecks)
      ensures totalGarbageCollected == old(totalGarbageCollected)
    {
      var healthyServers := master.GetHealthyChunkservers(now);
      if healthyServers == [] {
        report := Counts(0, 0, 0, 0);
      } else {
        var allPdfs := master.ListAllPdfs();
        report := BalanceAll(allPdfs, healthyServers);
      }
      totalReReplications := totalReReplications + report.created;
      totalOverReplicasRemoved := totalOverReplicasRemoved + report.removed;
    }
  
    /** The collection loop of `cleanupStaleMetadata` for one blob. */
    method CollectStale(pdf: PdfMetadata, unhealthyServers: set<Url>) returns (chunksToRemove: seq<ChunkLocation>)
      ensures chunksToRemove == StaleOf(pdf.chunks, pdf.pdfId, unhealthyServers, net.nodes)
    {
      chunksToRemove := [];
      var j := 0;
      while j < |pdf.chunks|
        invariant 0 <= j <= |pdf.chunks|
        invariant chunksToRemove == StaleOf(pdf.chunks[..j], pdf.pdfId, unhealthyServers, net.nodes)
      {
        assert pdf.chunks[..j + 1][..j] == pdf.chunks[..j];
        var chunk := pdf.chunks[j];
        if chunk.chunkserverUrl in unhealthyServers {
          if !ChunkExists(net.nodes, chunk.chunkserverUrl, ChunkKey(pdf.pdfId, chunk.chunkIndex)) {
            chunksToRemove := chunksToRemove + [chunk];
          }
        }
        j := j + 1;
      }
      assert pdf.chunks[..j] == pdf.chunks;
    }

    /** The removal loop of `cleanupStaleMetadata` for one blob. */
    method RemoveStale(pdfId: PdfId, chunksToRemove: seq<ChunkLocation>) returns (removed: nat)
      requires master.Valid()
      modifies master
      ensures master.Valid() && master.pdfOrder == old(master.pdfOrder)
      ensures master.chunkservers == old(master.chunkservers) && master.serverOrder == old(master.serverOrder)
      ensures master.pdfMetadataStore == RemoveAll(old(master.pdfMetadataStore), pdfId, chunksToRemove)
      ensures removed == |chunksToRemove|
    {
      removed := 0;
      var k := 0;
      while k < |chunksToRemove|
        invariant 0 <= k <= |chunksToRemove| && removed == k
        invariant master.Valid() && master.pdfOrder == old(master.pdfOrder)
        invariant master.chunkservers == old(master.chunkservers) && master.serverOrder == old(master.serverOrder)
        invariant master.pdfMetadataStore == RemoveAll(old(master.pdfMetadataStore), pdfId, chunksToRemove[..k])
      {
        assert chunksToRemove[..k + 1][..k] == chunksToRemove[..k];
        var chunk := chunksToRemove[k];
        master.RemoveChunkReplica(pdfId, chunk.chunkIndex, chunk.chunkserverUrl);
        removed := removed + 1;
        k := k + 1;
      }
      assert chunksToRemove[..k] == chunksToRemove;
    }

    /** The loop of `cleanupStaleMetadata` over the snapshot of the blobs. */
    method CleanPdfs(allPdfs: seq<PdfMetadata>, unhealthyServers: set<Url>) returns (removed: nat)
      requires master.Valid()
      modifies master
      ensures master.Valid() && master.pdfOrder == old(master.pdfOrder)
      ensures master.chunkservers == old(master.chunkservers) && master.serverOrder == old(master.serverOrder)
      ensures master.pdfMetadataStore == CleanStore(old(master.pdfMetadataStore), allPdfs, unhealthyServers, net.nodes)
      ensures removed == StaleCount(allPdfs, unhealthyServers, net.nodes)
    {
      removed := 0;
      var n := 0;
      while n < |allPdfs|
        invariant 0 <= n <= |allPdfs|
        invariant master.Valid() && master.pdfOrder == old(master.pdfOrder)
        invariant master.chunkservers == old(master.chunkservers) && master.serverOrder == old(master.serverOrder)
        invariant master.pdfMetadataStore == CleanStore(old(master.pdfMetadataStore), allPdfs[..n], unhealthyServers, net.nodes)
        invariant removed == StaleCount(allPdfs[..n], unhealthyServers, net.nodes)
      {
        assert allPdfs[..n + 1][..n] == allPdfs[..n];
        var pdf := allPdfs[n];
        var chunksToRemove := CollectStale(pdf, unhealthyServers);
        var count := RemoveStale(pdf.pdfId, chunksToRemove);
        removed := removed + count;
        n := n + 1;
      }
      assert allPdfs[..n] == allPdfs;
    }

    /** `cleanupStaleMetadata`: with some registered server unhealthy, every location on such a
        server that does not confirm its chunk is dropped from the metadata; the others stay, in
        order. The fleet is not touched. */
    method CleanupStaleMetadata(now: int) returns (metadataEntriesRemoved: nat)
      requires master.Valid()
      modifies master
      ensures master.Valid() && master.pdfOrder == old(master.pdfOrder)
      ensures master.chunkservers == old(master.chunkservers) && master.serverOrder == old(master.serverOrder)
      ensures master.pdfMetadataStore.Keys == old(master.pdfMetadataStore).Keys
      ensures var unhealthy := UnhealthyServers(old(master.serverOrder), old(master.Healthy(now)));
              forall p :: p in old(master.pdfMetadataStore) ==>
                master.pdfMetadataStore[p]
                == old(master.pdfMetadataStore)[p].(chunks := Fresh(old(master.pdfMetadataStore)[p].chunks, p, unhealthy, net.nodes))
      ensures var unhealthy := UnhealthyServers(old(master.serverOrder), old(master.Healthy(now)));
              metadataEntriesRemoved == if unhealthy == {} then 0 else StaleCount(old(master.ListAllPdfs()), unhealthy, net.nodes)
    {
      var healthyServers := master.GetHealthyChunkservers(now);
      var allServers := master.GetAllChunkservers();
      var unhealthyServers := (set u | u in allServers) - (set u | u in healthyServers);
      assert unhealthyServers == UnhealthyServers(allServers, healthyServers);
      ghost var store := master.pdfMetadataStore;
      if unhealthyServers == {} {
        forall p | p in store
          ensures store[p] == store[p].(chunks := Fresh(store[p].chunks, p, unhealthyServers, net.nodes))
        {
          CleanupKeepsFresh(store[p].chunks, p, allServers, healthyServers, net.nodes);
        }
        return 0;
      }
      var allPdfs := master.ListAllPdfs();
      assert PdfIds(allPdfs) == store.Keys by {
        forall p | p in store ensures p in PdfIds(allPdfs) { assert store[p] in allPdfs; }
      }
      CleanStoreExact(store, allPdfs, unhealthyServers, net.nodes);
      metadataEntriesRemoved := CleanPdfs(allPdfs, unhealthyServers);
    }
  
    /** The `validChunks` loops of `garbageCollection`. */
    method CollectValidKeys(allPdfs: seq<PdfMetadata>) returns (validChunks: set<ChunkKey>)
      ensures validChunks == ValidKeys(allPdfs)
    {
      validChunks := {};
      var n := 0;
      while n < |allPdfs|
        invariant 0 <= n <= |allPdfs|
        invariant validChunks == ValidKeys(allPdfs[..n])
      {
        assert allPdfs[..n + 1][..n] == allPdfs[..n];
        var pdf := allPdfs[n];
        ghost var before := validChunks;
        var j := 0;
        while j < |pdf.chunks|
          invariant 0 <= j <= |pdf.chunks|
          invariant validChunks == before + (set c | c in pdf.chunks[..j] :: ChunkKey(pdf.pdfId, c.chunkIndex))
        {
          assert pdf.chunks[..j + 1] == pdf.chunks[..j] + [pdf.chunks[j]];
          validChunks := validChunks + {ChunkKey(pdf.pdfId, pdf.chunks[j].chunkIndex)};
          j := j + 1;
        }
        assert pdf.chunks[..j] == pdf.chunks;
        n := n + 1;
      }
      assert allPdfs[..n] == allPdfs;
    }

    /** The inventory loop of `garbageCollection` for one server: every reported chunk whose
        key is not valid is an orphan and is deleted, in any order. */
    method SweepOrphans(server: Url, validChunks: set<ChunkKey>) returns (orphansFound: nat, orphansDeleted: nat)
      modifies net
      ensures net.nodes == SweepServer(old(net.nodes), server, validChunks)
      ensures orphansFound == |Orphans(old(net.nodes), server, validChunks)| && orphansDeleted == orphansFound
    {
      var inventory := InventoryOf(net.nodes, server);
      if server !in net.nodes {
        // The inventory request fails and yields no chunk to visit.
        return 0, 0;
      }
      orphansFound := DeleteOrphans(server, inventory, validChunks);
      orphansDeleted := orphansFound;
    }

    /** The inventory loop of one reachable node: every chunk whose key is not valid is deleted. */
    method DeleteOrphans(server: Url, inventory: set<ChunkKey>, validChunks: set<ChunkKey>) returns (orphans: nat)
      requires server in net.nodes && inventory == net.nodes[server].Keys
      modifies net
      ensures net.nodes == old(net.nodes)[server := RestrictTo(old(net.nodes)[server], validChunks)]
      ensures orphans == |inventory - validChunks|
    {
      var remaining := inventory;
      orphans := 0;
      ghost var orig := net.nodes[server];
      PartialEnds(orig, validChunks);
      while remaining != {}
        invariant remaining <= inventory
        invariant net.nodes == old(net.nodes)[server := Partial(orig, validChunks, remaining)]
        invariant orphans == |(inventory - remaining) - validChunks|
        decreases |remaining|
      {
        var chunkId :| chunkId in remaining;
        DeleteVisited(old(net.nodes), server, orig, validChunks, remaining, chunkId);
        OrphanCountStep(inventory, remaining, validChunks, chunkId);
        if chunkId !in validChunks {
          var deleted := net.Delete(server, chunkId);
          orphans := orphans + 1;
        }
        remaining := remaining - {chunkId};
      }
    }

    /** The loop of `garbageCollection` over the healthy servers. */
    method SweepServers(healthy: seq<Url>, validChunks: set<ChunkKey>) returns (orphansFound: nat, orphansDeleted: nat)
      modifies net
      ensures Sweep(net.nodes, orphansFound, orphansDeleted) == SweepAll(Sweep(old(net.nodes), 0, 0), healthy, validChunks)
    {
      orphansFound, orphansDeleted := 0, 0;
      var i := 0;
      while i < |healthy|
        invariant 0 <= i <= |healthy|
        invariant Sweep(net.nodes, orphansFound, orphansDeleted)
                  == SweepAll(Sweep(old(net.nodes), 0, 0), healthy[..i], validChunks)
      {
        assert healthy[..i + 1][..i] == healthy[..i];
        ghost var before := net.nodes;
        var found, deleted := SweepOrphans(healthy[i], validChunks);
        orphansFound, orphansDeleted := orphansFound + found, orphansDeleted + deleted;
        assert Sweep(net.nodes, orphansFound, orphansDeleted)
               == Sweep(SweepServer(before, healthy[i], validChunks), orphansFound, orphansDeleted);
        i := i + 1;
      }
      assert healthy[..i] == healthy;
    }

    /** `garbageCollection`: does nothing without healthy servers; otherwise deletes from every
        healthy server each chunk whose key no location of the snapshot names, and adds the
        deletions to the running total. The metadata is not touched. */
    method GarbageCollection(now: int) returns (orphansFound: nat, orphansDeleted: nat)
      requires master.Valid()
      modifies this, net
      ensures master.Healthy(now) == [] ==> net.nodes == old(net.nodes) && orphansFound == 0 && orphansDeleted == 0
      ensures master.Healthy(now) != [] ==>
                Sweep(net.nodes, orphansFound, orphansDeleted)
                == SweepAll(Sweep(old(net.nodes), 0, 0), master.Healthy(now), ValidKeys(master.ListAllPdfs()))
      ensures totalGarbageCollected == old(totalGarbageCollected) + orphansDeleted
      ensures totalRepairs == old(totalRepairs) && totalChecks == old(totalChecks)
      ensures totalReReplications == old(totalReReplications) && totalOverReplicasRemoved == old(totalOverReplicasRemoved)
    {
      var healthyServers := master.GetHealthyChunkservers(now);
      if healthyServers == [] {
        orphansFound, orphansDeleted := 0, 0;
      } else {
        var allPdfs := master.ListAllPdfs();
        var validChunks := CollectValidKeys(allPdfs);
        orphansFound, orphansDeleted := SweepServers(healthyServers, validChunks);
      }
      totalGarbageCollected := totalGarbageCollected + orphansDeleted;
    }
  }
}
