/** The fourth pass of the integrity monitor, `garbageCollection`: every chunk a healthy node
    holds whose (blob, index) key no location of the metadata snapshot names is an orphan and is
    deleted. Only the fleet changes. */
module Collection {
  import opened Common
  import opened Locations
  import opened Network

  /** The `validChunks` set: the key of every location of the snapshot. The Java code joins
      the blob id and the index with ':' into one string; a decimal index contains no ':', so
      that string names the pair as the key does. */
  function ValidKeys(pdfs: seq<PdfMetadata>): set<ChunkKey> {
    if pdfs == [] then {}
    else
      var pdf := pdfs[|pdfs| - 1];
      ValidKeys(pdfs[..|pdfs| - 1]) + (set c | c in pdf.chunks :: ChunkKey(pdf.pdfId, c.chunkIndex))
  }

  /** The orphans a node reports: its inventory minus the valid keys. */
  function Orphans(nodes: Nodes, url: Url, valid: set<ChunkKey>): set<ChunkKey> {
    InventoryOf(nodes, url) - valid
  }

  /** The chunks of a node whose keys are valid. */
  function RestrictTo(store: NodeStore, valid: set<ChunkKey>): NodeStore {
    map k | k in store && k in valid :: store[k]
  }

  /** The chunks of a node whose keys are valid or still to be visited. */
  function Partial(store: NodeStore, valid: set<ChunkKey>, remaining: set<ChunkKey>): NodeStore {
    map k | k in store && (k in valid || k in remaining) :: store[k]
  }

  /** A node after its orphans are deleted; an unreachable node is left alone. */
  function SweepServer(nodes: Nodes, url: Url, valid: set<ChunkKey>): Nodes {
    if url in nodes then nodes[url := RestrictTo(nodes[url], valid)] else nodes
  }

  /** The fleet and the two counts of `garbageCollection`. */
  datatype Sweep = Sweep(nodes: Nodes, found: nat, deleted: nat)

  /** The healthy servers visited in list order. */
  function SweepAll(s: Sweep, servers: seq<Url>, valid: set<ChunkKey>): Sweep {
    if servers == [] then s
    else
      var prev := SweepAll(s, servers[..|servers| - 1], valid);
      var url := servers[|servers| - 1];
      var orphans := |Orphans(prev.nodes, url, valid)|;
      Sweep(SweepServer(prev.nodes, url, valid), prev.found + orphans, prev.deleted + orphans)
  }

  /** The orphans of each server counted on the fleet before the pass. */
  function OrphanTotal(nodes: Nodes, servers: seq<Url>, valid: set<ChunkKey>): nat {
    if servers == [] then 0
    else OrphanTotal(nodes, servers[..|servers| - 1], valid) + |Orphans(nodes, servers[|servers| - 1], valid)|
  }

  // ---------------------------------------------------------------------------------------
  // Properties
  // ---------------------------------------------------------------------------------------

  /** A key is valid exactly when some blob of the snapshot lists a location of that index. */
  lemma {:induction false} ValidKeysMembers(pdfs: seq<PdfMetadata>)
    ensures forall k :: k in ValidKeys(pdfs) ==>
              exists i :: 0 <= i < |pdfs| && pdfs[i].pdfId == k.pdfId && k.chunkIndex in Indices(pdfs[i].chunks)
    ensures forall i, c :: 0 <= i < |pdfs| && c in pdfs[i].chunks ==> ChunkKey(pdfs[i].pdfId, c.chunkIndex) in ValidKeys(pdfs)
  {
    if pdfs != [] {
      var init, pdf := pdfs[..|pdfs| - 1], pdfs[|pdfs| - 1];
      var last := set c | c in pdf.chunks :: ChunkKey(pdf.pdfId, c.chunkIndex);
      ValidKeysMembers(init);
      forall k | k in ValidKeys(pdfs)
        ensures exists i :: 0 <= i < |pdfs| && pdfs[i].pdfId == k.pdfId && k.chunkIndex in Indices(pdfs[i].chunks)
      {
        if k in ValidKeys(init) {
          var i :| 0 <= i < |init| && init[i].pdfId == k.pdfId && k.chunkIndex in Indices(init[i].chunks);
          assert pdfs[i] == init[i];
        } else {
          assert k in last;
          var c :| c in pdf.chunks && k == ChunkKey(pdf.pdfId, c.chunkIndex);
          assert k.chunkIndex in Indices(pdfs[|pdfs| - 1].chunks);
        }
      }
      forall i, c | 0 <= i < |pdfs| && c in pdfs[i].chunks
        ensures ChunkKey(pdfs[i].pdfId, c.chunkIndex) in ValidKeys(pdfs)
      {
        if i < |init| {
          assert pdfs[i] == init[i];
        } else {
          assert ChunkKey(pdf.pdfId, c.chunkIndex) in last;
        }
      }
    }
  }

  /** `after` is `before` with the orphans of the nodes in `servers` deleted. */
  ghost predicate SweptOn(before: Nodes, after: Nodes, servers: seq<Url>, valid: set<ChunkKey>) {
    && after.Keys == before.Keys
    && forall u :: u in before ==> after[u] == if u in servers then RestrictTo(before[u], valid) else before[u]
  }

  /** Sweeping one more server extends the sweep by that server. */
  lemma SweepServerStep(before: Nodes, mid: Nodes, servers: seq<Url>, url: Url, valid: set<ChunkKey>)
    requires SweptOn(before, mid, servers, valid)
    ensures SweptOn(before, SweepServer(mid, url, valid), servers + [url], valid)
  {
    assert forall u :: u in servers + [url] <==> u in servers || u == url;
    if url in before && url in servers {
      RestrictTwice(before[url], valid);
    }
  }

  lemma RestrictTwice(store: NodeStore, valid: set<ChunkKey>)
    ensures RestrictTo(RestrictTo(store, valid), valid) == RestrictTo(store, valid)
  {
  }

  /** The pass deletes exactly the orphans of the visited servers: a chunk survives precisely
      when its node was not visited or its key is valid, and keeps its payload; no node joins
      or leaves, and every orphan found is deleted. */
  lemma {:induction false} SweepExact(s: Sweep, servers: seq<Url>, valid: set<ChunkKey>)
    ensures SweptOn(s.nodes, SweepAll(s, servers, valid).nodes, servers, valid)
    ensures var r := SweepAll(s, servers, valid); s.found <= r.found && r.found - s.found == r.deleted - s.deleted
  {
    if servers == [] {
    } else {
      var init, url := servers[..|servers| - 1], servers[|servers| - 1];
      SweepExact(s, init, valid);
      assert servers == init + [url];
      SweepServerStep(s.nodes, SweepAll(s, init, valid).nodes, init, url, valid);
    }
  }

  /** Over distinct servers, the orphans found are those each server held before the pass. */
  lemma {:induction false} SweepCountsOrphans(nodes: Nodes, servers: seq<Url>, valid: set<ChunkKey>)
    requires Distinct(servers)
    ensures SweepAll(Sweep(nodes, 0, 0), servers, valid).found == OrphanTotal(nodes, servers, valid)
  {
    if servers != [] {
      var init, url := servers[..|servers| - 1], servers[|servers| - 1];
      assert Distinct(init) by {
        forall i, j | 0 <= i < j < |init| ensures init[i] != init[j] { assert init[i] == servers[i] && init[j] == servers[j]; }
      }
      assert url !in init by {
        forall i | 0 <= i < |init| ensures init[i] != url { assert init[i] == servers[i]; }
      }
      SweepCountsOrphans(nodes, init, valid);
      SweepExact(Sweep(nodes, 0, 0), init, valid);
      var prev := SweepAll(Sweep(nodes, 0, 0), init, valid);
      assert InventoryOf(prev.nodes, url) == InventoryOf(nodes, url);
    }
  }

  /** No chunk that a location of the snapshot names is ever deleted. */
  lemma NeverDeletesListed(nodes: Nodes, servers: seq<Url>, pdfs: seq<PdfMetadata>)
    ensures var r := SweepAll(Sweep(nodes, 0, 0), servers, ValidKeys(pdfs));
            forall i, c, u :: 0 <= i < |pdfs| && c in pdfs[i].chunks && ChunkExists(nodes, u, ChunkKey(pdfs[i].pdfId, c.chunkIndex))
              ==> ChunkExists(r.nodes, u, ChunkKey(pdfs[i].pdfId, c.chunkIndex))
  {
    var valid := ValidKeys(pdfs);
    var r := SweepAll(Sweep(nodes, 0, 0), servers, valid);
    ValidKeysMembers(pdfs);
    SweepExact(Sweep(nodes, 0, 0), servers, valid);
    forall i, c, u | 0 <= i < |pdfs| && c in pdfs[i].chunks && ChunkExists(nodes, u, ChunkKey(pdfs[i].pdfId, c.chunkIndex))
      ensures ChunkExists(r.nodes, u, ChunkKey(pdfs[i].pdfId, c.chunkIndex))
    {
      var k := ChunkKey(pdfs[i].pdfId, c.chunkIndex);
      assert k in valid;
      assert r.nodes[u] == if u in servers then RestrictTo(nodes[u], valid) else nodes[u];
    }
  }

  /** Before the inventory loop of one node nothing is deleted; after it, exactly the orphans. */
  lemma PartialEnds(store: NodeStore, valid: set<ChunkKey>)
    ensures Partial(store, valid, store.Keys) == store
    ensures Partial(store, valid, {}) == RestrictTo(store, valid)
  {
  }

  /** Visiting an orphan deletes it; visiting a valid key deletes nothing. */
  lemma PartialStep(store: NodeStore, valid: set<ChunkKey>, remaining: set<ChunkKey>, k: ChunkKey)
    requires k in remaining
    ensures k !in valid ==> Partial(store, valid, remaining) - {k} == Partial(store, valid, remaining - {k})
    ensures k in valid ==> Partial(store, valid, remaining) == Partial(store, valid, remaining - {k})
  {
  }

  /** Visiting one more key of the inventory counts it when it is an orphan. */
  lemma OrphanCountStep(inventory: set<ChunkKey>, remaining: set<ChunkKey>, valid: set<ChunkKey>, k: ChunkKey)
    requires k in remaining && remaining <= inventory
    ensures |(inventory - (remaining - {k})) - valid| == |(inventory - remaining) - valid| + if k in valid then 0 else 1
  {
    if k !in valid {
      assert (inventory - (remaining - {k})) - valid == ((inventory - remaining) - valid) + {k};
    } else {
      assert (inventory - (remaining - {k})) - valid == (inventory - remaining) - valid;
    }
  }

  /** Deleting a visited orphan from the node being swept keeps the fleet in step with the visit. */
  lemma DeleteVisited(nodes: Nodes, url: Url, store: NodeStore, valid: set<ChunkKey>, remaining: set<ChunkKey>, k: ChunkKey)
    requires k in remaining
    ensures k !in valid ==>
              DeleteChunk(nodes[url := Partial(store, valid, remaining)], url, k) == nodes[url := Partial(store, valid, remaining - {k})]
    ensures k in valid ==> nodes[url := Partial(store, valid, remaining)] == nodes[url := Partial(store, valid, remaining - {k})]
  {
    PartialStep(store, valid, remaining, k);
  }
}
