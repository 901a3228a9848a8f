/** The third pass of the integrity monitor, `cleanupStaleMetadata`: locations that name a
    registered but unhealthy server which does not confirm the chunk are dropped from the
    metadata. Only the metadata changes. */
module Cleanup {
  import opened Common
  import opened Locations
  import opened Network
  import opened Master

  /** The registered servers that are not healthy. */
  function UnhealthyServers(allServers: seq<Url>, healthy: seq<Url>): set<Url> {
    (set u | u in allServers) - (set u | u in healthy)
  }

  /** A stale location: on an unhealthy server that does not confirm it holds the chunk. */
  predicate IsStale(c: ChunkLocation, pdfId: PdfId, unhealthy: set<Url>, nodes: Nodes) {
    c.chunkserverUrl in unhealthy && !ChunkExists(nodes, c.chunkserverUrl, ChunkKey(pdfId, c.chunkIndex))
  }

  /** The `chunksToRemove` list of one blob, in list order. */
  function StaleOf(chunks: seq<ChunkLocation>, pdfId: PdfId, unhealthy: set<Url>, nodes: Nodes): seq<ChunkLocation> {
    if chunks == [] then []
    else
      var last := chunks[|chunks| - 1];
      StaleOf(chunks[..|chunks| - 1], pdfId, unhealthy, nodes) + (if IsStale(last, pdfId, unhealthy, nodes) then [last] else [])
  }

  /** The locations that are not stale, in list order. */
  function Fresh(chunks: seq<ChunkLocation>, pdfId: PdfId, unhealthy: set<Url>, nodes: Nodes): seq<ChunkLocation> {
    if chunks == [] then []
    else
      var last := chunks[|chunks| - 1];
      Fresh(chunks[..|chunks| - 1], pdfId, unhealthy, nodes) + (if IsStale(last, pdfId, unhealthy, nodes) then [] else [last])
  }

  /** The (chunk index, server) pairs of a location list. */
  function Pairs(chunks: seq<ChunkLocation>): set<(int, Url)> {
    set c | c in chunks :: (c.chunkIndex, c.chunkserverUrl)
  }

  /** The locations whose (chunk index, server) pair is not in `drop`, in list order. */
  function KeepUnless(chunks: seq<ChunkLocation>, drop: set<(int, Url)>): seq<ChunkLocation> {
    if chunks == [] then []
    else
      var last := chunks[|chunks| - 1];
      KeepUnless(chunks[..|chunks| - 1], drop) + (if (last.chunkIndex, last.chunkserverUrl) in drop then [] else [last])
  }

  /** The removal loop of one blob: `removeChunkReplica` for every listed location in turn. */
  function RemoveAll(store: map<PdfId, PdfMetadata>, pdfId: PdfId, rs: seq<ChunkLocation>): map<PdfId, PdfMetadata> {
    if rs == [] then store
    else
      var last := rs[|rs| - 1];
      WithoutReplica(RemoveAll(store, pdfId, rs[..|rs| - 1]), pdfId, last.chunkIndex, last.chunkserverUrl)
  }

  /** The pass over the snapshot: each blob's stale locations collected, then removed. */
  function CleanStore(store: map<PdfId, PdfMetadata>, pdfs: seq<PdfMetadata>, unhealthy: set<Url>, nodes: Nodes)
    : map<PdfId, PdfMetadata>
  {
    if pdfs == [] then store
    else
      var pdf := pdfs[|pdfs| - 1];
      RemoveAll(CleanStore(store, pdfs[..|pdfs| - 1], unhealthy, nodes), pdf.pdfId,
                StaleOf(pdf.chunks, pdf.pdfId, unhealthy, nodes))
  }

  /** The number of metadata entries the pass reports as removed. */
  function StaleCount(pdfs: seq<PdfMetadata>, unhealthy: set<Url>, nodes: Nodes): nat {
    if pdfs == [] then 0
    else
      var pdf := pdfs[|pdfs| - 1];
      StaleCount(pdfs[..|pdfs| - 1], unhealthy, nodes) + |StaleOf(pdf.chunks, pdf.pdfId, unhealthy, nodes)|
  }

  function PdfIds(pdfs: seq<PdfMetadata>): set<PdfId> {
    set m | m in pdfs :: m.pdfId
  }

  // ---------------------------------------------------------------------------------------
  // Properties
  // ---------------------------------------------------------------------------------------

  /** Exactly the stale locations are collected, and exactly the others are kept. */
  lemma {:induction false} StaleMembers(chunks: seq<ChunkLocation>, pdfId: PdfId, unhealthy: set<Url>, nodes: Nodes)
    ensures forall c :: c in StaleOf(chunks, pdfId, unhealthy, nodes) <==> c in chunks && IsStale(c, pdfId, unhealthy, nodes)
    ensures forall c :: c in Fresh(chunks, pdfId, unhealthy, nodes) <==> c in chunks && !IsStale(c, pdfId, unhealthy, nodes)
    ensures |StaleOf(chunks, pdfId, unhealthy, nodes)| + |Fresh(chunks, pdfId, unhealthy, nodes)| == |chunks|
  {
    if chunks != [] {
      assert chunks == chunks[..|chunks| - 1] + [chunks[|chunks| - 1]];
      StaleMembers(chunks[..|chunks| - 1], pdfId, unhealthy, nodes);
    }
  }

  /** Removing one more pair from a filtered list is filtering by one more pair. */
  lemma {:induction false} RemoveMatchingKeep(chunks: seq<ChunkLocation>, drop: set<(int, Url)>, idx: int, url: Url)
    ensures RemoveMatching(KeepUnless(chunks, drop), idx, url) == KeepUnless(chunks, drop + {(idx, url)})
  {
    if chunks != [] {
      var init, last := chunks[..|chunks| - 1], chunks[|chunks| - 1];
      RemoveMatchingKeep(init, drop, idx, url);
      var kept := KeepUnless(init, drop);
      assert KeepUnless(chunks, drop + {(idx, url)})
             == KeepUnless(init, drop + {(idx, url)}) + (if (last.chunkIndex, last.chunkserverUrl) in drop || Matches(last, idx, url) then [] else [last]);
      if (last.chunkIndex, last.chunkserverUrl) !in drop {
        assert KeepUnless(chunks, drop) == kept + [last];
        assert (kept + [last])[..|kept + [last]| - 1] == kept;
        assert RemoveMatching(kept + [last], idx, url) == RemoveMatching(kept, idx, url) + (if Matches(last, idx, url) then [] else [last]);
      } else {
        assert KeepUnless(chunks, drop) == kept;
      }
    }
  }

  /** The removal loop drops every location sharing a pair with a removed one, and nothing else. */
  lemma {:induction false} RemoveAllKeeps(store: map<PdfId, PdfMetadata>, pdfId: PdfId, rs: seq<ChunkLocation>)
    ensures RemoveAll(store, pdfId, rs).Keys == store.Keys
    ensures forall p :: p in store && p != pdfId ==> RemoveAll(store, pdfId, rs)[p] == store[p]
    ensures pdfId in store ==>
              RemoveAll(store, pdfId, rs)[pdfId] == store[pdfId].(chunks := KeepUnless(store[pdfId].chunks, Pairs(rs)))
  {
    if rs == [] {
      if pdfId in store {
        assert Pairs(rs) == {};
        KeepNothing(store[pdfId].chunks);
      }
    } else {
      var init, last := rs[..|rs| - 1], rs[|rs| - 1];
      RemoveAllKeeps(store, pdfId, init);
      var mid := RemoveAll(store, pdfId, init);
      if pdfId in store {
        var chunks := store[pdfId].chunks;
        assert mid[pdfId].chunks == KeepUnless(chunks, Pairs(init));
        RemoveMatchingKeep(chunks, Pairs(init), last.chunkIndex, last.chunkserverUrl);
        assert Pairs(rs) == Pairs(init) + {(last.chunkIndex, last.chunkserverUrl)} by {
          assert rs == init + [last];
        }
        assert RemoveAll(store, pdfId, rs)[pdfId]
               == mid[pdfId].(chunks := RemoveMatching(mid[pdfId].chunks, last.chunkIndex, last.chunkserverUrl));
      }
    }
  }

  lemma {:induction false} KeepNothing(chunks: seq<ChunkLocation>)
    ensures KeepUnless(chunks, {}) == chunks
  {
    if chunks != [] {
      KeepNothing(chunks[..|chunks| - 1]);
      assert chunks == chunks[..|chunks| - 1] + [chunks[|chunks| - 1]];
    }
  }

  /** Filtering by the pairs of the stale locations keeps exactly the fresh ones: staleness of a
      location depends only on its pair. */
  lemma {:induction false} KeepUnlessStale(chunks: seq<ChunkLocation>, drop: set<(int, Url)>, pdfId: PdfId,
                                           unhealthy: set<Url>, nodes: Nodes)
    requires forall c :: c in chunks ==> ((c.chunkIndex, c.chunkserverUrl) in drop <==> IsStale(c, pdfId, unhealthy, nodes))
    ensures KeepUnless(chunks, drop) == Fresh(chunks, pdfId, unhealthy, nodes)
  {
    if chunks != [] {
      var init := chunks[..|chunks| - 1];
      assert forall c :: c in init ==> c in chunks;
      KeepUnlessStale(init, drop, pdfId, unhealthy, nodes);
    }
  }

  /** The pairs of the stale locations are exactly the pairs of stale locations. */
  lemma StalePairs(chunks: seq<ChunkLocation>, pdfId: PdfId, unhealthy: set<Url>, nodes: Nodes)
    ensures forall c :: c in chunks ==>
              ((c.chunkIndex, c.chunkserverUrl) in Pairs(StaleOf(chunks, pdfId, unhealthy, nodes))
               <==> IsStale(c, pdfId, unhealthy, nodes))
  {
    var stale := StaleOf(chunks, pdfId, unhealthy, nodes);
    StaleMembers(chunks, pdfId, unhealthy, nodes);
    forall c | c in chunks
      ensures (c.chunkIndex, c.chunkserverUrl) in Pairs(stale) <==> IsStale(c, pdfId, unhealthy, nodes)
    {
      if (c.chunkIndex, c.chunkserverUrl) in Pairs(stale) {
        var s :| s in stale && (s.chunkIndex, s.chunkserverUrl) == (c.chunkIndex, c.chunkserverUrl);
        assert IsStale(s, pdfId, unhealthy, nodes);
      }
    }
  }

  /** The pass over a snapshot with distinct ids whose records are those of the store replaces
      each listed record's locations by its fresh ones, in list order, and touches nothing else. */
  lemma {:induction false} CleanStoreExact(store: map<PdfId, PdfMetadata>, pdfs: seq<PdfMetadata>, unhealthy: set<Url>,
                                           nodes: Nodes)
    requires forall i :: 0 <= i < |pdfs| ==> pdfs[i].pdfId in store && store[pdfs[i].pdfId] == pdfs[i]
    requires forall i, j :: 0 <= i < j < |pdfs| ==> pdfs[i].pdfId != pdfs[j].pdfId
    ensures CleanStore(store, pdfs, unhealthy, nodes).Keys == store.Keys
    ensures forall p :: p in store ==>
              CleanStore(store, pdfs, unhealthy, nodes)[p]
              == if p in PdfIds(pdfs) then store[p].(chunks := Fresh(store[p].chunks, p, unhealthy, nodes)) else store[p]
  {
    if pdfs != [] {
      var init, pdf := pdfs[..|pdfs| - 1], pdfs[|pdfs| - 1];
      CleanStoreExact(store, init, unhealthy, nodes);
      var mid := CleanStore(store, init, unhealthy, nodes);
      assert pdf.pdfId !in PdfIds(init) by {
        forall m | m in init ensures m.pdfId != pdf.pdfId {
          var i :| 0 <= i < |init| && init[i] == m;
        }
      }
      assert PdfIds(pdfs) == PdfIds(init) + {pdf.pdfId} by { assert pdfs == init + [pdf]; }
      assert mid[pdf.pdfId] == pdf;
      CleanStep(mid, pdf, unhealthy, nodes);
    }
  }

  /** Removing the stale locations of one blob replaces its locations by its fresh ones and
      leaves every other record alone. */
  lemma CleanStep(mid: map<PdfId, PdfMetadata>, pdf: PdfMetadata, unhealthy: set<Url>, nodes: Nodes)
    requires pdf.pdfId in mid && mid[pdf.pdfId].chunks == pdf.chunks
    ensures var after := RemoveAll(mid, pdf.pdfId, StaleOf(pdf.chunks, pdf.pdfId, unhealthy, nodes));
            && after.Keys == mid.Keys
            && (forall p :: p in mid && p != pdf.pdfId ==> after[p] == mid[p])
            && after[pdf.pdfId] == mid[pdf.pdfId].(chunks := Fresh(pdf.chunks, pdf.pdfId, unhealthy, nodes))
  {
    var stale := StaleOf(pdf.chunks, pdf.pdfId, unhealthy, nodes);
    RemoveAllKeeps(mid, pdf.pdfId, stale);
    StalePairs(pdf.chunks, pdf.pdfId, unhealthy, nodes);
    KeepUnlessStale(pdf.chunks, Pairs(stale), pdf.pdfId, unhealthy, nodes);
  }

  /** The pass keeps every location that is not stale, in particular every location on a
      healthy server, and drops every stale one. */
  lemma CleanupKeepsFresh(chunks: seq<ChunkLocation>, pdfId: PdfId, allServers: seq<Url>, healthy: seq<Url>, nodes: Nodes)
    ensures var unhealthy := UnhealthyServers(allServers, healthy);
            forall c :: c in chunks && c.chunkserverUrl in healthy ==> c in Fresh(chunks, pdfId, unhealthy, nodes)
    ensures var unhealthy := UnhealthyServers(allServers, healthy);
            forall c :: c in chunks && ChunkExists(nodes, c.chunkserverUrl, ChunkKey(pdfId, c.chunkIndex)) ==>
                          c in Fresh(chunks, pdfId, unhealthy, nodes)
    ensures var unhealthy := UnhealthyServers(allServers, healthy);
            unhealthy == {} ==> Fresh(chunks, pdfId, unhealthy, nodes) == chunks
  {
    var unhealthy := UnhealthyServers(allServers, healthy);
    StaleMembers(chunks, pdfId, unhealthy, nodes);
    if unhealthy == {} {
      NothingStale(chunks, pdfId, nodes);
    }
  }

  lemma {:induction false} NothingStale(chunks: seq<ChunkLocation>, pdfId: PdfId, nodes: Nodes)
    ensures Fresh(chunks, pdfId, {}, nodes) == chunks
  {
    if chunks != [] {
      NothingStale(chunks[..|chunks| - 1], pdfId, nodes);
      assert chunks == chunks[..|chunks| - 1] + [chunks[|chunks| - 1]];
    }
  }
}
