/** Queries over the replica-location list of one blob, shared by the master, its integrity
    monitor and the client. */
module Locations {
  import opened Common

  /** The set of chunk indices that occur in a location list. */
  function Indices(chunks: seq<ChunkLocation>): set<int> {
    set c | c in chunks :: c.chunkIndex
  }

  /** The set of servers that occur in a location list. */
  function Urls(chunks: seq<ChunkLocation>): set<Url> {
    set c | c in chunks :: c.chunkserverUrl
  }

  /** The locations of chunk `idx`, in list order: one bucket of `groupByIndex`. */
  function ReplicasOf(chunks: seq<ChunkLocation>, idx: int): seq<ChunkLocation> {
    if chunks == [] then []
    else
      var last := chunks[|chunks| - 1];
      ReplicasOf(chunks[..|chunks| - 1], idx) + (if last.chunkIndex == idx then [last] else [])
  }

  /** A bucket holds exactly the locations of its index. */
  lemma {:induction false} ReplicasOfMembers(chunks: seq<ChunkLocation>, idx: int)
    ensures forall c :: c in ReplicasOf(chunks, idx) <==> c in chunks && c.chunkIndex == idx
    ensures |ReplicasOf(chunks, idx)| <= |chunks|
  {
    if chunks != [] {
      var init := chunks[..|chunks| - 1];
      assert chunks == init + [chunks[|chunks| - 1]];
      ReplicasOfMembers(init, idx);
    }
  }

  /** The chunk indices of a location list, each once, in order of first appearance. */
  function DistinctIndices(chunks: seq<ChunkLocation>): (r: seq<int>)
    ensures Distinct(r)
    ensures forall i :: i in r <==> i in Indices(chunks)
  {
    if chunks == [] then []
    else
      var init := chunks[..|chunks| - 1];
      var last := chunks[|chunks| - 1];
      assert chunks == init + [last];
      DistinctIndices(init) + (if last.chunkIndex in Indices(init) then [] else [last.chunkIndex])
  }

  /** `groupByIndex` (IntegrityMonitor.java), also written inline in `checkIntegrity` and in the
      client: one bucket per index that occurs, each bucket the locations of that index in list order. */
  method GroupByIndex(chunks: seq<ChunkLocation>) returns (grouped: map<int, seq<ChunkLocation>>)
    ensures grouped.Keys == Indices(chunks)
    ensures forall i :: i in grouped ==> grouped[i] == ReplicasOf(chunks, i) && grouped[i] != []
  {
    grouped := map[];
    var n := 0;
    while n < |chunks|
      invariant 0 <= n <= |chunks|
      invariant IsGrouping(chunks[..n], grouped)
    {
      var chunk := chunks[n];
      var bucket := if chunk.chunkIndex in grouped then grouped[chunk.chunkIndex] else [];
      GroupingStep(chunks, n, grouped);
      grouped := grouped[chunk.chunkIndex := bucket + [chunk]];
      n := n + 1;
    }
    GroupingDone(chunks, grouped);
  }

  /** `grouped` buckets `chunks` by index. */
  ghost predicate IsGrouping(chunks: seq<ChunkLocation>, grouped: map<int, seq<ChunkLocation>>) {
    && grouped.Keys == Indices(chunks)
    && forall i :: i in grouped ==> grouped[i] == ReplicasOf(chunks, i) && grouped[i] != []
  }

  /** A grouping of the whole list (the end of the loop). */
  lemma GroupingDone(chunks: seq<ChunkLocation>, grouped: map<int, seq<ChunkLocation>>)
    requires IsGrouping(chunks[..|chunks|], grouped)
    ensures grouped.Keys == Indices(chunks)
    ensures forall i :: i in grouped ==> grouped[i] == ReplicasOf(chunks, i) && grouped[i] != []
  {
    assert chunks[..|chunks|] == chunks;
  }

  /** Appending one location to its bucket keeps the grouping exact. */
  lemma GroupingStep(chunks: seq<ChunkLocation>, n: nat, grouped: map<int, seq<ChunkLocation>>)
    requires n < |chunks| && IsGrouping(chunks[..n], grouped)
    ensures var c := chunks[n];
            IsGrouping(chunks[..n + 1],
                       grouped[c.chunkIndex := (if c.chunkIndex in grouped then grouped[c.chunkIndex] else []) + [c]])
  {
    var c := chunks[n];
    var prefix := chunks[..n];
    var g' := grouped[c.chunkIndex := (if c.chunkIndex in grouped then grouped[c.chunkIndex] else []) + [c]];
    assert chunks[..n + 1] == prefix + [c];
    IndicesSnoc(prefix, c);
    forall i | i in g' ensures g'[i] == ReplicasOf(prefix + [c], i) && g'[i] != [] {
      ReplicasOfSnoc(prefix, c, i);
      if i == c.chunkIndex && i !in grouped {
        ReplicasOfAbsent(prefix, i);
      }
    }
  }

  /** The bucket of a list extended by one location. */
  lemma ReplicasOfSnoc(chunks: seq<ChunkLocation>, c: ChunkLocation, idx: int)
    ensures ReplicasOf(chunks + [c], idx) == ReplicasOf(chunks, idx) + (if c.chunkIndex == idx then [c] else [])
  {
    assert (chunks + [c])[..|chunks + [c]| - 1] == chunks;
  }

  /** The indices of a list extended by one location. */
  lemma IndicesSnoc(chunks: seq<ChunkLocation>, c: ChunkLocation)
    ensures Indices(chunks + [c]) == Indices(chunks) + {c.chunkIndex}
  {
    assert forall x :: x in chunks + [c] <==> x in chunks || x == c;
  }

  /** An index that does not occur has an empty bucket. */
  lemma {:induction false} ReplicasOfAbsent(chunks: seq<ChunkLocation>, idx: int)
    requires idx !in Indices(chunks)
    ensures ReplicasOf(chunks, idx) == []
  {
    if chunks != [] {
      var init := chunks[..|chunks| - 1];
      assert chunks == init + [chunks[|chunks| - 1]];
      IndicesSnoc(init, chunks[|chunks| - 1]);
      ReplicasOfAbsent(init, idx);
    }
  }

  /** The locations whose server is listed in `servers`, in list order (the loop of `getMetadata`). */
  function OnServers(chunks: seq<ChunkLocation>, servers: seq<Url>): seq<ChunkLocation> {
    if chunks == [] then []
    else
      var last := chunks[|chunks| - 1];
      OnServers(chunks[..|chunks| - 1], servers) + (if last.chunkserverUrl in servers then [last] else [])
  }

  /** The filter keeps exactly the locations on listed servers. */
  lemma {:induction false} OnServersMembers(chunks: seq<ChunkLocation>, servers: seq<Url>)
    ensures forall c :: c in OnServers(chunks, servers) <==> c in chunks && c.chunkserverUrl in servers
  {
    if chunks != [] {
      var init := chunks[..|chunks| - 1];
      assert chunks == init + [chunks[|chunks| - 1]];
      OnServersMembers(init, servers);
    }
  }

  /** Filtering commutes with concatenation, so `OnServers` keeps the order of the list. */
  lemma {:induction false} OnServersAppend(a: seq<ChunkLocation>, b: seq<ChunkLocation>, servers: seq<Url>)
    ensures OnServers(a + b, servers) == OnServers(a, servers) + OnServers(b, servers)
  {
    if b != [] {
      var b' := b[..|b| - 1];
      assert (a + b)[..|a + b| - 1] == a + b';
      OnServersAppend(a, b', servers);
    } else {
      assert a + b == a;
    }
  }

  /** A list whose servers are all listed is returned unchanged. */
  lemma {:induction false} OnServersAll(chunks: seq<ChunkLocation>, servers: seq<Url>)
    requires forall c :: c in chunks ==> c.chunkserverUrl in servers
    ensures OnServers(chunks, servers) == chunks
  {
    if chunks != [] {
      var init := chunks[..|chunks| - 1];
      assert chunks == init + [chunks[|chunks| - 1]];
      OnServersAll(init, servers);
    }
  }

  /** True of a location of chunk `idx` on server `url`. */
  predicate Matches(c: ChunkLocation, idx: int, url: Url) {
    c.chunkIndex == idx && c.chunkserverUrl == url
  }

  /** The list without every location of chunk `idx` on server `url` (the assumed
      `removeChunkReplica`). */
  function RemoveMatching(chunks: seq<ChunkLocation>, idx: int, url: Url): seq<ChunkLocation> {
    if chunks == [] then []
    else
      var last := chunks[|chunks| - 1];
      RemoveMatching(chunks[..|chunks| - 1], idx, url) + (if Matches(last, idx, url) then [] else [last])
  }

  /** Removal drops exactly the matching locations. */
  lemma {:induction false} RemoveMatchingMembers(chunks: seq<ChunkLocation>, idx: int, url: Url)
    ensures forall c :: c in RemoveMatching(chunks, idx, url) <==> c in chunks && !Matches(c, idx, url)
    ensures |RemoveMatching(chunks, idx, url)| <= |chunks|
  {
    if chunks != [] {
      var init := chunks[..|chunks| - 1];
      assert chunks == init + [chunks[|chunks| - 1]];
      RemoveMatchingMembers(init, idx, url);
    }
  }

  /** The position of the first location of chunk `idx` on server `url`, if any. */
  function IndexOfReplica(chunks: seq<ChunkLocation>, idx: int, url: Url): (r: Option<nat>)
    ensures r.Some? ==> r.value < |chunks| && Matches(chunks[r.value], idx, url)
                        && forall j :: 0 <= j < r.value ==> !Matches(chunks[j], idx, url)
    ensures r.None? ==> forall j :: 0 <= j < |chunks| ==> !Matches(chunks[j], idx, url)
  {
    if chunks == [] then None
    else if Matches(chunks[0], idx, url) then Some(0)
    else
      match IndexOfReplica(chunks[1..], idx, url)
      case None => None
      case Some(k) => Some(k + 1)
  }

  /** A location list has at most as many distinct indices as entries. */
  lemma {:induction false} IndicesBound(chunks: seq<ChunkLocation>)
    ensures |Indices(chunks)| <= |chunks|
  {
    if chunks != [] {
      var init := chunks[..|chunks| - 1];
      IndicesBound(init);
      assert chunks == init + [chunks[|chunks| - 1]];
      IndicesSnoc(init, chunks[|chunks| - 1]);
    }
  }

  /** Bucketing distributes over concatenation. */
  lemma {:induction false} ReplicasOfAppend(a: seq<ChunkLocation>, b: seq<ChunkLocation>, idx: int)
    ensures ReplicasOf(a + b, idx) == ReplicasOf(a, idx) + ReplicasOf(b, idx)
  {
    if b != [] {
      var b' := b[..|b| - 1];
      assert (a + b)[..|a + b| - 1] == a + b';
      ReplicasOfAppend(a, b', idx);
    } else {
      assert a + b == a;
    }
  }

  /** A list whose locations all have index `i` is one whole bucket. */
  lemma {:induction false} ReplicasOfUniform(s: seq<ChunkLocation>, i: int, idx: int)
    requires forall c :: c in s ==> c.chunkIndex == i
    ensures ReplicasOf(s, idx) == if i == idx then s else []
  {
    if s != [] {
      var init := s[..|s| - 1];
      assert s == init + [s[|s| - 1]];
      ReplicasOfUniform(init, i, idx);
    }
  }

  /** The location lists of `plans`, one after the other. */
  function Flatten(plans: seq<seq<ChunkLocation>>): seq<ChunkLocation> {
    if plans == [] then [] else Flatten(plans[..|plans| - 1]) + plans[|plans| - 1]
  }

  /** When the i-th list holds only locations of chunk i, bucket i of the flattened list is the
      i-th list, and every other bucket is empty. */
  lemma {:induction false} FlattenBuckets(plans: seq<seq<ChunkLocation>>, idx: int)
    requires forall i, c :: 0 <= i < |plans| && c in plans[i] ==> c.chunkIndex == i
    ensures ReplicasOf(Flatten(plans), idx) == if 0 <= idx < |plans| then plans[idx] else []
  {
    if plans != [] {
      var m := |plans| - 1;
      var prev, last := plans[..m], plans[m];
      assert Flatten(plans) == Flatten(prev) + last;
      assert ReplicasOf(Flatten(prev), idx) == if 0 <= idx < m then plans[idx] else [] by {
        assert forall i :: 0 <= i < m ==> prev[i] == plans[i];
        FlattenBuckets(prev, idx);
      }
      assert ReplicasOf(last, idx) == if idx == m then last else [] by {
        ReplicasOfUniform(last, m, idx);
      }
      ReplicasOfAppend(Flatten(prev), last, idx);
    }
  }
}
