/** The client library (GfsClientService): an upload cuts the payload into fixed-size windows and
    sends each window to every replica the master's plan lists for it, counting failures without
    stopping; a download fetches every index from the first replica that answers and joins the
    windows in index order. */
module Client {
  import opened Common
  import opened Locations
  import opened Network
  import opened Master

  // ---------------------------------------------------------------------------------------
  // Slicing
  // ---------------------------------------------------------------------------------------

  /** The window of chunk `chunkIndex`: `Arrays.copyOfRange(data, offset, offset + length)` with
      `offset = chunkIndex * chunkSize` and `length = min(chunkSize, data.length - offset)`.
      `copyOfRange` throws when the offset lies outside the payload. */
  function Slice(data: Bytes, chunkIndex: int, chunkSize: nat): Option<Bytes> {
    var offset := chunkIndex * chunkSize;
    if offset < 0 || offset > |data| then None
    else Some(data[offset..offset + Min(chunkSize, |data| - offset)])
  }

  /** The windows 0..n-1 joined in index order. */
  function JoinSlices(data: Bytes, chunkSize: nat, n: nat): Bytes {
    if n == 0 then []
    else
      JoinSlices(data, chunkSize, n - 1) + match Slice(data, n - 1, chunkSize) {
        case Some(window) => window
        case None => []
      }
  }

  /** Chunk i of a blob, for every index the plan can name, is the non-empty window
      `data[i * chunkSize .. min((i + 1) * chunkSize, |data|)]` of at most `chunkSize` bytes. */
  lemma SliceWindow(data: Bytes, chunkSize: nat, i: int)
    requires chunkSize > 0 && 0 <= i < NumChunks(|data|, chunkSize)
    ensures Slice(data, i, chunkSize).Some?
    ensures var window := Slice(data, i, chunkSize).value;
            && 1 <= |window| <= chunkSize
            && window == data[i * chunkSize..Min((i + 1) * chunkSize, |data|)]
  {
    var n := NumChunks(|data|, chunkSize);
    NumChunksBounds(|data|, chunkSize);
    MulMonotone(i, n - 1, chunkSize);
    assert (i + 1) * chunkSize == i * chunkSize + chunkSize;
  }

  lemma MulMonotone(a: nat, b: nat, c: nat)
    requires a <= b
    ensures a * c <= b * c
  {
    assert b * c == a * c + (b - a) * c;
  }

  /** Joining the first n windows gives the first n * chunkSize bytes of the payload. */
  lemma {:induction false} JoinSlicesPrefix(data: Bytes, chunkSize: nat, n: nat)
    requires chunkSize > 0 && n <= NumChunks(|data|, chunkSize)
    ensures JoinSlices(data, chunkSize, n) == data[..Min(n * chunkSize, |data|)]
  {
    if n > 0 {
      JoinSlicesPrefix(data, chunkSize, n - 1);
      SliceWindow(data, chunkSize, n - 1);
      NumChunksBounds(|data|, chunkSize);
      MulMonotone(n - 1, NumChunks(|data|, chunkSize) - 1, chunkSize);
      assert n * chunkSize == (n - 1) * chunkSize + chunkSize;
      var lo := (n - 1) * chunkSize;
      assert data[..Min(n * chunkSize, |data|)] == data[..lo] + data[lo..Min(n * chunkSize, |data|)];
    }
  }

  /** The split/join round trip: the windows of all ceil(|data| / chunkSize) chunks, joined in
      index order, are the payload. */
  lemma SlicesRoundTrip(data: Bytes, chunkSize: nat)
    requires chunkSize > 0
    ensures JoinSlices(data, chunkSize, NumChunks(|data|, chunkSize)) == data
  {
    var n := NumChunks(|data|, chunkSize);
    JoinSlicesPrefix(data, chunkSize, n);
    NumChunksBounds(|data|, chunkSize);
    assert data[..|data|] == data;
  }

  // ---------------------------------------------------------------------------------------
  // Upload
  // ---------------------------------------------------------------------------------------

  /** The fleet and the counters of `uploadPdf`; `aborted` records that `copyOfRange` threw. */
  datatype Upload = Upload(nodes: Nodes, successCount: nat, failCount: nat, aborted: bool)

  /** The inner loop: one write attempt per listed replica, in list order. */
  function SendReplicas(u: Upload, key: ChunkKey, payload: Bytes, replicas: seq<ChunkLocation>): Upload {
    if replicas == [] then u
    else
      var prev := SendReplicas(u, key, payload, replicas[..|replicas| - 1]);
      var url := replicas[|replicas| - 1].chunkserverUrl;
      if url in prev.nodes then
        prev.(nodes := WriteChunk(prev.nodes, url, key, payload), successCount := prev.successCount + 1)
      else
        prev.(failCount := prev.failCount + 1)
  }

  /** The outer loop over the index buckets, visited in `order`; the first window that cannot be
      cut aborts the upload and leaves every later bucket unsent. */
  function SendChunks(u: Upload, pdfId: PdfId, data: Bytes, chunkSize: nat, order: seq<int>,
                      chunks: seq<ChunkLocation>): Upload
  {
    if order == [] then u
    else
      var prev := SendChunks(u, pdfId, data, chunkSize, order[..|order| - 1], chunks);
      var idx := order[|order| - 1];
      if prev.aborted then prev
      else match Slice(data, idx, chunkSize) {
        case None => prev.(aborted := true)
        case Some(window) => SendReplicas(prev, ChunkKey(pdfId, idx), window, ReplicasOf(chunks, idx))
      }
  }

  /** The number of locations in the buckets of `order`. */
  function BucketTotal(chunks: seq<ChunkLocation>, order: seq<int>): nat {
    if order == [] then 0
    else BucketTotal(chunks, order[..|order| - 1]) + |ReplicasOf(chunks, order[|order| - 1])|
  }

  /** A chunk key the upload writes on node `url`: a key of this blob whose index was visited and
      whose bucket lists `url`. */
  ghost predicate Written(pdfId: PdfId, order: seq<int>, chunks: seq<ChunkLocation>, url: Url, k: ChunkKey) {
    k.pdfId == pdfId && k.chunkIndex in order && url in Urls(ReplicasOf(chunks, k.chunkIndex))
  }

  /** One bucket: every listed replica is tried once; a reachable one receives the window, an
      unreachable one is counted as a failure; nothing else changes. */
  lemma {:induction false} SendReplicasEffect(u: Upload, key: ChunkKey, payload: Bytes, replicas: seq<ChunkLocation>)
    ensures var r := SendReplicas(u, key, payload, replicas);
            && r.nodes.Keys == u.nodes.Keys
            && r.aborted == u.aborted
            && r.successCount + r.failCount == u.successCount + u.failCount + |replicas|
            && u.successCount <= r.successCount && u.failCount <= r.failCount
            && forall url :: url in u.nodes ==>
                 r.nodes[url] == if url in Urls(replicas) then u.nodes[url][key := payload] else u.nodes[url]
  {
    if replicas != [] {
      var init := replicas[..|replicas| - 1];
      var last := replicas[|replicas| - 1];
      SendReplicasEffect(u, key, payload, init);
      assert replicas == init + [last];
      assert forall url :: url in Urls(replicas) <==> url in Urls(init) || url == last.chunkserverUrl;
    }
  }

  /** The counters only add up: a bucket sent from some counts is the bucket sent from zero,
      shifted by those counts. */
  lemma {:induction false} SendReplicasShift(u: Upload, key: ChunkKey, payload: Bytes, replicas: seq<ChunkLocation>)
    ensures var base := SendReplicas(Upload(u.nodes, 0, 0, u.aborted), key, payload, replicas);
            SendReplicas(u, key, payload, replicas)
            == base.(successCount := u.successCount + base.successCount, failCount := u.failCount + base.failCount)
  {
    if replicas != [] {
      SendReplicasShift(u, key, payload, replicas[..|replicas| - 1]);
    }
  }

  /** One more bucket of the outer loop. */
  lemma SendChunksStep(u: Upload, pdfId: PdfId, data: Bytes, chunkSize: nat, order: seq<int>,
                       chunks: seq<ChunkLocation>, i: nat)
    requires i < |order|
    ensures var prev := SendChunks(u, pdfId, data, chunkSize, order[..i], chunks);
            var next := SendChunks(u, pdfId, data, chunkSize, order[..i + 1], chunks);
            && (prev.aborted ==> next == prev)
            && (!prev.aborted && Slice(data, order[i], chunkSize).None? ==> next == prev.(aborted := true))
            && (!prev.aborted && Slice(data, order[i], chunkSize).Some? ==>
                  next == SendReplicas(prev, ChunkKey(pdfId, order[i]), Slice(data, order[i], chunkSize).value,
                                       ReplicasOf(chunks, order[i])))
  {
    assert order[..i + 1][..i] == order[..i];
  }

  /** An aborted upload sends nothing more. */
  lemma {:induction false} SendChunksAbortSticks(u: Upload, pdfId: PdfId, data: Bytes, chunkSize: nat, order: seq<int>,
                                                 chunks: seq<ChunkLocation>, i: nat)
    requires i <= |order| && SendChunks(u, pdfId, data, chunkSize, order[..i], chunks).aborted
    ensures SendChunks(u, pdfId, data, chunkSize, order, chunks) == SendChunks(u, pdfId, data, chunkSize, order[..i], chunks)
    decreases |order| - i
  {
    if i < |order| {
      SendChunksStep(u, pdfId, data, chunkSize, order, chunks, i);
      SendChunksAbortSticks(u, pdfId, data, chunkSize, order, chunks, i + 1);
    } else {
      assert order[..i] == order;
    }
  }

  /** The upload aborts exactly when some visited index has no window; no node joins or leaves. */
  lemma {:induction false} SendChunksAborts(u: Upload, pdfId: PdfId, data: Bytes, chunkSize: nat, order: seq<int>,
                                            chunks: seq<ChunkLocation>)
    requires !u.aborted
    ensures var r := SendChunks(u, pdfId, data, chunkSize, order, chunks);
            && r.nodes.Keys == u.nodes.Keys
            && (r.aborted <==> exists i :: i in order && Slice(data, i, chunkSize).None?)
            && (!r.aborted ==> r.successCount + r.failCount == u.successCount + u.failCount + BucketTotal(chunks, order))
  {
    if order != [] {
      var init, idx := order[..|order| - 1], order[|order| - 1];
      SendChunksAborts(u, pdfId, data, chunkSize, init, chunks);
      assert order == init + [idx];
      var prev := SendChunks(u, pdfId, data, chunkSize, init, chunks);
      if !prev.aborted && Slice(data, idx, chunkSize).Some? {
        SendReplicasEffect(prev, ChunkKey(pdfId, idx), Slice(data, idx, chunkSize).value, ReplicasOf(chunks, idx));
      }
    }
  }

  /** A completed upload leaves on every node exactly its old chunks plus the written keys, each
      written key holding the window of its index, and every other chunk as it was. */
  lemma {:induction false} SendChunksWrites(u: Upload, pdfId: PdfId, data: Bytes, chunkSize: nat, order: seq<int>,
                                            chunks: seq<ChunkLocation>)
    requires !u.aborted
    ensures var r := SendChunks(u, pdfId, data, chunkSize, order, chunks);
            !r.aborted ==>
              && r.nodes.Keys == u.nodes.Keys
              && forall url, k :: url in u.nodes ==>
                && (k in r.nodes[url] <==> k in u.nodes[url] || Written(pdfId, order, chunks, url, k))
                && (k in r.nodes[url] ==>
                      if Written(pdfId, order, chunks, url, k) then Slice(data, k.chunkIndex, chunkSize) == Some(r.nodes[url][k])
                      else r.nodes[url][k] == u.nodes[url][k])
  {
    if order != [] {
      var init, idx := order[..|order| - 1], order[|order| - 1];
      SendChunksWrites(u, pdfId, data, chunkSize, init, chunks);
      SendChunksAborts(u, pdfId, data, chunkSize, init, chunks);
      assert order == init + [idx];
      var prev := SendChunks(u, pdfId, data, chunkSize, init, chunks);
      var r := SendChunks(u, pdfId, data, chunkSize, order, chunks);
      if !r.aborted {
        var window := Slice(data, idx, chunkSize).value;
        var key := ChunkKey(pdfId, idx);
        SendReplicasEffect(prev, key, window, ReplicasOf(chunks, idx));
        forall url, k | url in u.nodes
          ensures k in r.nodes[url] <==> k in u.nodes[url] || Written(pdfId, order, chunks, url, k)
          ensures k in r.nodes[url] ==>
                    if Written(pdfId, order, chunks, url, k) then Slice(data, k.chunkIndex, chunkSize) == Some(r.nodes[url][k])
                    else r.nodes[url][k] == u.nodes[url][k]
        {
          assert Written(pdfId, order, chunks, url, k) <==>
                 Written(pdfId, init, chunks, url, k) || (k == key && url in Urls(ReplicasOf(chunks, idx)));
        }
      }
    }
  }

  /** The buckets of the distinct indices, in any order, hold every location once. */
  lemma {:induction false} BucketTotalSnoc(chunks: seq<ChunkLocation>, c: ChunkLocation, order: seq<int>)
    requires Distinct(order)
    ensures BucketTotal(chunks + [c], order) == BucketTotal(chunks, order) + if c.chunkIndex in order then 1 else 0
  {
    if order != [] {
      var init, idx := order[..|order| - 1], order[|order| - 1];
      assert Distinct(init) by {
        forall i, j | 0 <= i < j < |init| ensures init[i] != init[j] { assert init[i] == order[i] && init[j] == order[j]; }
      }
      assert idx !in init by {
        forall i | 0 <= i < |init| ensures init[i] != idx { assert init[i] == order[i]; }
      }
      BucketTotalSnoc(chunks, c, init);
      ReplicasOfSnoc(chunks, c, idx);
      assert order == init + [idx];
    }
  }

  /** Every location of a plan gets exactly one write attempt. */
  lemma {:induction false} BucketTotalAll(chunks: seq<ChunkLocation>)
    ensures BucketTotal(chunks, DistinctIndices(chunks)) == |chunks|
  {
    if chunks != [] {
      var init, c := chunks[..|chunks| - 1], chunks[|chunks| - 1];
      assert chunks == init + [c];
      BucketTotalAll(init);
      var order := DistinctIndices(init);
      BucketTotalSnoc(init, c, order);
      assert BucketTotal(chunks, order) == |init| + if c.chunkIndex in order then 1 else 0;
      if c.chunkIndex !in Indices(init) {
        var order' := order + [c.chunkIndex];
        assert DistinctIndices(chunks) == order';
        ReplicasOfAbsent(init, c.chunkIndex);
        ReplicasOfSnoc(init, c, c.chunkIndex);
        assert order'[..|order'| - 1] == order;
        assert BucketTotal(chunks, order') == BucketTotal(chunks, order) + |ReplicasOf(chunks, c.chunkIndex)|;
      } else {
        assert DistinctIndices(chunks) == order;
      }
    }
  }

  // ---------------------------------------------------------------------------------------
  // Download
  // ---------------------------------------------------------------------------------------

  /** The position of the first replica, in list order, whose read succeeds. */
  function FirstReadable(nodes: Nodes, key: ChunkKey, replicas: seq<ChunkLocation>): (r: Option<nat>)
    ensures r.Some? ==> r.value < |replicas| && ChunkExists(nodes, replicas[r.value].chunkserverUrl, key)
                        && forall j :: 0 <= j < r.value ==> !ChunkExists(nodes, replicas[j].chunkserverUrl, key)
    ensures r.None? ==> forall j :: 0 <= j < |replicas| ==> !ChunkExists(nodes, replicas[j].chunkserverUrl, key)
  {
    if replicas == [] then None
    else if ChunkExists(nodes, replicas[0].chunkserverUrl, key) then Some(0)
    else match FirstReadable(nodes, key, replicas[1..]) {
      case None => None
      case Some(j) => Some(j + 1)
    }
  }

  /** One index of `downloadPdf`: fails when no location lists it or when every listed replica
      fails, otherwise the payload of the first replica that answers. */
  function FetchChunk(nodes: Nodes, pdfId: PdfId, chunks: seq<ChunkLocation>, i: int): Result<Bytes> {
    var replicas := ReplicasOf(chunks, i);
    var key := ChunkKey(pdfId, i);
    if replicas == [] then Err(ChunkUnavailable(i))
    else match FirstReadable(nodes, key, replicas) {
      case None => Err(ChunkUnreadable(i))
      case Some(j) => Ok(nodes[replicas[j].chunkserverUrl][key])
    }
  }

  /** `chunkDataList`: the indices 0..n-1 in order, stopping at the first failure. */
  function FetchAll(nodes: Nodes, pdfId: PdfId, chunks: seq<ChunkLocation>, n: nat): Result<seq<Bytes>> {
    if n == 0 then Ok([])
    else match FetchAll(nodes, pdfId, chunks, n - 1) {
      case Err(e) => Err(e)
      case Ok(parts) =>
        match FetchChunk(nodes, pdfId, chunks, n - 1) {
          case Err(e) => Err(e)
          case Ok(part) => Ok(parts + [part])
        }
    }
  }

  /** The `ByteArrayOutputStream` of the chunk payloads, in list order. */
  function Concat(parts: seq<Bytes>): Bytes {
    if parts == [] then [] else Concat(parts[..|parts| - 1]) + parts[|parts| - 1]
  }

  /** `downloadPdf` on a metadata reply (None: the master answered with an error): the indices
      0..k-1, k the number of distinct indices listed, fetched and joined. */
  function Download(nodes: Nodes, pdfId: PdfId, metadata: Option<PdfMetadata>): Result<Bytes> {
    match metadata {
      case None => Err(PdfNotFound)
      case Some(m) =>
        match FetchAll(nodes, pdfId, m.chunks, |Indices(m.chunks)|) {
          case Err(e) => Err(e)
          case Ok(parts) => Ok(Concat(parts))
        }
    }
  }

  /** The three outcomes of one index: unavailable exactly when no location lists it, unreadable
      exactly when it is listed but no listed replica holds the chunk, and otherwise the payload
      held by a listed replica. */
  lemma FetchChunkCases(nodes: Nodes, pdfId: PdfId, chunks: seq<ChunkLocation>, i: int)
    ensures var r := FetchChunk(nodes, pdfId, chunks, i);
            && (r == Err(ChunkUnavailable(i)) <==> i !in Indices(chunks))
            && (r == Err(ChunkUnreadable(i)) <==>
                  i in Indices(chunks)
                  && forall c :: c in chunks && c.chunkIndex == i ==> !ChunkExists(nodes, c.chunkserverUrl, ChunkKey(pdfId, i)))
            && (r.Err? ==> r == Err(ChunkUnavailable(i)) || r == Err(ChunkUnreadable(i)))
            && (r.Ok? ==> exists c :: c in chunks && c.chunkIndex == i && ChunkExists(nodes, c.chunkserverUrl, ChunkKey(pdfId, i))
                                && r.value == nodes[c.chunkserverUrl][ChunkKey(pdfId, i)])
  {
    var replicas := ReplicasOf(chunks, i);
    var key := ChunkKey(pdfId, i);
    ReplicasOfMembers(chunks, i);
    if replicas == [] {
      forall c | c in chunks ensures c.chunkIndex != i {
        assert c !in replicas;
      }
    } else {
      assert replicas[0] in replicas;
      match FirstReadable(nodes, key, replicas) {
        case None =>
          forall c | c in chunks && c.chunkIndex == i ensures !ChunkExists(nodes, c.chunkserverUrl, key) {
            assert c in replicas;
            var j :| 0 <= j < |replicas| && replicas[j] == c;
          }
        case Some(j) =>
          assert replicas[j] in replicas;
      }
    }
  }

  /** The download list succeeds exactly when every index 0..n-1 does, and then holds their
      payloads in order; otherwise it fails with the error of the first failing index. */
  lemma {:induction false} FetchAllCases(nodes: Nodes, pdfId: PdfId, chunks: seq<ChunkLocation>, n: nat)
    ensures var r := FetchAll(nodes, pdfId, chunks, n);
            && (r.Ok? <==> forall i :: 0 <= i < n ==> FetchChunk(nodes, pdfId, chunks, i).Ok?)
            && (r.Ok? ==> |r.value| == n && forall i :: 0 <= i < n ==> FetchChunk(nodes, pdfId, chunks, i) == Ok(r.value[i]))
            && (r.Err? ==> exists i :: 0 <= i < n && FetchChunk(nodes, pdfId, chunks, i) == Err(r.error)
                                     && forall j :: 0 <= j < i ==> FetchChunk(nodes, pdfId, chunks, j).Ok?)
  {
    if n > 0 {
      FetchAllCases(nodes, pdfId, chunks, n - 1);
    }
  }

  /** Once an index fails, the download list fails with that error however many indices follow. */
  lemma {:induction false} FetchAllFailsFrom(nodes: Nodes, pdfId: PdfId, chunks: seq<ChunkLocation>, n: nat, m: nat)
    requires n <= m && FetchAll(nodes, pdfId, chunks, n).Err?
    ensures FetchAll(nodes, pdfId, chunks, m) == FetchAll(nodes, pdfId, chunks, n)
    decreases m
  {
    if n < m {
      FetchAllFailsFrom(nodes, pdfId, chunks, n, m - 1);
    }
  }

  /** Joining the windows read back gives the joined windows. */
  lemma {:induction false} ConcatWindows(parts: seq<Bytes>, data: Bytes, chunkSize: nat)
    requires forall i :: 0 <= i < |parts| ==> Slice(data, i, chunkSize) == Some(parts[i])
    ensures Concat(parts) == JoinSlices(data, chunkSize, |parts|)
  {
    if parts != [] {
      var init := parts[..|parts| - 1];
      ConcatWindows(init, data, chunkSize);
    }
  }

  /** The indices 0..n-1 in order (the loop counter of `downloadPdf`). */
  function Iota(n: nat): (r: seq<int>)
    ensures |r| == n && forall i :: 0 <= i < n ==> r[i] == i
  {
    if n == 0 then [] else Iota(n - 1) + [n - 1]
  }

  /** A set of indices that is exactly 0..n-1 has n elements. */
  lemma RangeSize(indices: set<int>, n: nat)
    requires forall i :: i in indices <==> 0 <= i < n
    ensures |indices| == n
  {
    var iota := Iota(n);
    forall x | x in iota ensures 0 <= x < n {
      var j :| 0 <= j < n && iota[j] == x;
    }
    forall x | 0 <= x < n ensures x in iota {
      assert iota[x] == x;
    }
    assert indices == set x | x in iota;
    DistinctCardinality(iota);
  }

  /** An upload along a location list whose indices are exactly 0..ceil(|data| / chunkSize) - 1
      completes, with one write attempt per location. */
  lemma UploadCompletes(nodes: Nodes, pdfId: PdfId, data: Bytes, chunkSize: nat, chunks: seq<ChunkLocation>)
    requires chunkSize > 0
    requires forall i :: i in Indices(chunks) <==> 0 <= i < NumChunks(|data|, chunkSize)
    ensures var u := SendChunks(Upload(nodes, 0, 0, false), pdfId, data, chunkSize, DistinctIndices(chunks), chunks);
            !u.aborted && u.successCount + u.failCount == |chunks|
  {
    var order := DistinctIndices(chunks);
    SendChunksAborts(Upload(nodes, 0, 0, false), pdfId, data, chunkSize, order, chunks);
    forall i | i in order ensures Slice(data, i, chunkSize).Some? {
      SliceWindow(data, chunkSize, i);
    }
    BucketTotalAll(chunks);
  }

  /** After such an upload, an index that a sub-list of the locations lists on a reachable node
      reads back as its window. */
  lemma ReadsBackWindow(nodes: Nodes, pdfId: PdfId, data: Bytes, chunkSize: nat,
                        chunks: seq<ChunkLocation>, view: seq<ChunkLocation>, i: int)
    requires chunkSize > 0
    requires forall i :: i in Indices(chunks) <==> 0 <= i < NumChunks(|data|, chunkSize)
    requires forall c :: c in view ==> c in chunks
    requires exists c :: c in view && c.chunkIndex == i && c.chunkserverUrl in nodes
    ensures 0 <= i < NumChunks(|data|, chunkSize)
    ensures var u := SendChunks(Upload(nodes, 0, 0, false), pdfId, data, chunkSize, DistinctIndices(chunks), chunks);
            Slice(data, i, chunkSize).Some? && FetchChunk(u.nodes, pdfId, view, i) == Ok(Slice(data, i, chunkSize).value)
  {
    var order := DistinctIndices(chunks);
    var u0 := Upload(nodes, 0, 0, false);
    var u := SendChunks(u0, pdfId, data, chunkSize, order, chunks);
    var key := ChunkKey(pdfId, i);
    var c :| c in view && c.chunkIndex == i && c.chunkserverUrl in nodes;
    assert c in chunks && i in Indices(chunks);
    SliceWindow(data, chunkSize, i);
    UploadCompletes(nodes, pdfId, data, chunkSize, chunks);
    SendChunksWrites(u0, pdfId, data, chunkSize, order, chunks);
    ReplicasOfMembers(chunks, i);
    FetchChunkCases(u.nodes, pdfId, view, i);
    assert c in ReplicasOf(chunks, i);
    assert Written(pdfId, order, chunks, c.chunkserverUrl, key);
    assert ChunkExists(u.nodes, c.chunkserverUrl, key);
    var r := FetchChunk(u.nodes, pdfId, view, i);
    var d :| d in view && d.chunkIndex == i && ChunkExists(u.nodes, d.chunkserverUrl, key)
             && r.value == u.nodes[d.chunkserverUrl][key];
    assert d in ReplicasOf(chunks, i);
    assert Written(pdfId, order, chunks, d.chunkserverUrl, key);
  }

  /** The client round trip. Uploading `data` along a location list whose indices are exactly
      0..ceil(|data| / chunkSize) - 1 completes, with one attempt per location; downloading it
      back along any sub-list of those locations that still names every index on at least one
      reachable node returns `data`. */
  lemma UploadThenDownload(nodes: Nodes, pdfId: PdfId, data: Bytes, chunkSize: nat,
                           chunks: seq<ChunkLocation>, view: seq<ChunkLocation>)
    requires chunkSize > 0
    requires forall i :: i in Indices(chunks) <==> 0 <= i < NumChunks(|data|, chunkSize)
    requires forall c :: c in view ==> c in chunks
    requires forall i :: i in Indices(chunks) ==> exists c :: c in view && c.chunkIndex == i && c.chunkserverUrl in nodes
    ensures var u := SendChunks(Upload(nodes, 0, 0, false), pdfId, data, chunkSize, DistinctIndices(chunks), chunks);
            && !u.aborted
            && u.successCount + u.failCount == |chunks|
            && Download(u.nodes, pdfId, Some(PdfMetadata(pdfId, |data|, view))) == Ok(data)
  {
    var n := NumChunks(|data|, chunkSize);
    var u := SendChunks(Upload(nodes, 0, 0, false), pdfId, data, chunkSize, DistinctIndices(chunks), chunks);
    UploadCompletes(nodes, pdfId, data, chunkSize, chunks);
    forall i | i in Indices(view) ensures 0 <= i < n {
      var c :| c in view && c.chunkIndex == i;
      assert c in chunks && i in Indices(chunks);
    }
    forall i | 0 <= i < n ensures i in Indices(view) {
      assert i in Indices(chunks);
      var c :| c in view && c.chunkIndex == i && c.chunkserverUrl in nodes;
    }
    RangeSize(Indices(view), n);
    forall i | 0 <= i < n
      ensures Slice(data, i, chunkSize).Some? && FetchChunk(u.nodes, pdfId, view, i) == Ok(Slice(data, i, chunkSize).value)
    {
      assert i in Indices(chunks);
      ReadsBackWindow(nodes, pdfId, data, chunkSize, chunks, view, i);
    }
    FetchAllCases(u.nodes, pdfId, view, n);
    var parts := FetchAll(u.nodes, pdfId, view, n).value;
    assert |parts| == n;
    forall i | 0 <= i < |parts| ensures Slice(data, i, chunkSize) == Some(parts[i]) {
      assert FetchChunk(u.nodes, pdfId, view, i) == Ok(parts[i]);
    }
    ConcatWindows(parts, data, chunkSize);
    SlicesRoundTrip(data, chunkSize);
  }

  /** End to end: a blob uploaded along the master's plan, with every healthy node reachable, is
      downloaded back unchanged along the healthy view of that plan. */
  lemma PlannedRoundTrip(nodes: Nodes, healthy: seq<Url>, replicationFactor: nat, pdfId: PdfId,
                         data: Bytes, chunkSize: nat)
    requires chunkSize > 0 && |healthy| > 0 && replicationFactor > 0
    requires forall url :: url in healthy ==> url in nodes
    ensures var plan := PlanChunks(healthy, NumChunks(|data|, chunkSize), replicationFactor);
            var u := SendChunks(Upload(nodes, 0, 0, false), pdfId, data, chunkSize, DistinctIndices(plan), plan);
            && !u.aborted
            && Download(u.nodes, pdfId, Some(FilteredView(PdfMetadata(pdfId, |data|, plan), healthy))) == Ok(data)
  {
    var n := NumChunks(|data|, chunkSize);
    var plan := PlanChunks(healthy, n, replicationFactor);
    PlanIndices(healthy, n, replicationFactor);
    PlanBounds(healthy, n, replicationFactor);
    var view := FilteredView(PdfMetadata(pdfId, |data|, plan), healthy);
    OnServersAll(plan, healthy);
    forall i | i in Indices(plan) ensures exists c :: c in view.chunks && c.chunkIndex == i && c.chunkserverUrl in nodes {
      var c :| c in plan && c.chunkIndex == i;
    }
    UploadThenDownload(nodes, pdfId, data, chunkSize, plan, view.chunks);
  }

  // ---------------------------------------------------------------------------------------
  // The client
  // ---------------------------------------------------------------------------------------

  class GfsClient {
    const net: ChunkNetwork
    const chunkSize: nat

    constructor (net: ChunkNetwork, chunkSize: nat)
      ensures this.net == net && this.chunkSize == chunkSize
    {
      this.net := net;
      this.chunkSize := chunkSize;
    }

    /** `uploadPdf` given the master's reply to the plan request (None: not 2xx). The buckets of
        the plan are visited in order of first appearance; every listed replica gets one write. */
    method UploadPdf(pdfId: PdfId, data: Bytes, plan: Option<seq<ChunkLocation>>)
      returns (r: Result<PdfId>, successCount: nat, failCount: nat)
      modifies net
      ensures plan.None? ==> r == Err(PlanRejected) && net.nodes == old(net.nodes) && successCount == failCount == 0
      ensures plan.Some? ==>
                var u := SendChunks(Upload(old(net.nodes), 0, 0, false), pdfId, data, chunkSize,
                                    DistinctIndices(plan.value), plan.value);
                && net.nodes == u.nodes && successCount == u.successCount && failCount == u.failCount
                && r == if u.aborted then Err(BadChunkIndex) else Ok(pdfId)
    {
      if plan.None? {
        return Err(PlanRejected), 0, 0;
      }
      var chunks := plan.value;
      var chunksByIndex := GroupByIndex(chunks);
      var order := DistinctIndices(chunks);
      successCount, failCount := 0, 0;
      var i := 0;
      while i < |order|
        invariant 0 <= i <= |order|
        invariant SendChunks(Upload(old(net.nodes), 0, 0, false), pdfId, data, chunkSize, order[..i], chunks)
                  == Upload(net.nodes, successCount, failCount, false)
      {
        var chunkIndex := order[i];
        ghost var u0 := Upload(old(net.nodes), 0, 0, false);
        SendChunksStep(u0, pdfId, data, chunkSize, order, chunks, i);
        var window := Slice(data, chunkIndex, chunkSize);
        if window.None? {
          SendChunksAbortSticks(u0, pdfId, data, chunkSize, order, chunks, i + 1);
          return Err(BadChunkIndex), successCount, failCount;
        }
        var chunkData := window.value;
        ghost var before := Upload(net.nodes, successCount, failCount, false);
        assert chunkIndex in Indices(chunks);
        var replicas := chunksByIndex[chunkIndex];
        assert replicas == ReplicasOf(chunks, chunkIndex);
        var sent, failed := SendToReplicas(ChunkKey(pdfId, chunkIndex), chunkData, replicas);
        SendReplicasShift(before, ChunkKey(pdfId, chunkIndex), chunkData, replicas);
        assert SendReplicas(before, ChunkKey(pdfId, chunkIndex), chunkData, replicas)
               == Upload(net.nodes, successCount + sent, failCount + failed, false);
        successCount, failCount := successCount + sent, failCount + failed;
        i := i + 1;
      }
      assert order[..i] == order;
      r := Ok(pdfId);
    }

    /** The inner loop of `uploadPdf` over the replicas of one bucket. */
    method SendToReplicas(key: ChunkKey, chunkData: Bytes, replicas: seq<ChunkLocation>)
      returns (sent: nat, failed: nat)
      modifies net
      ensures SendReplicas(Upload(old(net.nodes), 0, 0, false), key, chunkData, replicas) == Upload(net.nodes, sent, failed, false)
    {
      sent, failed := 0, 0;
      var j := 0;
      while j < |replicas|
        invariant 0 <= j <= |replicas|
        invariant SendReplicas(Upload(old(net.nodes), 0, 0, false), key, chunkData, replicas[..j]) == Upload(net.nodes, sent, failed, false)
      {
        assert replicas[..j + 1][..j] == replicas[..j];
        var ok := net.Write(replicas[j].chunkserverUrl, key, chunkData);
        if ok {
          sent := sent + 1;
        } else {
          failed := failed + 1;
        }
        j := j + 1;
      }
      assert replicas[..j] == replicas;
    }

    /** `downloadPdf` given the master's metadata reply (None: not 2xx). Nothing changes. */
    method DownloadPdf(pdfId: PdfId, metadata: Option<PdfMetadata>) returns (r: Result<Bytes>)
      ensures r == Download(net.nodes, pdfId, metadata)
    {
      if metadata.None? {
        return Err(PdfNotFound);
      }
      var chunks := metadata.value.chunks;
      var chunksByIndex := GroupByIndex(chunks);
      var listed := FetchChunks(pdfId, chunks, chunksByIndex);
      if listed.Err? {
        return Err(listed.error);
      }
      var output := JoinChunks(listed.value);
      r := Ok(output);
    }

    /** The loop of `downloadPdf` over the indices 0..k-1, k the number of buckets. */
    method FetchChunks(pdfId: PdfId, chunks: seq<ChunkLocation>, chunksByIndex: map<int, seq<ChunkLocation>>)
      returns (r: Result<seq<Bytes>>)
      requires IsGrouping(chunks, chunksByIndex)
      ensures r == FetchAll(net.nodes, pdfId, chunks, |Indices(chunks)|)
    {
      var count := |chunksByIndex|;
      assert count == |Indices(chunks)|;
      var chunkDataList: seq<Bytes> := [];
      var i := 0;
      while i < count
        invariant 0 <= i <= count
        invariant FetchAll(net.nodes, pdfId, chunks, i) == Ok(chunkDataList)
      {
        var chunkData := FetchIndex(pdfId, chunks, chunksByIndex, i);
        if chunkData.Err? {
          FetchAllFailsFrom(net.nodes, pdfId, chunks, i + 1, count);
          return Err(chunkData.error);
        }
        chunkDataList := chunkDataList + [chunkData.value];
        i := i + 1;
      }
      r := Ok(chunkDataList);
    }

    /** One index of `downloadPdf`: its bucket, then the replicas in order. */
    method FetchIndex(pdfId: PdfId, chunks: seq<ChunkLocation>, chunksByIndex: map<int, seq<ChunkLocation>>, i: int)
      returns (r: Result<Bytes>)
      requires IsGrouping(chunks, chunksByIndex)
      ensures r == FetchChunk(net.nodes, pdfId, chunks, i)
    {
      if i !in chunksByIndex {
        ReplicasOfAbsent(chunks, i);
        return Err(ChunkUnavailable(i));
      }
      var chunkData, attempts := ReadFromReplicas(ChunkKey(pdfId, i), chunksByIndex[i]);
      if chunkData.None? {
        return Err(ChunkUnreadable(i));
      }
      r := Ok(chunkData.value);
    }

    /** The `ByteArrayOutputStream` that joins the chunk payloads. */
    method JoinChunks(chunkDataList: seq<Bytes>) returns (output: Bytes)
      ensures output == Concat(chunkDataList)
    {
      output := [];
      var j := 0;
      while j < |chunkDataList|
        invariant 0 <= j <= |chunkDataList|
        invariant output == Concat(chunkDataList[..j])
      {
        assert chunkDataList[..j + 1][..j] == chunkDataList[..j];
        output := output + chunkDataList[j];
        j := j + 1;
      }
      assert chunkDataList[..j] == chunkDataList;
    }

    /** The fallback loop of `downloadPdf`: replicas are tried in list order until one read
        succeeds; `attempts` counts the replicas contacted, so none after the first success. */
    method ReadFromReplicas(key: ChunkKey, replicas: seq<ChunkLocation>) returns (chunkData: Option<Bytes>, attempts: nat)
      ensures match FirstReadable(net.nodes, key, replicas) {
                case None => chunkData == None && attempts == |replicas|
                case Some(j) => chunkData == Some(net.nodes[replicas[j].chunkserverUrl][key]) && attempts == j + 1
              }
    {
      chunkData := None;
      attempts := 0;
      while attempts < |replicas|
        invariant 0 <= attempts <= |replicas|
        invariant forall j :: 0 <= j < attempts ==> !ChunkExists(net.nodes, replicas[j].chunkserverUrl, key)
      {
        var read := ReadChunk(net.nodes, replicas[attempts].chunkserverUrl, key);
        attempts := attempts + 1;
        if read.Some? {
          chunkData := read;
          return;
        }
      }
    }
  }
}
