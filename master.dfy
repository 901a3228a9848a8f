/** The master (MasterService.java): blob metadata, chunkserver membership and health, and the
    placement of the chunks of a new upload. */
module Master {
  import opened Common
  import opened Locations

  /** A chunkserver is healthy while its last heartbeat is less than 30 s old. */
  const HEARTBEAT_TIMEOUT: int := 30000

  /** What the master knows about one chunkserver (the inner class ChunkserverInfo). */
  datatype ChunkserverInfo = ChunkserverInfo(url: Url, id: string, lastHeartbeat: int,
                                             lastInventory: map<PdfId, seq<int>>)
  {
    predicate IsHealthy(currentTime: int) {
      currentTime - lastHeartbeat < HEARTBEAT_TIMEOUT
    }

    /** `updateHeartbeat`: refreshes the clock and stores the reported inventory verbatim. */
    function UpdateHeartbeat(now: int, inventory: map<PdfId, seq<int>>): ChunkserverInfo {
      this.(lastHeartbeat := now, lastInventory := inventory)
    }
  }

  /** The servers of `order` that are registered and healthy at `now`, in `order`'s order
      (the loop of `getHealthyChunkservers`). */
  function HealthyAmong(order: seq<Url>, servers: map<Url, ChunkserverInfo>, now: int): (r: seq<Url>)
    ensures forall u {:trigger u in r} ::
              u in r <==> u in order && u in servers && now - servers[u].lastHeartbeat < HEARTBEAT_TIMEOUT
    ensures Distinct(order) ==> Distinct(r)
    ensures |r| <= |order|
  {
    if order == [] then []
    else
      var init := order[..|order| - 1];
      var last := order[|order| - 1];
      assert order == init + [last];
      var rest := HealthyAmong(init, servers, now);
      assert Distinct(order) ==> last !in rest;
      rest + (if last in servers && servers[last].IsHealthy(now) then [last] else [])
  }

  /** The registry after a heartbeat or registration of `url`: the first-registered id is kept,
      the clock is refreshed, and the inventory is replaced by `inventory`. */
  function Upsert(servers: map<Url, ChunkserverInfo>, url: Url, id: string,
                  inventory: map<PdfId, seq<int>>, now: int): (r: map<Url, ChunkserverInfo>)
    ensures r.Keys == servers.Keys + {url}
    ensures forall u :: u in servers && u != url ==> r[u] == servers[u]
    ensures r[url].url == (if url in servers then servers[url].url else url)
    ensures r[url].id == (if url in servers then servers[url].id else id)
    ensures r[url].lastHeartbeat == now && r[url].lastInventory == inventory
  {
    var info := if url in servers then servers[url] else ChunkserverInfo(url, id, now, map[]);
    servers[url := info.UpdateHeartbeat(now, inventory)]
  }

  /** A server that has just sent a heartbeat is healthy for the next 30 s, and the health of
      every other server is unaffected. */
  lemma HeartbeatMakesHealthy(order: seq<Url>, servers: map<Url, ChunkserverInfo>, url: Url, id: string,
                              inventory: map<PdfId, seq<int>>, now: int, later: int)
    requires url in order
    requires now <= later < now + HEARTBEAT_TIMEOUT
    ensures url in HealthyAmong(order, Upsert(servers, url, id, inventory, now), later)
    ensures forall u :: u != url ==>
              (u in HealthyAmong(order, Upsert(servers, url, id, inventory, now), later)
               <==> u in HealthyAmong(order, servers, later))
  {
  }

  /** The number of chunks of a blob of `size` bytes: the integer ceiling of `size / chunkSize`,
      and none for a size of zero or less (the `Math.ceil` of planUpload on the exact quotient). */
  function NumChunks(size: int, chunkSize: nat): nat
    requires chunkSize > 0
  {
    if size <= 0 then 0 else (size + chunkSize - 1) / chunkSize
  }

  /** `NumChunks` is the least number of `chunkSize` pieces that covers `size` bytes. */
  lemma NumChunksBounds(size: int, chunkSize: nat)
    requires chunkSize > 0
    ensures size <= 0 ==> NumChunks(size, chunkSize) == 0
    ensures size > 0 ==> (NumChunks(size, chunkSize) - 1) * chunkSize < size <= NumChunks(size, chunkSize) * chunkSize
  {
    if size > 0 {
      var q := (size + chunkSize - 1) / chunkSize;
      var rem := (size + chunkSize - 1) % chunkSize;
      assert size + chunkSize - 1 == q * chunkSize + rem;
      assert (q - 1) * chunkSize == q * chunkSize - chunkSize;
    }
  }

  /** `Collections.rotate(list, distance)`: the element at position i moves to (i + distance) mod n. */
  function Rotate<T>(s: seq<T>, distance: int): (r: seq<T>)
    ensures |r| == |s|
    ensures forall j :: 0 <= j < |s| ==> r[j] == s[(j - distance) % |s|]
  {
    if |s| == 0 then s
    else
      var n := |s|;
      var d := distance % n;
      var r := s[n - d..] + s[..n - d];
      assert distance == (distance / n) * n + d;
      forall j | 0 <= j < n ensures r[j] == s[(j - distance) % n] {
        if j < d {
          assert (-(distance / n) - 1) * n == -((distance / n) * n) - n;
          ModUnique(j - distance, n, -(distance / n) - 1, j - d + n);
        } else {
          assert (-(distance / n)) * n == -((distance / n) * n);
          ModUnique(j - distance, n, -(distance / n), j - d);
        }
      }
      r
  }

  /** The first `k` elements of `s` rotated by `distance`, element by element. */
  function RotatedPrefix(s: seq<Url>, distance: int, k: nat): (r: seq<Url>)
    requires k <= |s|
    ensures |r| == k
  {
    if k == 0 then [] else RotatedPrefix(s, distance, k - 1) + [s[(k - 1 - distance) % |s|]]
  }

  /** Position j of the rotated prefix holds element (j - distance) mod n. */
  lemma {:induction false} RotatedPrefixAt(s: seq<Url>, distance: int, k: nat)
    requires k <= |s|
    ensures forall j :: 0 <= j < k ==> RotatedPrefix(s, distance, k)[j] == s[(j - distance) % |s|]
  {
    if k > 0 {
      RotatedPrefixAt(s, distance, k - 1);
    }
  }

  /** The element-wise description agrees with taking a prefix of `Collections.rotate`. */
  lemma RotatedPrefixIsRotation(s: seq<Url>, distance: int, k: nat)
    requires k <= |s|
    ensures RotatedPrefix(s, distance, k) == Rotate(s, distance)[..k]
  {
    RotatedPrefixAt(s, distance, k);
  }

  /** The servers chosen for chunk `chunkIndex`: the first min(RF, n) of the healthy list rotated by
      the chunk index. */
  function SelectedServers(availableServers: seq<Url>, chunkIndex: int, replicationFactor: nat)
    : (selected: seq<Url>)
    ensures |selected| == Min(replicationFactor, |availableServers|)
  {
    RotatedPrefix(availableServers, chunkIndex, Min(replicationFactor, |availableServers|))
  }

  /** Replica k of chunk `chunkIndex` goes to healthy server (k - chunkIndex) mod n. */
  lemma SelectedServersAt(availableServers: seq<Url>, chunkIndex: int, replicationFactor: nat)
    ensures var selected := SelectedServers(availableServers, chunkIndex, replicationFactor);
            forall k :: 0 <= k < |selected| ==> selected[k] == availableServers[(k - chunkIndex) % |availableServers|]
  {
    RotatedPrefixAt(availableServers, chunkIndex, Min(replicationFactor, |availableServers|));
  }

  /** The replicas of one chunk are on distinct servers, all of them healthy. */
  lemma SelectedServersDistinct(availableServers: seq<Url>, chunkIndex: int, replicationFactor: nat)
    requires Distinct(availableServers)
    ensures Distinct(SelectedServers(availableServers, chunkIndex, replicationFactor))
    ensures forall u :: u in SelectedServers(availableServers, chunkIndex, replicationFactor)
                        ==> u in availableServers
  {
    var sel := SelectedServers(availableServers, chunkIndex, replicationFactor);
    var n := |availableServers|;
    SelectedServersAt(availableServers, chunkIndex, replicationFactor);
    forall i, j | 0 <= i < j < |sel| ensures sel[i] != sel[j] {
      ModInjective(i - chunkIndex, j - chunkIndex, n);
    }
  }

  /** The choice depends only on the chunk index modulo the number of healthy servers. */
  lemma SelectionPeriodic(availableServers: seq<Url>, i: int, j: int, replicationFactor: nat)
    requires |availableServers| > 0 && i % |availableServers| == j % |availableServers|
    ensures SelectedServers(availableServers, i, replicationFactor)
            == SelectedServers(availableServers, j, replicationFactor)
  {
    var si := SelectedServers(availableServers, i, replicationFactor);
    var sj := SelectedServers(availableServers, j, replicationFactor);
    SelectedServersAt(availableServers, i, replicationFactor);
    SelectedServersAt(availableServers, j, replicationFactor);
    forall k | 0 <= k < |si| ensures si[k] == sj[k] {
      ModShiftCongruent(k, i, j, |availableServers|);
    }
  }

  /** Replica r of chunk i on server `selected[r]`. */
  function Placements(i: int, selected: seq<Url>): (r: seq<ChunkLocation>)
    ensures |r| == |selected|
    ensures forall c {:trigger c in r} :: c in r ==> c.chunkIndex == i
  {
    seq(|selected|, r requires 0 <= r < |selected| => ChunkLocation(i, selected[r], r))
  }

  /** Position k of the placements of chunk i is replica k on the k-th selected server. */
  lemma PlacementsAt(i: int, selected: seq<Url>)
    ensures forall k :: 0 <= k < |selected| ==> Placements(i, selected)[k] == ChunkLocation(i, selected[k], k)
  {
  }

  /** Placing one more server extends the placements by one location. */
  lemma PlacementsSnoc(i: int, selected: seq<Url>, k: nat)
    requires k < |selected|
    ensures Placements(i, selected[..k + 1]) == Placements(i, selected[..k]) + [ChunkLocation(i, selected[k], k)]
  {
    var a, b := Placements(i, selected[..k + 1]), Placements(i, selected[..k]) + [ChunkLocation(i, selected[k], k)];
    PlacementsAt(i, selected[..k + 1]);
    PlacementsAt(i, selected[..k]);
    assert |a| == |b|;
    forall j | 0 <= j < |a| ensures a[j] == b[j] {
    }
  }

  /** The locations `planUpload` creates for chunk `i`. */
  function ChunkPlan(healthy: seq<Url>, i: int, replicationFactor: nat): seq<ChunkLocation> {
    Placements(i, SelectedServers(healthy, i, replicationFactor))
  }

  /** The per-chunk plans for chunks 0..n-1. */
  function ChunkPlans(healthy: seq<Url>, n: nat, replicationFactor: nat): (plans: seq<seq<ChunkLocation>>)
    ensures |plans| == n
    ensures forall i, c :: 0 <= i < n && c in plans[i] ==> c.chunkIndex == i
  {
    seq(n, i requires 0 <= i < n => ChunkPlan(healthy, i, replicationFactor))
  }

  /** The location list `planUpload` builds for chunks 0..n-1: their plans, one after the other. */
  function PlanChunks(healthy: seq<Url>, n: nat, replicationFactor: nat): seq<ChunkLocation> {
    Flatten(ChunkPlans(healthy, n, replicationFactor))
  }

  /** Planning one more chunk appends that chunk's plan. */
  lemma PlanChunksSnoc(healthy: seq<Url>, n: nat, replicationFactor: nat)
    ensures PlanChunks(healthy, n + 1, replicationFactor)
            == PlanChunks(healthy, n, replicationFactor) + ChunkPlan(healthy, n, replicationFactor)
  {
    assert ChunkPlans(healthy, n + 1, replicationFactor)[..n] == ChunkPlans(healthy, n, replicationFactor);
  }

  /** In the plan for n chunks, chunk i (0 <= i < n) has exactly the locations `ChunkPlan` gives it,
      and no other index occurs. */
  lemma PlanBuckets(healthy: seq<Url>, n: nat, replicationFactor: nat, idx: int)
    ensures ReplicasOf(PlanChunks(healthy, n, replicationFactor), idx)
            == if 0 <= idx < n then ChunkPlan(healthy, idx, replicationFactor) else []
  {
    FlattenBuckets(ChunkPlans(healthy, n, replicationFactor), idx);
  }

  /** The properties of a placement plan: with R = min(RF, |healthy|), every chunk index 0..n-1 has
      exactly R locations, the k-th with replica index k on server healthy[(k - i) mod |healthy|],
      all on distinct healthy servers; and no other index occurs. */
  lemma PlanShape(healthy: seq<Url>, n: nat, replicationFactor: nat, i: int)
    requires Distinct(healthy) && |healthy| > 0
    ensures var bucket := ReplicasOf(PlanChunks(healthy, n, replicationFactor), i);
            && (0 <= i < n ==> |bucket| == Min(replicationFactor, |healthy|))
            && (!(0 <= i < n) ==> bucket == [])
            && (forall k :: 0 <= k < |bucket| ==>
                  bucket[k] == ChunkLocation(i, healthy[(k - i) % |healthy|], k))
            && (forall k, l :: 0 <= k < l < |bucket| ==> bucket[k].chunkserverUrl != bucket[l].chunkserverUrl)
  {
    PlanBuckets(healthy, n, replicationFactor, i);
    PlacementsAt(i, SelectedServers(healthy, i, replicationFactor));
    SelectedServersAt(healthy, i, replicationFactor);
    SelectedServersDistinct(healthy, i, replicationFactor);
  }

  /** With at least one replica per chunk, the plan covers exactly the indices 0..n-1. */
  lemma PlanIndices(healthy: seq<Url>, n: nat, replicationFactor: nat)
    requires |healthy| > 0 && replicationFactor > 0
    ensures forall i :: i in Indices(PlanChunks(healthy, n, replicationFactor)) <==> 0 <= i < n
  {
    var plan := PlanChunks(healthy, n, replicationFactor);
    forall i | 0 <= i < n ensures i in Indices(plan) {
      PlanBuckets(healthy, n, replicationFactor, i);
      ReplicasOfMembers(plan, i);
      var c := ReplicasOf(plan, i)[0];
      assert c in ReplicasOf(plan, i);
    }
    forall i | i in Indices(plan) ensures 0 <= i < n {
      var c :| c in plan && c.chunkIndex == i;
      PlanBuckets(healthy, n, replicationFactor, i);
      ReplicasOfMembers(plan, i);
      assert c in ReplicasOf(plan, i);
    }
  }

  /** Every planned location is on a healthy server, for a chunk 0..n-1, with a replica index below
      min(RF, |healthy|); the plan has n * min(RF, |healthy|) locations. */
  lemma {:induction false} PlanBounds(healthy: seq<Url>, n: nat, replicationFactor: nat)
    ensures var plan := PlanChunks(healthy, n, replicationFactor);
            && |plan| == n * Min(replicationFactor, |healthy|)
            && forall c :: c in plan ==>
                 && c.chunkserverUrl in healthy
                 && 0 <= c.chunkIndex < n
                 && 0 <= c.replicaIndex < Min(replicationFactor, |healthy|)
  {
    if n > 0 {
      PlanBounds(healthy, n - 1, replicationFactor);
      PlanChunksSnoc(healthy, n - 1, replicationFactor);
      var m := Min(replicationFactor, |healthy|);
      assert n * m == (n - 1) * m + m;
      var last := ChunkPlan(healthy, n - 1, replicationFactor);
      var sel := SelectedServers(healthy, n - 1, replicationFactor);
      SelectedServersAt(healthy, n - 1, replicationFactor);
      PlacementsAt(n - 1, sel);
      forall c | c in last
        ensures c.chunkserverUrl in healthy && c.chunkIndex == n - 1 && 0 <= c.replicaIndex < m
      {
        var k :| 0 <= k < |last| && last[k] == c;
        assert sel[k] == healthy[(k - (n - 1)) % |healthy|];
      }
    }
  }

  /** The metadata view `getMetadata` returns: same id and size, only the locations on healthy
      servers (in their original order, as `OnServersAppend` states). */
  function FilteredView(metadata: PdfMetadata, healthy: seq<Url>): (r: PdfMetadata)
    ensures r.pdfId == metadata.pdfId && r.size == metadata.size
    ensures forall c :: c in r.chunks <==> c in metadata.chunks && c.chunkserverUrl in healthy
  {
    OnServersMembers(metadata.chunks, healthy);
    PdfMetadata(metadata.pdfId, metadata.size, OnServers(metadata.chunks, healthy))
  }

  /** The store after the assumed `addChunkReplica`: the location appended to the blob's list;
      an unknown blob is left out. */
  function WithReplica(store: map<PdfId, PdfMetadata>, pdfId: PdfId, location: ChunkLocation)
    : (r: map<PdfId, PdfMetadata>)
    ensures r.Keys == store.Keys
    ensures forall p :: p in store && p != pdfId ==> r[p] == store[p]
    ensures pdfId in store ==> r[pdfId] == store[pdfId].(chunks := store[pdfId].chunks + [location])
  {
    if pdfId in store then store[pdfId := store[pdfId].(chunks := store[pdfId].chunks + [location])] else store
  }

  /** The store after the assumed `removeChunkReplica`: every location of (chunkIndex, url) dropped
      from the blob's list; an unknown blob is left out. */
  function WithoutReplica(store: map<PdfId, PdfMetadata>, pdfId: PdfId, chunkIndex: int, url: Url)
    : (r: map<PdfId, PdfMetadata>)
    ensures r.Keys == store.Keys
    ensures forall p :: p in store && p != pdfId ==> r[p] == store[p]
    ensures pdfId in store ==> r[pdfId] == store[pdfId].(chunks := RemoveMatching(store[pdfId].chunks, chunkIndex, url))
  {
    if pdfId in store then store[pdfId := store[pdfId].(chunks := RemoveMatching(store[pdfId].chunks, chunkIndex, url))]
    else store
  }

  /** The figures of `getSystemStatus`. */
  datatype SystemStatus = SystemStatus(
    totalChunkservers: nat, healthyChunkservers: nat, unhealthyChunkservers: int,
    totalPdfs: nat, chunkSize: nat, replicationFactor: nat, healthyServers: seq<Url>,
    totalChunks: nat, totalReplicas: nat)

  /** The number of locations over the blobs of `order`. */
  function TotalReplicas(order: seq<PdfId>, store: map<PdfId, PdfMetadata>): nat {
    if order == [] then 0
    else
      var last := order[|order| - 1];
      TotalReplicas(order[..|order| - 1], store) + (if last in store then |store[last].chunks| else 0)
  }

  /** The number of distinct (blob, chunk index) pairs over the blobs of `order`; never more than
      the number of locations. */
  function TotalChunks(order: seq<PdfId>, store: map<PdfId, PdfMetadata>): (r: nat)
    ensures r <= TotalReplicas(order, store)
  {
    if order == [] then 0
    else
      var last := order[|order| - 1];
      var here := if last in store then IndicesBound(store[last].chunks); |Indices(store[last].chunks)| else 0;
      TotalChunks(order[..|order| - 1], store) + here
  }

  class MasterService {
    const chunkSize: nat
    const replicationFactor: nat
    /** pdfId -> metadata. */
    var pdfMetadataStore: map<PdfId, PdfMetadata>
    /** The order in which the store yields its values (`listAllPdfs`). */
    var pdfOrder: seq<PdfId>
    /** url -> chunkserver record. */
    var chunkservers: map<Url, ChunkserverInfo>
    /** The order in which the registry yields its values. */
    var serverOrder: seq<Url>

    ghost predicate Valid()
      reads this
    {
      && chunkSize > 0
      && Distinct(pdfOrder)
      && (forall p :: p in pdfOrder <==> p in pdfMetadataStore)
      && (forall p :: p in pdfMetadataStore ==> pdfMetadataStore[p].pdfId == p)
      && Distinct(serverOrder)
      && (forall u :: u in serverOrder <==> u in chunkservers)
      && (forall u :: u in chunkservers ==> chunkservers[u].url == u)
    }

    /** A master with no blobs and no chunkservers (metadata loading from disk is not modelled). */
    constructor (chunkSize: nat, replicationFactor: nat)
      requires chunkSize > 0
      ensures Valid()
      ensures this.chunkSize == chunkSize && this.replicationFactor == replicationFactor
      ensures pdfMetadataStore == map[] && chunkservers == map[]
    {
      this.chunkSize := chunkSize;
      this.replicationFactor := replicationFactor;
      pdfMetadataStore := map[];
      pdfOrder := [];
      chunkservers := map[];
      serverOrder := [];
    }

    /** The healthy servers at `now`, in registry order. */
    function Healthy(now: int): seq<Url>
      reads this
    {
      HealthyAmong(serverOrder, chunkservers, now)
    }

    /** `getHealthyChunkservers`: exactly the registered servers whose last heartbeat is recent,
        each once, in registry order. */
    method GetHealthyChunkservers(now: int) returns (healthy: seq<Url>)
      requires Valid()
      ensures healthy == Healthy(now)
      ensures Distinct(healthy)
      ensures forall u :: u in healthy <==> u in chunkservers && chunkservers[u].IsHealthy(now)
    {
      healthy := [];
      var n := 0;
      while n < |serverOrder|
        invariant 0 <= n <= |serverOrder|
        invariant healthy == HealthyAmong(serverOrder[..n], chunkservers, now)
      {
        assert serverOrder[..n + 1][..n] == serverOrder[..n];
        var info := chunkservers[serverOrder[n]];
        if info.IsHealthy(now) {
          healthy := healthy + [info.url];
        }
        n := n + 1;
      }
      assert serverOrder[..n] == serverOrder;
    }

    /** `getAllChunkservers`, which IntegrityMonitor.java calls but the shown MasterService.java does
        not define. Assumed: every registered URL, once. */
    function GetAllChunkservers(): (all: seq<Url>)
      reads this
      requires Valid()
      ensures Distinct(all) && forall u :: u in all <==> u in chunkservers
    {
      serverOrder
    }

    /** `listAllPdfs`: every stored metadata record, once. */
    function ListAllPdfs(): (all: seq<PdfMetadata>)
      reads this
      requires Valid()
      ensures |all| == |pdfMetadataStore|
      ensures forall m: PdfMetadata :: m in all <==> m.pdfId in pdfMetadataStore && pdfMetadataStore[m.pdfId] == m
      ensures forall i, j :: 0 <= i < j < |all| ==> all[i].pdfId != all[j].pdfId
    {
      DistinctCardinality(pdfOrder);
      assert (set p | p in pdfOrder) == pdfMetadataStore.Keys;
      var all := seq(|pdfOrder|, i requires 0 <= i < |pdfOrder| && pdfOrder[i] in pdfMetadataStore reads this =>
                         pdfMetadataStore[pdfOrder[i]]);
      assert forall m: PdfMetadata :: m.pdfId in pdfMetadataStore && pdfMetadataStore[m.pdfId] == m ==> m in all by {
        forall m: PdfMetadata | m.pdfId in pdfMetadataStore && pdfMetadataStore[m.pdfId] == m ensures m in all {
          var i :| 0 <= i < |pdfOrder| && pdfOrder[i] == m.pdfId;
          assert all[i] == m;
        }
      }
      all
    }

    /** `getChunkserverInventory`: the inventory last reported by `url`, empty for an unknown server. */
    function GetChunkserverInventory(url: Url): (inventory: map<PdfId, seq<int>>)
      reads this
      ensures url !in chunkservers ==> inventory == map[]
      ensures url in chunkservers ==> inventory == chunkservers[url].lastInventory
    {
      if url in chunkservers then chunkservers[url].lastInventory else map[]
    }

    /** `selectServersForChunk`: copies the first min(RF, n) entries of the rotated healthy list. */
    method SelectServersForChunk(availableServers: seq<Url>, chunkIndex: int) returns (selected: seq<Url>)
      ensures selected == SelectedServers(availableServers, chunkIndex, replicationFactor)
    {
      selected := [];
      var shuffled := Rotate(availableServers, chunkIndex);
      var numReplicas := Min(replicationFactor, |shuffled|);
      var i := 0;
      while i < numReplicas
        invariant 0 <= i <= numReplicas
        invariant selected == RotatedPrefix(availableServers, chunkIndex, i)
      {
        assert shuffled[i] == availableServers[(i - chunkIndex) % |availableServers|];
        selected := selected + [shuffled[i]];
        i := i + 1;
      }
    }

    /** The distribution loop of `planUpload`: for chunk i = 0..numChunks-1, replica r on the r-th
        server chosen for i. */
    method PlaceChunks(healthyServers: seq<Url>, numChunks: nat) returns (chunks: seq<ChunkLocation>)
      ensures chunks == PlanChunks(healthyServers, numChunks, replicationFactor)
    {
      chunks := [];
      var i := 0;
      while i < numChunks
        invariant 0 <= i <= numChunks
        invariant chunks == PlanChunks(healthyServers, i, replicationFactor)
      {
        var selectedServers := SelectServersForChunk(healthyServers, i);
        ghost var before := chunks;
        var k := 0;
        while k < |selectedServers|
          invariant 0 <= k <= |selectedServers|
          invariant chunks == before + Placements(i, selectedServers[..k])
        {
          PlacementsSnoc(i, selectedServers, k);
          chunks := chunks + [ChunkLocation(i, selectedServers[k], k)];
          k := k + 1;
        }
        assert selectedServers[..k] == selectedServers;
        PlanChunksSnoc(healthyServers, i, replicationFactor);
        i := i + 1;
      }
    }

    /** `planUpload`: fails and stores nothing without healthy servers; otherwise places chunks
        0..ceil(size/CHUNK_SIZE)-1 by rotation and stores the plan under `pdfId`, replacing any
        previous entry and leaving the others alone. */
    method PlanUpload(pdfId: PdfId, size: int, now: int) returns (r: Result<PdfMetadata>)
      requires Valid()
      modifies this
      ensures Valid()
      ensures chunkservers == old(chunkservers) && serverOrder == old(serverOrder)
      ensures var healthy := HealthyAmong(old(serverOrder), old(chunkservers), now);
              if healthy == [] then
                r == Err(NoChunkservers) && pdfMetadataStore == old(pdfMetadataStore) && pdfOrder == old(pdfOrder)
              else
                && r.Ok?
                && r.value == PdfMetadata(pdfId, size,
                                          PlanChunks(healthy, NumChunks(size, chunkSize), replicationFactor))
                && pdfMetadataStore == old(pdfMetadataStore)[pdfId := r.value]
                && pdfOrder == if pdfId in old(pdfOrder) then old(pdfOrder) else old(pdfOrder) + [pdfId]
    {
      var healthyServers := GetHealthyChunkservers(now);
      if healthyServers == [] {
        return Err(NoChunkservers);
      }
      var numChunks := NumChunks(size, chunkSize);
      var chunks := PlaceChunks(healthyServers, numChunks);
      var metadata := PdfMetadata(pdfId, size, chunks);
      if pdfId !in pdfMetadataStore {
        pdfOrder := pdfOrder + [pdfId];
      }
      pdfMetadataStore := pdfMetadataStore[pdfId := metadata];
      r := Ok(metadata);
    }

    /** `getMetadata`: fails for an unknown id, otherwise a fresh view restricted to healthy servers;
        the store itself is not touched. */
    method GetMetadata(pdfId: PdfId, now: int) returns (r: Result<PdfMetadata>)
      requires Valid()
      ensures pdfId !in pdfMetadataStore <==> r == Err(PdfNotFound)
      ensures pdfId in pdfMetadataStore ==> r == Ok(FilteredView(pdfMetadataStore[pdfId], Healthy(now)))
    {
      if pdfId !in pdfMetadataStore {
        return Err(PdfNotFound);
      }
      var metadata := pdfMetadataStore[pdfId];
      var healthyServers := GetHealthyChunkservers(now);
      var chunks: seq<ChunkLocation> := [];
      var j := 0;
      while j < |metadata.chunks|
        invariant 0 <= j <= |metadata.chunks|
        invariant chunks == OnServers(metadata.chunks[..j], healthyServers)
      {
        assert metadata.chunks[..j + 1][..j] == metadata.chunks[..j];
        var chunk := metadata.chunks[j];
        if chunk.chunkserverUrl in healthyServers {
          chunks := chunks + [chunk];
        }
        j := j + 1;
      }
      assert metadata.chunks[..j] == metadata.chunks;
      r := Ok(PdfMetadata(metadata.pdfId, metadata.size, chunks));
    }

    /** `processHeartbeat`: upsert by URL, keeping the first-registered id, refreshing the clock and
        storing the reported inventory verbatim. */
    method ProcessHeartbeat(url: Url, chunkserverId: string, inventory: map<PdfId, seq<int>>, now: int)
      requires Valid()
      modifies this
      ensures Valid()
      ensures chunkservers == Upsert(old(chunkservers), url, chunkserverId, inventory, now)
      ensures serverOrder == if url in old(serverOrder) then old(serverOrder) else old(serverOrder) + [url]
      ensures pdfMetadataStore == old(pdfMetadataStore) && pdfOrder == old(pdfOrder)
    {
      if url !in chunkservers {
        serverOrder := serverOrder + [url];
      }
      chunkservers := Upsert(chunkservers, url, chunkserverId, inventory, now);
    }

    /** `registerChunkserver`: the same upsert with an empty inventory. */
    method RegisterChunkserver(url: Url, id: string, now: int)
      requires Valid()
      modifies this
      ensures Valid()
      ensures chunkservers == Upsert(old(chunkservers), url, id, map[], now)
      ensures serverOrder == if url in old(serverOrder) then old(serverOrder) else old(serverOrder) + [url]
      ensures pdfMetadataStore == old(pdfMetadataStore) && pdfOrder == old(pdfOrder)
    {
      if url !in chunkservers {
        serverOrder := serverOrder + [url];
      }
      chunkservers := Upsert(chunkservers, url, id, map[], now);
    }

    /** `updateChunkLocation`: moves only the first location of (chunkIndex, oldServerUrl) to the
        new server; a no-op for an unknown blob or when nothing matches. */
    method UpdateChunkLocation(pdfId: PdfId, chunkIndex: int, oldServerUrl: Url, newServerUrl: Url)
      requires Valid()
      modifies this
      ensures Valid()
      ensures chunkservers == old(chunkservers) && serverOrder == old(serverOrder) && pdfOrder == old(pdfOrder)
      ensures pdfId !in old(pdfMetadataStore) ==> pdfMetadataStore == old(pdfMetadataStore)
      ensures pdfId in old(pdfMetadataStore) ==>
                var md := old(pdfMetadataStore)[pdfId];
                match IndexOfReplica(md.chunks, chunkIndex, oldServerUrl)
                case None => pdfMetadataStore == old(pdfMetadataStore)
                case Some(k) =>
                  pdfMetadataStore == old(pdfMetadataStore)[pdfId := md.(chunks :=
                    md.chunks[k := md.chunks[k].(chunkserverUrl := newServerUrl)])]
    {
      if pdfId !in pdfMetadataStore {
        return;
      }
      var metadata := pdfMetadataStore[pdfId];
      var j := 0;
      while j < |metadata.chunks|
        invariant 0 <= j <= |metadata.chunks|
        invariant forall l :: 0 <= l < j ==> !Matches(metadata.chunks[l], chunkIndex, oldServerUrl)
        invariant pdfMetadataStore == old(pdfMetadataStore)
      {
        var chunk := metadata.chunks[j];
        if chunk.chunkIndex == chunkIndex && chunk.chunkserverUrl == oldServerUrl {
          var chunks := metadata.chunks[j := chunk.(chunkserverUrl := newServerUrl)];
          pdfMetadataStore := pdfMetadataStore[pdfId := metadata.(chunks := chunks)];
          return;
        }
        j := j + 1;
      }
    }

    /** The healthy servers are among the registered ones, and there is one blob per id in the order. */
    lemma RegistryCounts(now: int)
      requires Valid()
      ensures |Healthy(now)| <= |chunkservers| == |serverOrder|
      ensures |pdfMetadataStore| == |pdfOrder|
    {
      DistinctCardinality(serverOrder);
      DistinctCardinality(pdfOrder);
      assert (set u | u in serverOrder) == chunkservers.Keys;
      assert (set p | p in pdfOrder) == pdfMetadataStore.Keys;
    }

    /** The inner loop of `getSystemStatus`: the distinct chunk indices of one blob and its number
        of locations. */
    method CountChunks(chunks: seq<ChunkLocation>) returns (uniqueChunks: set<int>, replicas: nat)
      ensures uniqueChunks == Indices(chunks) && replicas == |chunks|
    {
      uniqueChunks := {};
      replicas := 0;
      var j := 0;
      while j < |chunks|
        invariant 0 <= j <= |chunks|
        invariant uniqueChunks == Indices(chunks[..j])
        invariant replicas == j
      {
        IndicesSnoc(chunks[..j], chunks[j]);
        assert chunks[..j + 1] == chunks[..j] + [chunks[j]];
        uniqueChunks := uniqueChunks + {chunks[j].chunkIndex};
        replicas := replicas + 1;
        j := j + 1;
      }
      assert chunks[..j] == chunks;
    }

    /** `getSystemStatus`: counts over the registry and the store. */
    method GetSystemStatus(now: int) returns (status: SystemStatus)
      requires Valid()
      ensures status.totalChunkservers == |chunkservers| && status.totalPdfs == |pdfMetadataStore|
      ensures status.healthyServers == Healthy(now) && status.healthyChunkservers == |Healthy(now)|
      ensures status.healthyChunkservers + status.unhealthyChunkservers == status.totalChunkservers
      ensures 0 <= status.unhealthyChunkservers
      ensures status.chunkSize == chunkSize && status.replicationFactor == replicationFactor
      ensures status.totalReplicas == TotalReplicas(pdfOrder, pdfMetadataStore)
      ensures status.totalChunks == TotalChunks(pdfOrder, pdfMetadataStore)
      ensures status.totalChunks <= status.totalReplicas
    {
      var healthy := GetHealthyChunkservers(now);
      RegistryCounts(now);
      var totalChunks := 0;
      var totalReplicas := 0;
      var n := 0;
      while n < |pdfOrder|
        invariant 0 <= n <= |pdfOrder|
        invariant totalChunks == TotalChunks(pdfOrder[..n], pdfMetadataStore)
        invariant totalReplicas == TotalReplicas(pdfOrder[..n], pdfMetadataStore)
      {
        assert pdfOrder[..n + 1][..n] == pdfOrder[..n];
        var uniqueChunks, replicas := CountChunks(pdfMetadataStore[pdfOrder[n]].chunks);
        totalChunks := totalChunks + |uniqueChunks|;
        totalReplicas := totalReplicas + replicas;
        n := n + 1;
      }
      assert pdfOrder[..n] == pdfOrder;
      status := SystemStatus(|chunkservers|, |healthy|, |chunkservers| - |healthy|, |pdfMetadataStore|,
                             chunkSize, replicationFactor, healthy, totalChunks, totalReplicas);
    }

    /** `deletePdf`: removes only the entry of `pdfId`. */
    method DeletePdf(pdfId: PdfId)
      requires Valid()
      modifies this
      ensures Valid()
      ensures pdfMetadataStore == old(pdfMetadataStore) - {pdfId}
      ensures pdfOrder == Without(old(pdfOrder), pdfId)
      ensures chunkservers == old(chunkservers) && serverOrder == old(serverOrder)
    {
      pdfMetadataStore := pdfMetadataStore - {pdfId};
      pdfOrder := Without(pdfOrder, pdfId);
    }

    /** `addChunkReplica`, which IntegrityMonitor.java calls but the shown MasterService.java does
        not define. Assumed: appends the location to the blob's list; a no-op for an unknown blob. */
    method AddChunkReplica(pdfId: PdfId, location: ChunkLocation)
      requires Valid()
      modifies this
      ensures Valid()
      ensures pdfMetadataStore == WithReplica(old(pdfMetadataStore), pdfId, location)
      ensures pdfOrder == old(pdfOrder) && chunkservers == old(chunkservers) && serverOrder == old(serverOrder)
    {
      pdfMetadataStore := WithReplica(pdfMetadataStore, pdfId, location);
    }

    /** `removeChunkReplica`, which IntegrityMonitor.java calls but the shown MasterService.java does
        not define. Assumed: removes every location of (chunkIndex, url) from the blob's list. */
    method RemoveChunkReplica(pdfId: PdfId, chunkIndex: int, url: Url)
      requires Valid()
      modifies this
      ensures Valid()
      ensures pdfMetadataStore == WithoutReplica(old(pdfMetadataStore), pdfId, chunkIndex, url)
      ensures pdfOrder == old(pdfOrder) && chunkservers == old(chunkservers) && serverOrder == old(serverOrder)
    {
      pdfMetadataStore := WithoutReplica(pdfMetadataStore, pdfId, chunkIndex, url);
    }
  }
}
