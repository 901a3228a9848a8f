/** The storage fleet as the master and the client see it over HTTP: every reachable node
    holds a map from chunk key to payload. A URL that is not a key of the map names a node that
    does not answer, so every call to it fails; that is the only source of failure in the model. */
module Network {
  import opened Common

  type NodeStore = map<ChunkKey, Bytes>
  type Nodes = map<Url, NodeStore>

  /** GET /api/chunk/exists: false for an absent chunk and for an unreachable node. */
  predicate ChunkExists(nodes: Nodes, url: Url, key: ChunkKey) {
    url in nodes && key in nodes[url]
  }

  /** GET /api/chunk/read: fails (404 or no answer) unless the chunk is present. */
  function ReadChunk(nodes: Nodes, url: Url, key: ChunkKey): (r: Option<Bytes>)
    ensures r.Some? <==> ChunkExists(nodes, url, key)
  {
    if ChunkExists(nodes, url, key) then Some(nodes[url][key]) else None
  }

  /** POST /api/chunk/write: stores (or overwrites) the chunk on a reachable node. */
  function WriteChunk(nodes: Nodes, url: Url, key: ChunkKey, data: Bytes): Nodes {
    if url in nodes then nodes[url := nodes[url][key := data]] else nodes
  }

  /** DELETE /api/chunk/delete: removes the chunk if present; deleting an absent chunk succeeds. */
  function DeleteChunk(nodes: Nodes, url: Url, key: ChunkKey): Nodes {
    if url in nodes then nodes[url := nodes[url] - {key}] else nodes
  }

  /** GET /api/chunk/inventory: the keys present; a node that does not answer reports nothing. */
  function InventoryOf(nodes: Nodes, url: Url): set<ChunkKey> {
    if url in nodes then nodes[url].Keys else {}
  }

  /** The fleet as mutable state shared by the integrity monitor and the client. */
  class ChunkNetwork {
    var nodes: Nodes

    constructor (nodes: Nodes)
      ensures this.nodes == nodes
    {
      this.nodes := nodes;
    }

    /** A write call; `ok` is false when the call throws. */
    method Write(url: Url, key: ChunkKey, data: Bytes) returns (ok: bool)
      modifies this
      ensures ok <==> url in old(nodes)
      ensures nodes == WriteChunk(old(nodes), url, key, data)
      ensures nodes.Keys == old(nodes).Keys
    {
      ok := url in nodes;
      nodes := WriteChunk(nodes, url, key, data);
    }

    /** A delete call; `ok` is false when the call throws. */
    method Delete(url: Url, key: ChunkKey) returns (ok: bool)
      modifies this
      ensures ok <==> url in old(nodes)
      ensures nodes == DeleteChunk(old(nodes), url, key)
      ensures nodes.Keys == old(nodes).Keys
    {
      ok := url in nodes;
      nodes := DeleteChunk(nodes, url, key);
    }
  }
}
