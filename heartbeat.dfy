/** The heartbeat of a storage node (HeartbeatService): every send carries the node's inventory
    to the master, and two counters decide when the node counts as disconnected and must
    register again once the master answers. */
module Heartbeat {
  import opened Common
  import opened Storage

  /** Failed sends in a row after which the node counts as disconnected. */
  const DISCONNECT_THRESHOLD: nat := 3

  /** The connection state: `consecutiveFailures` and `wasDisconnected`. */
  datatype Link = Link(consecutiveFailures: nat, wasDisconnected: bool)

  /** The state before the first send. */
  const INITIAL: Link := Link(0, false)

  /** The payload of one heartbeat; the storage statistics it also carries are not modelled. */
  datatype Beat = Beat(chunkserverId: string, url: Url, timestamp: int, inventory: Inventory)

  /** The state after one send that was, or was not, delivered to the master. */
  function Next(l: Link, delivered: bool): Link {
    if delivered then Link(0, false)
    else
      var failures := l.consecutiveFailures + 1;
      Link(failures, l.wasDisconnected || failures >= DISCONNECT_THRESHOLD)
  }

  /** Whether a send re-registers the node with the master. */
  function Reregisters(l: Link, delivered: bool): bool {
    delivered && l.wasDisconnected
  }

  /** The state after a series of sends, the last outcome last. */
  function Run(l: Link, outcomes: seq<bool>): Link {
    if outcomes == [] then l else Next(Run(l, outcomes[..|outcomes| - 1]), outcomes[|outcomes| - 1])
  }

  /** The number of failed sends since the last delivered one. */
  function FailuresSinceDelivery(outcomes: seq<bool>): (n: nat)
    ensures n <= |outcomes|
    ensures forall i :: |outcomes| - n <= i < |outcomes| ==> !outcomes[i]
    ensures n < |outcomes| ==> outcomes[|outcomes| - n - 1]
  {
    if outcomes == [] || outcomes[|outcomes| - 1] then 0
    else
      var init := outcomes[..|outcomes| - 1];
      var n := FailuresSinceDelivery(init);
      assert forall i :: 0 <= i < |init| ==> init[i] == outcomes[i];
      n + 1
  }

  /** `n` failed sends in a row. */
  function Failures(n: nat): (s: seq<bool>)
    ensures |s| == n && forall i :: 0 <= i < n ==> !s[i]
  {
    if n == 0 then [] else Failures(n - 1) + [false]
  }

  /** The state of a node that has failed `consecutiveFailures` times in a row: disconnected
      exactly from the third failure on. */
  ghost predicate Consistent(l: Link) {
    l.wasDisconnected <==> l.consecutiveFailures >= DISCONNECT_THRESHOLD
  }

  // ---------------------------------------------------------------------------------------
  // Properties
  // ---------------------------------------------------------------------------------------

  /** From the initial state, the failure count is the number of failed sends since the last
      delivered one, and the node is disconnected exactly when that number is at least three. */
  lemma {:induction false} RunCountsFailures(outcomes: seq<bool>)
    ensures var n := FailuresSinceDelivery(outcomes);
            Run(INITIAL, outcomes) == Link(n, n >= DISCONNECT_THRESHOLD)
  {
    if outcomes != [] {
      RunCountsFailures(outcomes[..|outcomes| - 1]);
    }
  }

  /** A send keeps the failure count and the disconnection flag consistent. */
  lemma NextConsistent(l: Link, delivered: bool)
    requires Consistent(l)
    ensures Consistent(Next(l, delivered))
  {
  }

  /** A delivered send re-registers the node exactly when the sends since the previous delivery
      all failed and there were at least three of them. */
  lemma ReregistersAfterOutage(outcomes: seq<bool>)
    ensures Reregisters(Run(INITIAL, outcomes), true) <==> FailuresSinceDelivery(outcomes) >= DISCONNECT_THRESHOLD
  {
    RunCountsFailures(outcomes);
  }

  /** Once disconnected, the node stays disconnected through any number of failed sends, each
      of which adds exactly one to the count. */
  lemma {:induction false} StaysDisconnected(l: Link, n: nat)
    requires l.wasDisconnected
    ensures Run(l, Failures(n)) == Link(l.consecutiveFailures + n, true)
  {
    if n > 0 {
      StaysDisconnected(l, n - 1);
      assert Failures(n)[..n - 1] == Failures(n - 1);
    }
  }

  /** Three failed sends in a row disconnect the node from any state. */
  lemma {:induction false} ThreeFailuresDisconnect(l: Link, n: nat)
    requires n >= DISCONNECT_THRESHOLD
    ensures Run(l, Failures(n)).wasDisconnected
    ensures Run(l, Failures(n)).consecutiveFailures == l.consecutiveFailures + n
  {
    if n > 0 {
      if n - 1 >= DISCONNECT_THRESHOLD {
        ThreeFailuresDisconnect(l, n - 1);
      } else {
        FailuresAdd(l, n - 1);
      }
      assert Failures(n)[..n - 1] == Failures(n - 1);
    }
  }

  /** Failed sends add one each to the count. */
  lemma {:induction false} FailuresAdd(l: Link, n: nat)
    ensures Run(l, Failures(n)).consecutiveFailures == l.consecutiveFailures + n
  {
    if n > 0 {
      FailuresAdd(l, n - 1);
      assert Failures(n)[..n - 1] == Failures(n - 1);
    }
  }

  // ---------------------------------------------------------------------------------------
  // The service
  // ---------------------------------------------------------------------------------------

  class HeartbeatService {
    const chunkserverId: string
    const chunkserverUrl: Url
    const storage: StorageService
    var consecutiveFailures: nat
    var wasDisconnected: bool

    function State(): Link
      reads this
    {
      Link(consecutiveFailures, wasDisconnected)
    }

    /** The service starts connected and sends its first heartbeat at once; `delivered` is
        whether the master received it. */
    constructor (chunkserverId: string, chunkserverUrl: Url, storage: StorageService, now: int, delivered: bool)
      ensures this.chunkserverId == chunkserverId && this.chunkserverUrl == chunkserverUrl && this.storage == storage
      ensures State() == Next(INITIAL, delivered)
    {
      this.chunkserverId := chunkserverId;
      this.chunkserverUrl := chunkserverUrl;
      this.storage := storage;
      consecutiveFailures := 0;
      wasDisconnected := false;
      new;
      var _, _ := SendHeartbeat(now, delivered);
    }

    /** sendHeartbeat at time `now`: the payload carries the node's current inventory;
        `delivered` is whether the post reached the master. A delivered send after a
        disconnection re-registers first, and whatever the re-registration does, the state is
        reset; a failed send adds one to the count. */
    method SendHeartbeat(now: int, delivered: bool) returns (beat: Beat, reregistered: bool)
      modifies this
      ensures beat == Beat(chunkserverId, chunkserverUrl, now, BuildInventory(storage.dir, storage.listing))
      ensures State() == Next(old(State()), delivered)
      ensures reregistered == Reregisters(old(State()), delivered)
    {
      var inventory := storage.GetInventory();
      beat := Beat(chunkserverId, chunkserverUrl, now, inventory);
      reregistered := false;
      if delivered {
        if consecutiveFailures > 0 || wasDisconnected {
          if wasDisconnected {
            reregistered := true;
          }
          wasDisconnected := false;
        }
        consecutiveFailures := 0;
      } else {
        consecutiveFailures := consecutiveFailures + 1;
        if consecutiveFailures >= DISCONNECT_THRESHOLD {
          wasDisconnected := true;
        }
      }
    }
  }
}
