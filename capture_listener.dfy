/**
 * The block-place listener of a capture session as a state machine: the set
 * of changed blocks not yet captured, the flag saying a capture is queued, and
 * the number of render calls recorded with the render system and not yet run.
 * Each recorded render call captures one predicted frame from the whole set.
 */
module CaptureListener {
  import opened VcapFrames

  datatype Listener = Listener(updateCache: set<BlockPos>, isCaptureQueued: bool, pendingCalls: nat)

  /** The state of a new session: nothing cached, nothing queued. */
  const Idle := Listener({}, false, 0)

  /**
   * At most one capture is pending; when nothing is queued nothing is cached
   * or pending; whatever is queued has at least one block to capture.
   */
  predicate Inv(l: Listener) {
    && l.pendingCalls <= 1
    && (l.pendingCalls == 1 ==> l.isCaptureQueued)
    && (!l.isCaptureQueued ==> l.updateCache == {} && l.pendingCalls == 0)
    && (l.isCaptureQueued ==> l.updateCache != {})
  }

  /**
   * A block placement: the block joins the cache, and a render call is
   * recorded only if none was queued, so at most one capture is ever pending.
   */
  function Place(l: Listener, p: BlockPos): (r: Listener)
    requires Inv(l)
    ensures Inv(r)
    ensures r.updateCache == l.updateCache + {p} && r.isCaptureQueued
    ensures r.pendingCalls == if l.isCaptureQueued then l.pendingCalls else 1
  {
    var recorded := if l.isCaptureQueued then l.pendingCalls else l.pendingCalls + 1;
    Listener(l.updateCache + {p}, true, recorded)
  }

  /**
   * The recorded render call, after its capture succeeded: the whole cache
   * was consumed, so the listener is idle again.
   */
  function Fired(l: Listener): (r: Listener)
    requires Inv(l) && l.pendingCalls > 0
    ensures Inv(r) && r == Idle
  {
    Listener({}, false, l.pendingCalls - 1)
  }

  /**
   * The recorded render call, after its capture threw: the exception skips
   * clearing the cache and resetting the flag, so the call is gone but the
   * listener stays queued and records no further render call.
   */
  function FiredAndThrew(l: Listener): (r: Listener)
    requires Inv(l) && l.pendingCalls > 0
    ensures Inv(r) && r.pendingCalls == 0 && r.isCaptureQueued
    ensures r.updateCache == l.updateCache
  {
    l.(pendingCalls := l.pendingCalls - 1)
  }

  /** The blocks of a sequence of placements. */
  function Blocks(ps: seq<BlockPos>): set<BlockPos> {
    set i | 0 <= i < |ps| :: ps[i]
  }

  /** A burst of placements delivered one after another. */
  function PlaceAll(l: Listener, ps: seq<BlockPos>): (r: Listener)
    requires Inv(l)
    ensures Inv(r)
  {
    if ps == [] then l else Place(PlaceAll(l, ps[..|ps| - 1]), ps[|ps| - 1])
  }

  /**
   * Batching: a burst of placements adds every placed block to the cache and
   * records at most one render call in all, and exactly one when nothing was
   * queued before the burst.
   */
  lemma {:induction false} PlaceAllBatches(l: Listener, ps: seq<BlockPos>)
    requires Inv(l)
    ensures PlaceAll(l, ps).updateCache == l.updateCache + Blocks(ps)
    ensures PlaceAll(l, ps).pendingCalls ==
      if ps == [] || l.isCaptureQueued then l.pendingCalls else 1
  {
    if ps != [] {
      var init := ps[..|ps| - 1];
      PlaceAllBatches(l, init);
      assert Blocks(ps) == Blocks(init) + {ps[|ps| - 1]} by {
        assert forall i :: 0 <= i < |init| ==> init[i] == ps[i];
      }
    }
  }

  /**
   * N placements before one render tick, starting idle, lead to exactly one
   * pending capture, which consumes the union of all N positions and leaves
   * the listener idle.
   */
  lemma BurstThenTick(ps: seq<BlockPos>)
    requires ps != []
    ensures PlaceAll(Idle, ps) == Listener(Blocks(ps), true, 1)
    ensures Fired(PlaceAll(Idle, ps)) == Idle
  {
    PlaceAllBatches(Idle, ps);
  }
}
