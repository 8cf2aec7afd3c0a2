/**
 * One capture session (VcapExporter): the chunk bounding box, the frames
 * captured so far, the block-place listener that batches updates into
 * predicted frames, and the save pass that lays out the archive.
 */
module VcapExport {
  import opened Results
  import opened VcapFrames
  import opened VcapArchive
  import CaptureListener

  /** Java `int` arithmetic: the result of an `int` addition or subtraction wraps to 32 bits. */
  function Wrap32(x: int): (r: int)
    ensures -0x8000_0000 <= r < 0x8000_0000
    ensures (r - x) % 0x1_0000_0000 == 0
  {
    (x + 0x8000_0000) % 0x1_0000_0000 - 0x8000_0000
  }

  predicate IsInt32(x: int) {
    -0x8000_0000 <= x < 0x8000_0000
  }

  /** One `int` sum or difference of two `int`s is off by at most one whole turn of 2^32. */
  lemma Wrap32Near(x: int)
    requires -0x1_0000_0000 <= x < 0x1_0000_0000
    ensures Wrap32(x) == if x < -0x8000_0000 then x + 0x1_0000_0000
                         else if x >= 0x8000_0000 then x - 0x1_0000_0000 else x
  {
  }

  /**
   * The export command's box of `radius` chunks around the player's chunk,
   * computed in Java `int`: it is accepted exactly when neither corner
   * overflows, so any radius that keeps both corners in range is accepted,
   * and a radius that wraps a corner inverts the box and is rejected.
   */
  lemma RadiusBoxValid(px: int, pz: int, radius: nat)
    requires IsInt32(px) && IsInt32(pz) && radius < 0x8000_0000
    ensures BoxValid(ChunkPos(Wrap32(px - radius), Wrap32(pz - radius)),
                     ChunkPos(Wrap32(px + radius), Wrap32(pz + radius)))
        <==> IsInt32(px - radius) && IsInt32(px + radius) && IsInt32(pz - radius) && IsInt32(pz + radius)
  {
    Wrap32Near(px - radius);
    Wrap32Near(px + radius);
    Wrap32Near(pz - radius);
    Wrap32Near(pz + radius);
  }

  class Exporter {
    /** The world being captured. */
    const world: World
    /** Bounding box min (inclusive). */
    var minChunk: ChunkPos
    /** Bounding box max (exclusive). */
    var maxChunk: ChunkPos
    /** The captured frames, in capture order; only ever appended to. */
    var frames: seq<Frame>
    /** Start of the animation, in milliseconds; set by the first `Listen`. */
    var captureStartTime: Option<int>
    /** Blocks placed since the last predicted frame the listener captured. */
    var updateCache: set<BlockPos>
    /** Whether the listener has a capture queued for the next render tick. */
    var isCaptureQueued: bool
    /** Render calls recorded by the listener and not yet run by the render system. */
    var pendingRenderCalls: nat

    function ListenerState(): CaptureListener.Listener
      reads this
    {
      CaptureListener.Listener(updateCache, isCaptureQueued, pendingRenderCalls)
    }

    /**
     * The box is never inverted, the frames form a chain from an intracoded
     * frame, and the listener keeps its invariant; a capture is only queued
     * once the start time is set.
     */
    ghost predicate Valid()
      reads this
    {
      && BoxValid(minChunk, maxChunk)
      && FramesChained(frames)
      && CaptureListener.Inv(ListenerState())
      && (isCaptureQueued ==> captureStartTime.Some?)
    }

    /** Field initialisation once the box has been accepted. */
    constructor (world: World, minChunk: ChunkPos, maxChunk: ChunkPos)
      requires BoxValid(minChunk, maxChunk)
      ensures Valid()
      ensures this.world == world && this.minChunk == minChunk && this.maxChunk == maxChunk
      ensures frames == [] && captureStartTime == None
      ensures ListenerState() == CaptureListener.Idle
    {
      this.world := world;
      this.minChunk := minChunk;
      this.maxChunk := maxChunk;
      frames := [];
      captureStartTime := None;
      updateCache := {};
      isCaptureQueued := false;
      pendingRenderCalls := 0;
    }

    /**
     * `new VcapExporter(world, minChunk, maxChunk)`: throws
     * IllegalArgumentException exactly when the box is inverted on either
     * axis; otherwise a session with both corners stored unchanged, no frames
     * and an idle listener.
     */
    static method Create(world: World, minChunk: ChunkPos, maxChunk: ChunkPos)
      returns (r: Result<Exporter, Error>)
      ensures r.Failure? <==> minChunk.x > maxChunk.x || minChunk.z > maxChunk.z
      ensures r.Failure? ==> r.error == IllegalArgument
      ensures r.Success? ==> fresh(r.value) && r.value.Valid()
      ensures r.Success? ==> r.value.world == world && r.value.minChunk == minChunk && r.value.maxChunk == maxChunk
      ensures r.Success? ==> r.value.frames == [] && r.value.captureStartTime == None
      ensures r.Success? ==> r.value.ListenerState() == CaptureListener.Idle
    {
      if minChunk.x > maxChunk.x || minChunk.z > maxChunk.z {
        return Failure(IllegalArgument);
      }
      var e := new Exporter(world, minChunk, maxChunk);
      r := Success(e);
    }

    /**
     * Replaces the bounding box.  Throws IllegalArgumentException exactly when
     * the new box is inverted on either axis, and then leaves the old box in
     * place; otherwise stores both corners unchanged.
     */
    method SetBBox(minChunk: ChunkPos, maxChunk: ChunkPos) returns (r: Outcome<Error>)
      requires Valid()
      modifies this`minChunk, this`maxChunk
      ensures Valid()
      ensures r.Fail? <==> minChunk.x > maxChunk.x || minChunk.z > maxChunk.z
      ensures r.Fail? ==>
        && r.error == IllegalArgument
        && this.minChunk == old(this.minChunk) && this.maxChunk == old(this.maxChunk)
      ensures r.Pass? ==> this.minChunk == minChunk && this.maxChunk == maxChunk
    {
      if minChunk.x > maxChunk.x || minChunk.z > maxChunk.z {
        return Fail(IllegalArgument);
      }
      this.minChunk := minChunk;
      this.maxChunk := maxChunk;
      r := Pass;
    }

    /** Captures an intracoded frame of the current box and appends it. */
    method CaptureIFrame(time: real) returns (f: Frame)
      requires Valid()
      modifies this`frames
      ensures Valid()
      ensures f == IFrame(world, minChunk, maxChunk, time)
      ensures frames == old(frames) + [f]
    {
      f := IFrame(world, minChunk, maxChunk, time);
      frames := frames + [f];
    }

    /**
     * Captures a predicted frame of `blocks` sampled from `w`, relative to the
     * last frame, and appends it.  With no frame yet, reading the last frame
     * throws IndexOutOfBoundsException and nothing changes.
     */
    method CapturePFrameFrom(time: real, blocks: set<BlockPos>, w: World) returns (r: Result<Frame, Error>)
      requires Valid()
      modifies this`frames
      ensures Valid()
      ensures old(frames) == [] ==> r == Failure(IndexOutOfBounds) && frames == old(frames)
      ensures old(frames) != [] ==>
        && r == Success(PFrame(w, blocks, time, old(frames)[|old(frames)| - 1]))
        && frames == old(frames) + [r.value]
    {
      if |frames| == 0 {
        return Failure(IndexOutOfBounds);
      }
      var f := PFrame(w, blocks, time, frames[|frames| - 1]);
      frames := frames + [f];
      r := Success(f);
    }

    /** Captures a predicted frame sampled from the session's own world. */
    method CapturePFrame(time: real, blocks: set<BlockPos>) returns (r: Result<Frame, Error>)
      requires Valid()
      modifies this`frames
      ensures Valid()
      ensures old(frames) == [] ==> r == Failure(IndexOutOfBounds) && frames == old(frames)
      ensures old(frames) != [] ==>
        && r == Success(PFrame(world, blocks, time, old(frames)[|old(frames)| - 1]))
        && frames == old(frames) + [r.value]
    {
      r := CapturePFrameFrom(time, blocks, world);
    }

    /**
     * The listener's `place` callback.  The listener is only ever registered
     * by `Listen`, which sets the start time first.
     */
    method Place(p: BlockPos)
      requires Valid() && captureStartTime.Some?
      modifies this`updateCache, this`isCaptureQueued, this`pendingRenderCalls
      ensures Valid()
      ensures ListenerState() == CaptureListener.Place(old(ListenerState()), p)
    {
      updateCache := updateCache + {p};
      if !isCaptureQueued {
        pendingRenderCalls := pendingRenderCalls + 1;
      }
      isCaptureQueued := true;
    }

    /**
     * The render system runs the recorded render call at `nowMillis`: one
     * predicted frame of the whole cache, timestamped in seconds since the
     * start time, then the cache is cleared and the flag reset.  If the
     * capture throws, the clearing and resetting are skipped.
     */
    method RunRenderCall(nowMillis: int) returns (r: Result<Frame, Error>)
      requires Valid() && pendingRenderCalls > 0
      modifies this`frames, this`updateCache, this`isCaptureQueued, this`pendingRenderCalls
      ensures Valid()
      ensures old(frames) == [] ==>
        && r == Failure(IndexOutOfBounds) && frames == old(frames)
        && ListenerState() == CaptureListener.FiredAndThrew(old(ListenerState()))
      ensures old(frames) != [] ==>
        && r == Success(PFrame(world, old(updateCache),
                               (nowMillis - old(captureStartTime).value) as real / 1000.0,
                               old(frames)[|old(frames)| - 1]))
        && frames == old(frames) + [r.value]
        && ListenerState() == CaptureListener.Fired(old(ListenerState()))
    {
      var time := (nowMillis - captureStartTime.value) as real / 1000.0;
      pendingRenderCalls := pendingRenderCalls - 1;
      r := CapturePFrame(time, updateCache);
      if r.Failure? {
        return;
      }
      updateCache := {};
      isCaptureQueued := false;
    }

    /**
     * Starts listening: the start time is `startTime`, or `nowMillis` when
     * none is given, but only on the first call; later calls keep it.
     */
    method Listen(startTime: Option<int>, nowMillis: int)
      requires Valid()
      modifies this`captureStartTime
      ensures Valid()
      ensures old(captureStartTime).Some? ==> captureStartTime == old(captureStartTime)
      ensures old(captureStartTime).None? ==> captureStartTime == Some(startTime.GetOr(nowMillis))
    {
      var start := startTime.GetOr(nowMillis);
      if captureStartTime.None? {
        captureStartTime := Some(start);
      }
    }

    /**
     * The save pass: the entries it writes, in order, for a registry whose
     * model meshes and fluid mesh ids are given in iteration order.  The
     * metadata entry carries the largest model layer count, starting from 0.
     */
    method Save(models: seq<ModelMesh>, fluids: seq<string>) returns (archive: seq<Entry>)
      ensures archive == Archive(frames, models, fluids)
    {
      archive := [WorldData(frames)];
      var numLayers: nat := 0;
      for i := 0 to |models|
        invariant archive == [WorldData(frames)] + MeshEntries(Ids(models[..i]))
        invariant numLayers == MaxLayers(models[..i])
      {
        archive := archive + [MeshEntry(models[i].id)];
        if models[i].numLayers > numLayers {
          numLayers := models[i].numLayers;
        }
        assert models[..i + 1][..i] == models[..i];
        assert Ids(models[..i + 1]) == Ids(models[..i]) + [models[i].id];
        MeshEntriesSnoc(Ids(models[..i]), models[i].id);
      }
      assert models[..|models|] == models;
      for j := 0 to |fluids|
        invariant archive == [WorldData(frames)] + MeshEntries(Ids(models) + fluids[..j])
      {
        archive := archive + [MeshEntry(fluids[j])];
        assert Ids(models) + fluids[..j + 1] == Ids(models) + fluids[..j] + [fluids[j]];
        MeshEntriesSnoc(Ids(models) + fluids[..j], fluids[j]);
      }
      assert fluids[..|fluids|] == fluids;
      // Fluid meshes rely on the empty mesh being present.
      archive := archive + [MeshEntry(EmptyMesh)];
      MeshEntriesSnoc(Ids(models) + fluids, EmptyMesh);
      archive := archive + [MaterialEntry(Opaque, MaterialOf(Opaque))];
      archive := archive + [MaterialEntry(Transparent, MaterialOf(Transparent))];
      archive := archive + [MaterialEntry(OpaqueTinted, MaterialOf(OpaqueTinted))];
      archive := archive + [MaterialEntry(TransparentTinted, MaterialOf(TransparentTinted))];
      archive := archive + [AtlasImage];
      archive := archive + [Meta(numLayers)];
    }
  }

  lemma MeshEntriesSnoc(ids: seq<string>, id: string)
    ensures MeshEntries(ids + [id]) == MeshEntries(ids) + [MeshEntry(id)]
  {
  }
}
