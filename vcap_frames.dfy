/**
 * The values a capture session works with: chunk and block coordinates, and the
 * frames captured from the world.  The world itself and the frame capture
 * algorithms (IFrame.capture, PFrame.capture) are not part of this model: a
 * frame is recorded as the free term of the inputs it was captured from.
 */
module VcapFrames {

  /** The live world frames are captured from; its block and fluid queries are left out. */
  type World(==)

  /** A chunk coordinate (ChunkPos): a column of 16x16 blocks. */
  datatype ChunkPos = ChunkPos(x: int, z: int)

  /** A block coordinate (BlockPos). */
  datatype BlockPos = BlockPos(x: int, y: int, z: int)

  /**
   * The bounding box invariant: `minChunk` (inclusive) is not past `maxChunk`
   * (exclusive) on either axis.
   */
  predicate BoxValid(minChunk: ChunkPos, maxChunk: ChunkPos) {
    minChunk.x <= maxChunk.x && minChunk.z <= maxChunk.z
  }

  /**
   * A captured frame.  An intracoded frame (IFrame) snapshots the whole box; a
   * predicted frame (PFrame) records the given blocks relative to the frame it
   * was captured after.  Timestamps are seconds since the start of the animation.
   */
  datatype Frame =
    | IFrame(world: World, minChunk: ChunkPos, maxChunk: ChunkPos, time: real)
    | PFrame(world: World, blocks: set<BlockPos>, time: real, previous: Frame)

  /**
   * The frame list of a session: the first frame is intracoded, and every
   * predicted frame was captured relative to the frame just before it.
   */
  predicate FramesChained(frames: seq<Frame>) {
    && (frames != [] ==> frames[0].IFrame?)
    && (forall i :: 0 < i < |frames| && frames[i].PFrame? ==> frames[i].previous == frames[i - 1])
  }
}
