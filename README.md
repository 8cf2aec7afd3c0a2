# Vcap capture session and tree iterator, modelled in Dafny

This project models two pieces of the world-export mod:

- **The capture session** (`VcapExporter`). It holds a chunk bounding box and
  the list of captured frames. Intracoded frames snapshot the whole box.
  Predicted frames record changed blocks relative to the last frame. A
  block-place listener batches placements into at most one pending capture
  per render tick. The save pass writes the session out as an ordered
  sequence of named archive entries.
- **The tree iterator** (`TreeIterator`). It walks a tree of nodes in
  definition order, using a stack of child iterators.

Files:

- `results.dfy`: `Option`, `Result`, `Outcome` and the exceptions the
  source throws (`IllegalArgument`, `IndexOutOfBounds`, `NoSuchElement`).
- `vcap_frames.dfy`: chunk and block positions, the bounding-box predicate,
  and frames. A frame is a free constructor over its capture inputs. The
  world is an abstract type.
- `vcap_archive.dfy`: the entries the save pass writes, their ZIP names, the
  `numLayers` fold, and lemmas on the layout, the uniqueness of names and the
  empty session.
- `capture_listener.dfy`: the listener as a state machine over
  (cache, queued flag, pending render calls), with its invariant and the
  batching lemma.
- `vcap_exporter.dfy`: the class `Exporter`, whose fields are updated in place
  as in the source. Its `Save` method is proved against the archive function.
- `tree_iterator.dfy`: the class `TreeIterator` and the stack functions that
  specify it. This includes the walk still left, `Remaining`, and one call of
  `next`, `Advance`. It also holds the counterexample to `hasNext` and the
  corrected test.

Behaviours of the code that the model keeps as they are:

- `numLayers` is raised only while model meshes are written, starting
  from 0. Fluid meshes and the empty mesh never change it
  (`VcapExporter.java:167-178`). `MaxLayers` does the same.
- Reading the last frame when there is none throws
  IndexOutOfBoundsException (`VcapExporter.java:312`). The model returns
  that error and changes nothing.
- When the render call's capture throws, the cache is not cleared and the
  queued flag is not reset. The listener then stays queued for good
  (`FiredAndThrew`).
- The export command computes its box corners in Java `int`, so a radius
  large enough to wrap a corner inverts the box, and the constructor
  rejects it (`RadiusBoxValid`).

## Model

| member | source | states |
|---|---|---|
| VcapExport.Exporter.constructor | src/main/java/org/scaffoldeditor/worldexport/VcapExporter.java:78-83 | for an accepted box, both corners stored unchanged, no frames, no start time, idle listener, invariant established (box valid, frames chained from an intracoded frame, listener invariant) |
| VcapExport.Exporter.Create | src/main/java/org/scaffoldeditor/worldexport/VcapExporter.java:78-83 | construction fails with IllegalArgument exactly when min.x > max.x or min.z > max.z; otherwise a fresh valid session with the given world and corners and no frames |
| VcapExport.Exporter.SetBBox | src/main/java/org/scaffoldeditor/worldexport/VcapExporter.java:106-113 | fails with IllegalArgument exactly when the box is inverted on either axis, keeping the old box; otherwise stores both corners |
| VcapExport.Exporter.CaptureIFrame | src/main/java/org/scaffoldeditor/worldexport/VcapExporter.java:278-282 | returns an intracoded frame of the current world and box at `time`, and the frame list grows by exactly that frame; the frames stay chained |
| VcapExport.Exporter.CapturePFrameFrom | src/main/java/org/scaffoldeditor/worldexport/VcapExporter.java:311-315 | with no frame yet, IndexOutOfBounds and frames unchanged; otherwise a predicted frame of the given blocks and world whose predecessor is the last frame, appended; so the first frame is always intracoded and each predicted frame refers to the one before it |
| VcapExport.Exporter.CapturePFrame | src/main/java/org/scaffoldeditor/worldexport/VcapExporter.java:294-296 | the same as CapturePFrameFrom with the session's own world |
| VcapExport.Exporter.Place | src/main/java/org/scaffoldeditor/worldexport/VcapExporter.java:323-333 | the block joins the cache, the flag is set, a render call is recorded only when none was queued; the session invariant is kept |
| VcapExport.Exporter.RunRenderCall | src/main/java/org/scaffoldeditor/worldexport/VcapExporter.java:326-330 | the recorded call captures one predicted frame of the whole cache, timestamped (now - start) / 1000 seconds, then the listener is idle; if the capture throws, frames are unchanged and the listener stays queued with the cache kept |
| VcapExport.Exporter.Listen | src/main/java/org/scaffoldeditor/worldexport/VcapExporter.java:340-345 | the start time becomes the given time, or now when none is given, only if unset; an earlier start time is kept |
| VcapExport.Exporter.Save | src/main/java/org/scaffoldeditor/worldexport/VcapExporter.java:151-256 | the entries written, in order, equal `Archive(frames, models, fluids)`; the loop's running `numLayers` equals MaxLayers of the models seen so far |
| VcapExport.RadiusBoxValid | src/main/java/org/scaffoldeditor/worldexport/ExportCommand.java:74-85 | with the corners computed in 32-bit wrapping `int`, the box around the player's chunk is accepted exactly when none of player.x ± radius and player.z ± radius overflows; a wrapped corner inverts the box, which is rejected |
| VcapArchive.MaterialOf | src/main/java/org/scaffoldeditor/worldexport/VcapExporter.java:190-226 | every material takes its colour from "world"; transparent exactly for the two transparent kinds; vertex colours exactly for the two tinted kinds |
| VcapArchive.ArchiveMaterials | src/main/java/org/scaffoldeditor/worldexport/VcapExporter.java:190-226 | every material entry of the archive carries its kind's descriptor, and the four kinds are written in the order opaque, transparent, tinted, transparent tinted |
| VcapArchive.MaxLayersIsMax | src/main/java/org/scaffoldeditor/worldexport/VcapExporter.java:167-178 | `numLayers` bounds every model mesh's layer count and is 0 or equal to one of them |
| VcapArchive.ArchiveLayout | src/main/java/org/scaffoldeditor/worldexport/VcapExporter.java:161-252 | world data first; the model ids, then the fluid ids, then the empty mesh, exactly at positions 1..m+f+1; exactly the four materials next; then the atlas; metadata with `numLayers` last; m+f+8 entries |
| VcapArchive.ArchiveNames | src/main/java/org/scaffoldeditor/worldexport/VcapExporter.java:258-263 | the entry names are "world.dat", "mesh/<id>.obj" per mesh id in order, the four "mat/<name>.json", "tex/world.png", "meta.json" |
| VcapArchive.ArchiveNamesDistinct | src/main/java/org/scaffoldeditor/worldexport/VcapExporter.java:161-252 | when the model and fluid ids are pairwise distinct and none is the empty mesh's id, no two entries share a name |
| VcapArchive.EmptySessionArchive | src/main/java/org/scaffoldeditor/worldexport/VcapExporter.java:186-187 | with no frames and an empty registry the archive still holds world data, the empty mesh, four materials, atlas and metadata with `numLayers` 0 |
| VcapArchive.MeshNameInjective | src/main/java/org/scaffoldeditor/worldexport/VcapExporter.java:259 | distinct mesh ids give distinct mesh entry names |
| CaptureListener.Place | src/main/java/org/scaffoldeditor/worldexport/VcapExporter.java:323-333 | the listener invariant is kept; the cache gains the block; the flag is set; pending calls unchanged when queued, else 1 |
| CaptureListener.Fired | src/main/java/org/scaffoldeditor/worldexport/VcapExporter.java:326-330 | after a successful capture the listener is idle again and the invariant holds |
| CaptureListener.FiredAndThrew | src/main/java/org/scaffoldeditor/worldexport/VcapExporter.java:326-330 | after a capture that throws, no call is pending, yet the flag stays set and the cache is kept, so later placements record no capture |
| CaptureListener.PlaceAll | src/main/java/org/scaffoldeditor/worldexport/VcapExporter.java:323-333 | any burst of placements keeps the listener invariant (at most one pending capture) |
| CaptureListener.PlaceAllBatches | src/main/java/org/scaffoldeditor/worldexport/VcapExporter.java:323-333 | a burst adds exactly its blocks to the cache and records at most one render call, exactly one when nothing was queued before |
| CaptureListener.BurstThenTick | src/main/java/org/scaffoldeditor/worldexport/VcapExporter.java:323-333 | N placements from idle leave one pending capture of the union of all N positions; running it leaves the listener idle |
| TreeIter.TreeIterator.constructor | src/main/java/org/scaffoldeditor/worldexport/util/TreeIterator.java:17-19 | the stack holds only the root's iterator, nothing is returned yet, and the whole definition order is left to walk |
| TreeIter.TreeIterator.HasNext | src/main/java/org/scaffoldeditor/worldexport/util/TreeIterator.java:24-26 | asks only the first and last iterators; when true some node is still to return; with at most two iterators on the stack, also the converse |
| TreeIter.TreeIterator.Next | src/main/java/org/scaffoldeditor/worldexport/util/TreeIterator.java:29-45 | NoSuchElement exactly when `hasNext` is false, changing nothing; otherwise returns the next node of the definition order, which is appended to what was returned, with the invariant returned + left == definition order |
| TreeIter.Settle | src/main/java/org/scaffoldeditor/worldexport/util/TreeIterator.java:34-38 | the pop loop keeps the root iterator at the bottom and stops at an iterator with more |
| TreeIter.SettleKeepsRemaining | src/main/java/org/scaffoldeditor/worldexport/util/TreeIterator.java:34-38 | popping exhausted iterators does not change what is left to walk |
| TreeIter.TakeRemaining | src/main/java/org/scaffoldeditor/worldexport/util/TreeIterator.java:40-44 | taking a node from the top iterator (and pushing its children's iterator) returns the first node left and leaves exactly the rest |
| TreeIter.AdvanceTakesNext | src/main/java/org/scaffoldeditor/worldexport/util/TreeIterator.java:29-45 | one call of `next` returns the first node left to walk, leaves the rest, keeps the root iterator at the bottom, and pushes the node's children's iterator exactly when it has children |
| TreeIter.HasNextSound | src/main/java/org/scaffoldeditor/worldexport/util/TreeIterator.java:24-26 | when `hasNext` holds, some node is still to walk |
| TreeIter.HasNextExactWhenShallow | src/main/java/org/scaffoldeditor/worldexport/util/TreeIterator.java:24-26 | with at most two iterators on the stack, `hasNext` is false only when nothing is left |
| TreeIter.WalkIsPrefix | src/main/java/org/scaffoldeditor/worldexport/util/TreeIterator.java:29-45 | what k calls of `next` return, followed by what they leave, is what was left before |
| TreeIter.FreshWalkIsPrefix | src/main/java/org/scaffoldeditor/worldexport/util/TreeIterator.java:17-45 | the nodes returned from a fresh iterator form a prefix of the root's definition order |
| TreeIter.HasNextMissesMiddle | src/main/java/org/scaffoldeditor/worldexport/util/TreeIterator.java:24-26 | root [A], A's children [B, C], B's child [D]: after A, B, D, `hasNext` is false while C is still left |
| TreeIter.AnyHasMoreIffRemaining | src/main/java/org/scaffoldeditor/worldexport/util/TreeIterator.java:24-26 | the corrected test, some iterator on the stack has more, holds exactly when some node is left to walk |

## Left out

- Byte-level output: the NBT world document, OBJ mesh bodies, material and
  metadata JSON, the PNG atlas and the ZIP container. Entries keep only
  their names and what they carry.
- The atlas extraction (TextureExtractor) and its temporary file. The atlas
  is one entry, `AtlasImage`.
- Writing a mesh with MeshWriter and the shared random source it draws from.
  A model mesh is given as its id and the layer count the writer reports.
- The values of MeshWriter's constants: the empty mesh id and the four
  material names. MeshWriter is not part of this model. The strings used
  are stand-ins, and only the fact that they differ from each other matters
  to the lemmas.
- The registry's hash-map iteration order. `Save` takes the model meshes and
  fluid ids as sequences, in whatever order the maps yield.
- How frames are captured (the per-voxel scan, PFrame's adjacency checks).
  Frames are free constructors over their inputs, and the world is
  abstract.
- Registering mesh ids with the export context during a capture. The id map
  is the input to `Save`.
- VcapExport.Exporter.Save: never fails. The source's `save` can throw
  IOException. In particular, ZipOutputStream rejects a repeated entry name
  with ZipException, after the entries before it are written. That happens
  when a model id equals a fluid id or the empty mesh id. The model does not
  capture that partial write. `ArchiveNamesDistinct` gives the condition
  under which no name repeats: distinct ids, none equal to the empty mesh id.
- A node's `hasChildren` is taken to mean that its child sequence is
  non-empty (`Node.HasChildren`). A node that reported children but yielded
  none would make `next` push an exhausted iterator. That changes what
  `hasNext` returns, and the model does not cover it.
- Material roughness, a floating-point constant. Frame times are `real`,
  without double rounding.
- The clock. `Listen` and `RunRenderCall` take the current time in
  milliseconds as a parameter.
- `saveAsync` and the render thread. A recorded render call is a counter of
  pending calls, run by `RunRenderCall`, with no interleaving.
- Registering the listener with the event bus, and `stopListen`.
- Exporter.Place: requires the start time to be set, because the source only
  registers the listener in `listen`, after setting it.
- The updateCache set is passed by reference to the predicted frame and then
  cleared. The model hands the frame a copy of the set.
- The getters `getMinChunk`, `getMaxChunk` and `getSettings`, which are plain
  field reads.
- The rest of ExportCommand. Only the box it builds is modelled
  (`RadiusBoxValid`).
- TreeIterator is modelled over one node type, whose children are a
  sequence. The source's generic `Iterator<T>` becomes an index into that
  sequence.

## Findings

| source | as written | input that shows it | evidently intended | confidence | as-written member | corrected member |
|---|---|---|---|---|---|---|
| src/main/java/org/scaffoldeditor/worldexport/util/TreeIterator.java:25 | `hasNext` asks only the first and the last iterator on the stack | root [A], A's children [B, C], B's child [D]; after `next` returns A, B, D, the stack is [root (done), A's (C left), B's (done)], so `hasNext` is false and C is never returned | `hasNext` is true while any iterator on the stack has more, i.e. while any node is left | high (derived by proof, not executed) | TreeIter.HasNextMissesMiddle | TreeIter.AnyHasMoreIffRemaining |
