/**
 * The archive a capture session is saved to: a fixed, ordered sequence of named
 * entries.  Byte contents (NBT, OBJ, JSON, PNG, the ZIP container) are left
 * out; each entry keeps only what determines its name and, for the world and
 * metadata entries, what it carries.
 */
module VcapArchive {
  import opened VcapFrames

  /** Id of the canonical empty mesh (MeshWriter.EMPTY_MESH). */
  const EmptyMesh: string := "empty"

  /** The four canonical materials, chosen per voxel by (transparent?, tinted?). */
  datatype MaterialKind = Opaque | Transparent | OpaqueTinted | TransparentTinted

  /** Material names (MeshWriter.WORLD_MAT, TRANSPARENT_MAT, TINTED_MAT, TRANSPARENT_TINTED_MAT). */
  function MaterialName(k: MaterialKind): string {
    match k
    case Opaque => "world"
    case Transparent => "world_trans"
    case OpaqueTinted => "world_tinted"
    case TransparentTinted => "world_trans_tinted"
  }

  /**
   * A material descriptor: colour from the "world" atlas texture, and the two
   * flags that tell the four canonical materials apart.  The roughness constant
   * is left out.
   */
  datatype Material = Material(color: string, transparent: bool, useVertexColors: bool)

  function MaterialOf(k: MaterialKind): (m: Material)
    ensures m.color == "world"
    ensures m.transparent <==> (k == Transparent || k == TransparentTinted)
    ensures m.useVertexColors <==> (k == OpaqueTinted || k == TransparentTinted)
  {
    match k
    case Opaque => Material("world", false, false)
    case Transparent => Material("world", true, false)
    case OpaqueTinted => Material("world", false, true)
    case TransparentTinted => Material("world", true, true)
  }

  /** A registered block model: its mesh id and the layer count MeshWriter reports for it. */
  datatype ModelMesh = ModelMesh(id: string, numLayers: nat)

  /** One archive entry. */
  datatype Entry =
    | WorldData(frames: seq<Frame>)
    | MeshEntry(id: string)
    | MaterialEntry(kind: MaterialKind, material: Material)
    | AtlasImage
    | Meta(numLayers: nat)

  function MeshName(id: string): string {
    "mesh/" + id + ".obj"
  }

  /** The ZIP entry name each entry is written under. */
  function EntryName(e: Entry): string {
    match e
    case WorldData(_) => "world.dat"
    case MeshEntry(id) => MeshName(id)
    case MaterialEntry(k, _) => "mat/" + MaterialName(k) + ".json"
    case AtlasImage => "tex/world.png"
    case Meta(_) => "meta.json"
  }

  function Names(a: seq<Entry>): (r: seq<string>)
    ensures |r| == |a|
  {
    seq(|a|, i requires 0 <= i < |a| => EntryName(a[i]))
  }

  predicate Distinct<T(==)>(s: seq<T>) {
    forall i, j :: 0 <= i < j < |s| ==> s[i] != s[j]
  }

  /** The mesh ids of the registered models, in iteration order. */
  function Ids(models: seq<ModelMesh>): (r: seq<string>)
    ensures |r| == |models|
  {
    seq(|models|, i requires 0 <= i < |models| => models[i].id)
  }

  /** One mesh entry per id, in order. */
  function MeshEntries(ids: seq<string>): (r: seq<Entry>)
    ensures |r| == |ids|
  {
    seq(|ids|, i requires 0 <= i < |ids| => MeshEntry(ids[i]))
  }

  /**
   * The `numLayers` the save pass computes: starting from 0, raised to every
   * model mesh's layer count that exceeds it, in iteration order.
   */
  function MaxLayers(models: seq<ModelMesh>): nat {
    if models == [] then 0
    else
      var n := MaxLayers(models[..|models| - 1]);
      var last := models[|models| - 1].numLayers;
      if last > n then last else n
  }

  function MaterialEntries(): seq<Entry> {
    [MaterialEntry(Opaque, MaterialOf(Opaque)), MaterialEntry(Transparent, MaterialOf(Transparent)),
     MaterialEntry(OpaqueTinted, MaterialOf(OpaqueTinted)),
     MaterialEntry(TransparentTinted, MaterialOf(TransparentTinted))]
  }

  /** The entries the save pass writes, in the order it writes them. */
  function Archive(frames: seq<Frame>, models: seq<ModelMesh>, fluids: seq<string>): seq<Entry> {
    [WorldData(frames)]
    + MeshEntries(Ids(models) + fluids + [EmptyMesh])
    + MaterialEntries()
    + [AtlasImage, Meta(MaxLayers(models))]
  }

  /** `numLayers` is the least upper bound of 0 and the model meshes' layer counts. */
  lemma {:induction false} MaxLayersIsMax(models: seq<ModelMesh>)
    ensures forall i :: 0 <= i < |models| ==> models[i].numLayers <= MaxLayers(models)
    ensures MaxLayers(models) == 0 || exists i :: 0 <= i < |models| && models[i].numLayers == MaxLayers(models)
  {
    if models != [] {
      var init := models[..|models| - 1];
      MaxLayersIsMax(init);
      assert forall i :: 0 <= i < |init| ==> init[i] == models[i];
    }
  }

  /**
   * The archive layout: the world data first, then exactly |models| + |fluids| + 1
   * mesh entries (model ids, fluid ids, the empty mesh), then exactly the four
   * materials, then the atlas and, last, the metadata carrying `numLayers`.
   */
  lemma ArchiveLayout(frames: seq<Frame>, models: seq<ModelMesh>, fluids: seq<string>)
    ensures var a := Archive(frames, models, fluids);
      var m, f := |models|, |fluids|;
      && |a| == m + f + 8
      && a[0] == WorldData(frames)
      && (forall i :: 0 <= i < m ==> a[1 + i] == MeshEntry(models[i].id))
      && (forall j :: 0 <= j < f ==> a[1 + m + j] == MeshEntry(fluids[j]))
      && a[1 + m + f] == MeshEntry(EmptyMesh)
      && (forall i :: 0 <= i < |a| ==> (a[i].MeshEntry? <==> 1 <= i <= m + f + 1))
      && (forall i :: 0 <= i < |a| ==> (a[i].MaterialEntry? <==> m + f + 2 <= i < m + f + 6))
      && a[m + f + 2 .. m + f + 6] == MaterialEntries()
      && a[m + f + 6] == AtlasImage
      && a[m + f + 7] == Meta(MaxLayers(models))
  {
  }

  /**
   * Every material entry carries the canonical descriptor of its kind, and the
   * four kinds are each written once: opaque, transparent, tinted, transparent tinted.
   */
  lemma ArchiveMaterials(frames: seq<Frame>, models: seq<ModelMesh>, fluids: seq<string>)
    ensures var a := Archive(frames, models, fluids);
      forall i :: 0 <= i < |a| && a[i].MaterialEntry? ==> a[i].material == MaterialOf(a[i].kind)
    ensures var a := Archive(frames, models, fluids);
      var k := |models| + |fluids| + 2;
      && a[k].kind == Opaque && a[k + 1].kind == Transparent
      && a[k + 2].kind == OpaqueTinted && a[k + 3].kind == TransparentTinted
  {
    ArchiveLayout(frames, models, fluids);
  }

  /**
   * With zero frames and an empty registry the archive still holds the world
   * data, the empty mesh, the four materials, the atlas and metadata with
   * `numLayers` 0.
   */
  lemma EmptySessionArchive()
    ensures Names(Archive([], [], [])) == ["world.dat", MeshName(EmptyMesh)] + TailNames
    ensures Archive([], [], [])[7] == Meta(0)
  {
    ArchiveNames([], [], []);
    assert MeshNames([EmptyMesh]) == [MeshName(EmptyMesh)];
  }

  lemma MeshNameInjective(a: string, b: string)
    requires MeshName(a) == MeshName(b)
    ensures a == b
  {
    assert |a| == |b|;
    assert MeshName(a)[5..5 + |a|] == a;
    assert MeshName(b)[5..5 + |b|] == b;
  }

  predicate StartsWithMesh(s: string) {
    |s| >= 5 && s[0] == 'm' && s[1] == 'e' && s[2] == 's' && s[3] == 'h' && s[4] == '/'
  }

  lemma DistinctAppend<T>(s: seq<T>, t: seq<T>)
    requires Distinct(s) && Distinct(t)
    requires forall i, j :: 0 <= i < |s| && 0 <= j < |t| ==> s[i] != t[j]
    ensures Distinct(s + t)
  {
    forall i, j | 0 <= i < j < |s + t| ensures (s + t)[i] != (s + t)[j] {
      if j < |s| {
      } else if i >= |s| {
        assert (s + t)[i] == t[i - |s|] && (s + t)[j] == t[j - |s|];
      } else {
        assert (s + t)[i] == s[i] && (s + t)[j] == t[j - |s|];
      }
    }
  }

  function MeshNames(ids: seq<string>): (r: seq<string>)
    ensures |r| == |ids|
  {
    seq(|ids|, i requires 0 <= i < |ids| => MeshName(ids[i]))
  }

  lemma MeshNamesDistinct(ids: seq<string>)
    requires Distinct(ids)
    ensures Distinct(MeshNames(ids))
    ensures forall j :: 0 <= j < |ids| ==> StartsWithMesh(MeshNames(ids)[j])
  {
    var ns := MeshNames(ids);
    forall i, j | 0 <= i < j < |ns| ensures ns[i] != ns[j] {
      if ns[i] == ns[j] {
        MeshNameInjective(ids[i], ids[j]);
      }
    }
    forall j | 0 <= j < |ns| ensures StartsWithMesh(ns[j]) {
      assert ns[j] == "mesh/" + ids[j] + ".obj";
    }
  }

  /** Names of the entries after the meshes: the materials, the atlas and the metadata. */
  const TailNames: seq<string> :=
    ["mat/" + MaterialName(Opaque) + ".json", "mat/" + MaterialName(Transparent) + ".json",
     "mat/" + MaterialName(OpaqueTinted) + ".json", "mat/" + MaterialName(TransparentTinted) + ".json",
     "tex/world.png", "meta.json"]

  lemma FixedNamesApart()
    ensures Distinct(TailNames)
    ensures forall k :: 0 <= k < |TailNames| ==> !StartsWithMesh(TailNames[k]) && TailNames[k] != "world.dat"
    ensures !StartsWithMesh("world.dat")
  {
    assert forall k :: 0 <= k < |TailNames| ==> |TailNames[k]| != 9 || TailNames[k][0] != 'w';
  }

  lemma NamesAppend(a: seq<Entry>, b: seq<Entry>)
    ensures Names(a + b) == Names(a) + Names(b)
  {
    assert forall i :: 0 <= i < |a| ==> (a + b)[i] == a[i];
    assert forall i :: |a| <= i < |a + b| ==> (a + b)[i] == b[i - |a|];
  }

  lemma ArchiveNames(frames: seq<Frame>, models: seq<ModelMesh>, fluids: seq<string>)
    ensures Names(Archive(frames, models, fluids))
         == ["world.dat"] + MeshNames(Ids(models) + fluids + [EmptyMesh]) + TailNames
  {
    var ids := Ids(models) + fluids + [EmptyMesh];
    var tail := MaterialEntries() + [AtlasImage, Meta(MaxLayers(models))];
    assert Archive(frames, models, fluids) == [WorldData(frames)] + MeshEntries(ids) + tail;
    NamesAppend([WorldData(frames)] + MeshEntries(ids), tail);
    NamesAppend([WorldData(frames)], MeshEntries(ids));
    assert Names(tail) == TailNames;
  }

  /**
   * Entry names are unique when the registry's ids are: given model and fluid
   * ids that are pairwise distinct and none of them the empty mesh's id, no two
   * archive entries share a name.
   */
  lemma ArchiveNamesDistinct(frames: seq<Frame>, models: seq<ModelMesh>, fluids: seq<string>)
    requires Distinct(Ids(models) + fluids)
    requires EmptyMesh !in Ids(models) + fluids
    ensures Distinct(Names(Archive(frames, models, fluids)))
  {
    var ids := Ids(models) + fluids + [EmptyMesh];
    DistinctAppend(Ids(models) + fluids, [EmptyMesh]);
    MeshNamesDistinct(ids);
    FixedNamesApart();
    DistinctAppend(["world.dat"], MeshNames(ids));
    DistinctAppend(["world.dat"] + MeshNames(ids), TailNames);
    ArchiveNames(frames, models, fluids);
  }
}
