/**
 * The `Files` structure of the item view (ItemViewControl.xaml.cs:215-221):
 * model path -> material path -> set of texture paths, where an empty
 * string stands for a level that resolved to nothing.
 *
 * Dictionaries and hash sets are modelled as sequences in their
 * enumeration order, which for .NET collections that were only added to is
 * insertion order. Each level has distinct keys (`WellFormed`).
 */
module FileTree {
  import opened Wrappers
  import opened Lists

  /** The key that stands for "no file at this level". */
  const Blank: string := ""

  /** A material path and the texture paths it references. */
  datatype MaterialNode = MaterialNode(key: string, textures: seq<string>)

  /** A model path and the materials it references. */
  datatype ModelNode = ModelNode(key: string, materials: seq<MaterialNode>)

  type Tree = seq<ModelNode>

  function ModelKeys(t: Tree): (ks: seq<string>)
    ensures |ks| == |t| && forall i :: 0 <= i < |t| ==> ks[i] == t[i].key
  {
    seq(|t|, i requires 0 <= i < |t| => t[i].key)
  }

  function MaterialKeys(ms: seq<MaterialNode>): (ks: seq<string>)
    ensures |ks| == |ms| && forall j :: 0 <= j < |ms| ==> ks[j] == ms[j].key
  {
    seq(|ms|, j requires 0 <= j < |ms| => ms[j].key)
  }

  predicate NodeWellFormed(n: ModelNode) {
    && Distinct(MaterialKeys(n.materials))
    && forall j :: 0 <= j < |n.materials| ==> Distinct(n.materials[j].textures)
  }

  /** Dictionary keys and hash-set members are unique at every level. */
  predicate WellFormed(t: Tree) {
    && Distinct(ModelKeys(t))
    && forall i :: 0 <= i < |t| ==> NodeWellFormed(t[i])
  }

  /** The invariant the builder establishes: no level is empty to a consumer. */
  predicate NoEmptyLevel(t: Tree) {
    |t| > 0 && forall i :: 0 <= i < |t| ==> |t[i].materials| > 0
  }

  // ---------------------------------------------------------------------
  // Lookup by key

  /** The position of model `m`, if it is a key of the tree. */
  function FindModel(t: Tree, m: string): (r: Option<nat>)
    ensures r.Some? <==> m in ModelKeys(t)
    ensures r.Some? ==> r.value < |t| && t[r.value].key == m
  {
    if m in ModelKeys(t) then Some(IndexOf(ModelKeys(t), m)) else None
  }

  /** The position of material `mat` in a model's material list, if present. */
  function FindMaterial(ms: seq<MaterialNode>, mat: string): (r: Option<nat>)
    ensures r.Some? <==> mat in MaterialKeys(ms)
    ensures r.Some? ==> r.value < |ms| && ms[r.value].key == mat
  {
    if mat in MaterialKeys(ms) then Some(IndexOf(MaterialKeys(ms), mat)) else None
  }

  lemma ModelKeysDrop(t: Tree, i: nat)
    requires i < |t|
    ensures ModelKeys(t[..i] + t[i + 1..]) == ModelKeys(t)[..i] + ModelKeys(t)[i + 1..]
  {
  }

  lemma MaterialKeysDrop(ms: seq<MaterialNode>, j: nat)
    requires j < |ms|
    ensures MaterialKeys(ms[..j] + ms[j + 1..]) == MaterialKeys(ms)[..j] + MaterialKeys(ms)[j + 1..]
  {
  }

  /** With distinct keys, the position of a key is the only position holding it. */
  lemma ModelKeyUnique(t: Tree, i: nat, m: string)
    requires WellFormed(t) && i < |t| && t[i].key == m
    ensures FindModel(t, m) == Some(i)
  {
    var k := FindModel(t, m).value;
    assert ModelKeys(t)[k] == ModelKeys(t)[i];
  }

  lemma MaterialKeyUnique(ms: seq<MaterialNode>, j: nat, mat: string)
    requires Distinct(MaterialKeys(ms)) && j < |ms| && ms[j].key == mat
    ensures FindMaterial(ms, mat) == Some(j)
  {
    var k := FindMaterial(ms, mat).value;
    assert MaterialKeys(ms)[k] == MaterialKeys(ms)[j];
  }

  // ---------------------------------------------------------------------
  // Entries and their traversal order

  /**
   * The key triple `GetFileKeys` reports (ItemViewControl.xaml.cs:1004):
   * a model key, then optionally a material key and a texture path; every
   * component may be null.
   */
  datatype FileKeys = FileKeys(model: Option<string>, material: Option<string>, texture: Option<string>)

  /** `(null, null, null)`: no target, fall back to the first entry of every list. */
  const NoTarget: FileKeys := FileKeys(None, None, None)

  /** `("!", null, null)`: a file known to be outside the tree. */
  const NotInTree: FileKeys := FileKeys(Some("!"), None, None)

  /** The path an entry stands for: its deepest non-null key. */
  function Leaf(k: FileKeys): string {
    if k.texture.Some? then k.texture.value
    else if k.material.Some? then k.material.value
    else if k.model.Some? then k.model.value
    else Blank
  }

  function TextureEntries(m: string, mat: string, ts: seq<string>): (es: seq<FileKeys>)
    ensures |es| == |ts|
    ensures forall k :: 0 <= k < |ts| ==> es[k] == FileKeys(Some(m), Some(mat), Some(ts[k]))
  {
    seq(|ts|, k requires 0 <= k < |ts| => FileKeys(Some(m), Some(mat), Some(ts[k])))
  }

  function MaterialEntries(m: string, ms: seq<MaterialNode>): seq<FileKeys> {
    if ms == [] then []
    else [FileKeys(Some(m), Some(ms[0].key), None)]
         + TextureEntries(m, ms[0].key, ms[0].textures)
         + MaterialEntries(m, ms[1..])
  }

  function NodeEntries(n: ModelNode): seq<FileKeys> {
    [FileKeys(Some(n.key), None, None)] + MaterialEntries(n.key, n.materials)
  }

  /**
   * Every entry of the tree in the order the nested `foreach` loops of
   * `GetFileKeys` and `RemoveFile` visit them: a model, then for each of its
   * materials the material followed by its textures.
   */
  function Entries(t: Tree): seq<FileKeys> {
    if t == [] then [] else NodeEntries(t[0]) + Entries(t[1..])
  }

  /** The first entry of `es` whose path is `f`. */
  function FirstMatch(es: seq<FileKeys>, f: string): Option<FileKeys> {
    if es == [] then None
    else if Leaf(es[0]) == f then Some(es[0])
    else FirstMatch(es[1..], f)
  }

  /** `FirstMatch` finds nothing exactly when no entry has path `f`, and otherwise the earliest one that does. */
  lemma {:induction false} FirstMatchSpec(es: seq<FileKeys>, f: string)
    ensures FirstMatch(es, f).None? <==> forall i :: 0 <= i < |es| ==> Leaf(es[i]) != f
    ensures FirstMatch(es, f).Some? ==>
              exists i :: 0 <= i < |es| && es[i] == FirstMatch(es, f).value && Leaf(es[i]) == f
                          && forall j :: 0 <= j < i ==> Leaf(es[j]) != f
  {
    if es != [] && Leaf(es[0]) != f {
      FirstMatchSpec(es[1..], f);
      assert forall i :: 1 <= i < |es| ==> es[i] == es[1..][i - 1];
      if FirstMatch(es, f).Some? {
        var i :| 0 <= i < |es[1..]| && es[1..][i] == FirstMatch(es, f).value && Leaf(es[1..][i]) == f
                 && forall j :: 0 <= j < i ==> Leaf(es[1..][j]) != f;
        assert forall j :: 1 <= j < i + 1 ==> Leaf(es[j]) != f;
        assert es[i + 1] == FirstMatch(es, f).value;
      }
    }
  }

  lemma {:induction false} FirstMatchAppend(a: seq<FileKeys>, b: seq<FileKeys>, f: string)
    ensures FirstMatch(a + b, f) == if FirstMatch(a, f).Some? then FirstMatch(a, f) else FirstMatch(b, f)
  {
    if a != [] {
      assert (a + b)[1..] == a[1..] + b;
      FirstMatchAppend(a[1..], b, f);
    } else {
      assert a + b == b;
    }
  }

  // ---------------------------------------------------------------------
  // The search of GetFileKeys and RemoveFile

  function LocateInMaterials(m: string, ms: seq<MaterialNode>, f: string): (r: Option<FileKeys>)
    ensures r.Some? ==> r.value.model == Some(m)
  {
    if ms == [] then None
    else if ms[0].key == f then Some(FileKeys(Some(m), Some(f), None))
    else if f in ms[0].textures then Some(FileKeys(Some(m), Some(ms[0].key), Some(f)))
    else LocateInMaterials(m, ms[1..], f)
  }

  /**
   * The nested search of ItemViewControl.xaml.cs:1016-1037: for each model,
   * its key, then for each material its key and then its textures; the
   * first hit wins. `None` where the source falls out of the loops.
   */
  function Locate(t: Tree, f: string): (r: Option<FileKeys>)
    ensures r.Some? ==> r.value.model.Some?
  {
    if t == [] then None
    else if t[0].key == f then Some(FileKeys(Some(f), None, None))
    else
      match LocateInMaterials(t[0].key, t[0].materials, f)
      case Some(k) => Some(k)
      case None => Locate(t[1..], f)
  }

  lemma {:induction false} LocateInTexturesIsFirstMatch(m: string, mat: string, ts: seq<string>, f: string)
    ensures FirstMatch(TextureEntries(m, mat, ts), f)
            == if f in ts then Some(FileKeys(Some(m), Some(mat), Some(f))) else None
  {
    var es := TextureEntries(m, mat, ts);
    FirstMatchSpec(es, f);
    if f in ts {
      var k := IndexOf(ts, f);
      assert Leaf(es[k]) == f;
      var r := FirstMatch(es, f);
      var i :| 0 <= i < |es| && es[i] == r.value && Leaf(es[i]) == f;
      assert es[i] == FileKeys(Some(m), Some(mat), Some(ts[i]));
    } else {
      assert forall i :: 0 <= i < |es| ==> Leaf(es[i]) == ts[i];
    }
  }

  lemma {:induction false} LocateInMaterialsIsFirstMatch(m: string, ms: seq<MaterialNode>, f: string)
    ensures LocateInMaterials(m, ms, f) == FirstMatch(MaterialEntries(m, ms), f)
  {
    if ms != [] {
      var head := [FileKeys(Some(m), Some(ms[0].key), None)];
      var texs := TextureEntries(m, ms[0].key, ms[0].textures);
      var rest := MaterialEntries(m, ms[1..]);
      assert MaterialEntries(m, ms) == (head + texs) + rest;
      FirstMatchAppend(head + texs, rest, f);
      FirstMatchAppend(head, texs, f);
      LocateInTexturesIsFirstMatch(m, ms[0].key, ms[0].textures, f);
      LocateInMaterialsIsFirstMatch(m, ms[1..], f);
    }
  }

  /**
   * The search finds the FIRST entry, in traversal order, whose path is
   * `f`, and reports nothing exactly when no entry has that path.
   */
  lemma {:induction false} LocateIsFirstMatch(t: Tree, f: string)
    ensures Locate(t, f) == FirstMatch(Entries(t), f)
  {
    if t != [] {
      var head := [FileKeys(Some(t[0].key), None, None)];
      var mats := MaterialEntries(t[0].key, t[0].materials);
      assert Entries(t) == (head + mats) + Entries(t[1..]);
      FirstMatchAppend(head + mats, Entries(t[1..]), f);
      FirstMatchAppend(head, mats, f);
      LocateInMaterialsIsFirstMatch(t[0].key, t[0].materials, f);
      LocateIsFirstMatch(t[1..], f);
    }
  }

  // ---------------------------------------------------------------------
  // Occurrence and entries, stated on the structure

  predicate OccursInMaterial(n: MaterialNode, f: string) {
    n.key == f || f in n.textures
  }

  predicate OccursInNode(n: ModelNode, f: string) {
    n.key == f || exists j :: 0 <= j < |n.materials| && OccursInMaterial(n.materials[j], f)
  }

  /** `f` is a key at some level of the tree. */
  predicate Occurs(t: Tree, f: string) {
    exists i :: 0 <= i < |t| && OccursInNode(t[i], f)
  }

  /** `k` names a model key, a material key under it, or a texture under that material. */
  predicate IsEntry(t: Tree, k: FileKeys) {
    && k.model.Some?
    && (k.texture.Some? ==> k.material.Some?)
    && exists i :: 0 <= i < |t| && t[i].key == k.model.value && IsEntryIn(t[i].materials, k)
  }

  predicate IsEntryIn(ms: seq<MaterialNode>, k: FileKeys) {
    k.material.None? ||
    exists j :: 0 <= j < |ms| && ms[j].key == k.material.value
                && (k.texture.None? || k.texture.value in ms[j].textures)
  }

  lemma {:induction false} LocateInMaterialsSound(m: string, ms: seq<MaterialNode>, f: string)
    ensures LocateInMaterials(m, ms, f).Some? <==> exists j :: 0 <= j < |ms| && OccursInMaterial(ms[j], f)
    ensures LocateInMaterials(m, ms, f).Some? ==>
              var k := LocateInMaterials(m, ms, f).value;
              k.model == Some(m) && k.material.Some? && IsEntryIn(ms, k) && Leaf(k) == f
  {
    if ms != [] {
      LocateInMaterialsSound(m, ms[1..], f);
      if !OccursInMaterial(ms[0], f) {
        if exists j :: 0 <= j < |ms| && OccursInMaterial(ms[j], f) {
          var j :| 0 <= j < |ms| && OccursInMaterial(ms[j], f);
          assert ms[1..][j - 1] == ms[j];
        }
        if LocateInMaterials(m, ms, f).Some? {
          var k := LocateInMaterials(m, ms, f).value;
          var j :| 0 <= j < |ms[1..]| && ms[1..][j].key == k.material.value
                   && (k.texture.None? || k.texture.value in ms[1..][j].textures);
          assert ms[j + 1] == ms[1..][j];
        }
      }
    }
  }

  /**
   * The search succeeds exactly when `f` occurs in the tree, and what it
   * reports is an entry of the tree whose path is `f`.
   */
  lemma {:induction false} LocateSound(t: Tree, f: string)
    ensures Locate(t, f).Some? <==> Occurs(t, f)
    ensures Locate(t, f).Some? ==> IsEntry(t, Locate(t, f).value) && Leaf(Locate(t, f).value) == f
  {
    if t != [] {
      LocateSound(t[1..], f);
      LocateInMaterialsSound(t[0].key, t[0].materials, f);
      if Occurs(t, f) && !OccursInNode(t[0], f) {
        var i :| 0 <= i < |t| && OccursInNode(t[i], f);
        assert t[1..][i - 1] == t[i];
      }
      if Occurs(t[1..], f) {
        var i :| 0 <= i < |t[1..]| && OccursInNode(t[1..][i], f);
        assert t[i + 1] == t[1..][i];
      }
      if t[0].key != f && LocateInMaterials(t[0].key, t[0].materials, f).None? && Locate(t[1..], f).Some? {
        var k := Locate(t[1..], f).value;
        var i :| 0 <= i < |t[1..]| && t[1..][i].key == k.model.value && IsEntryIn(t[1..][i].materials, k);
        assert t[i + 1] == t[1..][i];
      }
    }
  }

  /**
   * `GetFileKeys` (ItemViewControl.xaml.cs:1004-1041). `files` is `None`
   * while the field is null; `file` is `None` for a null path.
   */
  function GetFileKeys(files: Option<Tree>, file: Option<string>): (r: FileKeys)
    ensures r.model.None? <==> file.None? || file.value == Blank || files.None?
    ensures r.model.None? ==> r == NoTarget
  {
    if file.None? || file.value == Blank then NoTarget
    else if files.None? then NoTarget
    else
      match Locate(files.value, file.value)
      case Some(k) => k
      case None => NotInTree
  }

  /**
   * What `GetFileKeys` promises for a non-empty path in a loaded tree: an
   * absent path yields `("!", null, null)`; a present one yields the first
   * entry, in traversal order, that holds it.
   */
  lemma GetFileKeysSpec(t: Tree, f: string)
    requires f != Blank
    ensures !Occurs(t, f) ==> GetFileKeys(Some(t), Some(f)) == NotInTree
    ensures Occurs(t, f) ==>
              var k := GetFileKeys(Some(t), Some(f));
              IsEntry(t, k) && Leaf(k) == f && Some(k) == FirstMatch(Entries(t), f)
  {
    LocateSound(t, f);
    LocateIsFirstMatch(t, f);
    FirstMatchSpec(Entries(t), f);
  }

  // ---------------------------------------------------------------------
  // RemoveFile

  /** Drops the entry `k` names; a model or material goes with everything under it. */
  function RemoveEntry(t: Tree, k: FileKeys): (r: Tree)
    requires IsEntry(t, k)
    ensures k.material.None? ==> |r| + 1 == |t|
    ensures k.material.Some? ==> ModelKeys(r) == ModelKeys(t)
    ensures k.texture.Some? ==>
              forall i :: 0 <= i < |t| ==> MaterialKeys(r[i].materials) == MaterialKeys(t[i].materials)
  {
    var i := FindModel(t, k.model.value).value;
    var ms := t[i].materials;
    if k.material.None? then t[..i] + t[i + 1..]
    else
      match FindMaterial(ms, k.material.value)
      case None => t
      case Some(j) =>
        if k.texture.None? then t[i := ModelNode(t[i].key, ms[..j] + ms[j + 1..])]
        else
          var mn := MaterialNode(ms[j].key, RemoveFirst(ms[j].textures, k.texture.value));
          t[i := ModelNode(t[i].key, ms[j := mn])]
  }

  /**
   * `RemoveFile` (ItemViewControl.xaml.cs:1043-1071): removes the first
   * entry holding `f` and reports whether there was one.
   */
  function RemovePath(t: Tree, f: string): (r: (Tree, bool))
    ensures r.1 <==> Occurs(t, f)
    ensures !r.1 ==> r.0 == t
  {
    LocateSound(t, f);
    match Locate(t, f)
    case None => (t, false)
    case Some(k) => (RemoveEntry(t, k), true)
  }

  /**
   * Removal of a texture path found at material `j` of model `i`: only
   * that texture set changes, and it loses exactly that path; every key at
   * every level stays, even a set that becomes empty.
   */
  lemma RemoveTexturePath(t: Tree, f: string, i: nat, j: nat)
    requires WellFormed(t) && f != Blank
    requires i < |t| && j < |t[i].materials|
    requires GetFileKeys(Some(t), Some(f)) == FileKeys(Some(t[i].key), Some(t[i].materials[j].key), Some(f))
    ensures var r := RemovePath(t, f);
            && r.1
            && ModelKeys(r.0) == ModelKeys(t)
            && (forall x :: 0 <= x < |t| && x != i ==> r.0[x] == t[x])
            && MaterialKeys(r.0[i].materials) == MaterialKeys(t[i].materials)
            && (forall y :: 0 <= y < |t[i].materials| && y != j ==> r.0[i].materials[y] == t[i].materials[y])
            && r.0[i].materials[j].textures == RemoveFirst(t[i].materials[j].textures, f)
            && f !in r.0[i].materials[j].textures
  {
    var ms := t[i].materials;
    ModelKeyUnique(t, i, t[i].key);
    MaterialKeyUnique(ms, j, ms[j].key);
    RemoveFirstDistinct(ms[j].textures, f);
    var r := RemovePath(t, f).0;
    assert r == t[i := ModelNode(t[i].key, ms[j := MaterialNode(ms[j].key, RemoveFirst(ms[j].textures, f))])];
    assert ModelKeys(r) == ModelKeys(t);
    assert MaterialKeys(r[i].materials) == MaterialKeys(ms);
  }

  /**
   * Removal of a material path found under model `i`: that model loses
   * that one material (with its textures); nothing else changes, and no
   * blank entry is put back when the model is left without materials.
   */
  lemma RemoveMaterialPath(t: Tree, f: string, i: nat, j: nat)
    requires WellFormed(t) && f != Blank
    requires i < |t| && j < |t[i].materials| && t[i].materials[j].key == f
    requires GetFileKeys(Some(t), Some(f)) == FileKeys(Some(t[i].key), Some(f), None)
    ensures var r := RemovePath(t, f);
            && r.1
            && ModelKeys(r.0) == ModelKeys(t)
            && (forall x :: 0 <= x < |t| && x != i ==> r.0[x] == t[x])
            && r.0[i].materials == t[i].materials[..j] + t[i].materials[j + 1..]
            && MaterialKeys(r.0[i].materials) == RemoveFirst(MaterialKeys(t[i].materials), f)
  {
    var ms := t[i].materials;
    ModelKeyUnique(t, i, t[i].key);
    MaterialKeyUnique(ms, j, f);
    var r := RemovePath(t, f).0;
    assert r == t[i := ModelNode(t[i].key, ms[..j] + ms[j + 1..])];
    assert ModelKeys(r) == ModelKeys(t);
    MaterialKeysDrop(ms, j);
    DropAtDistinct(MaterialKeys(ms), j);
  }

  /** Removal of a model path drops that model with all its materials and keeps the other models in order. */
  lemma RemoveModelPath(t: Tree, f: string, i: nat)
    requires WellFormed(t) && f != Blank
    requires i < |t| && t[i].key == f
    requires GetFileKeys(Some(t), Some(f)) == FileKeys(Some(f), None, None)
    ensures var r := RemovePath(t, f);
            && r.1
            && r.0 == t[..i] + t[i + 1..]
            && ModelKeys(r.0) == RemoveFirst(ModelKeys(t), f)
  {
    ModelKeyUnique(t, i, f);
    var keys := ModelKeys(t);
    var k := FileKeys(Some(f), None, None);
    assert OccursInNode(t[i], f);
    LocateSound(t, f);
    assert Locate(t, f) == Some(k);
    assert FindModel(t, f) == Some(i);
    var r := RemovePath(t, f).0;
    assert r == RemoveEntry(t, k) == t[..i] + t[i + 1..];
    RemoveFirstAt(keys, f);
    assert ModelKeys(r) == keys[..i] + keys[i + 1..];
  }

  /** Replacing one model node by a well-formed node with the same key keeps the tree well formed. */
  lemma WellFormedReplace(t: Tree, i: nat, n: ModelNode)
    requires WellFormed(t) && i < |t| && n.key == t[i].key && NodeWellFormed(n)
    ensures WellFormed(t[i := n])
  {
    assert ModelKeys(t[i := n]) == ModelKeys(t);
  }

  /** Dropping one model node keeps the tree well formed. */
  lemma WellFormedDrop(t: Tree, i: nat)
    requires WellFormed(t) && i < |t|
    ensures WellFormed(t[..i] + t[i + 1..])
  {
    ModelKeysDrop(t, i);
    DropAtDistinct(ModelKeys(t), i);
    var r := t[..i] + t[i + 1..];
    forall x | 0 <= x < |r| ensures NodeWellFormed(r[x]) {
      DropIndex(t, i, x);
    }
  }

  /** Dropping material `j` of model `i` keeps the tree well formed. */
  lemma WellFormedDropMaterial(t: Tree, i: nat, j: nat)
    requires WellFormed(t) && i < |t| && j < |t[i].materials|
    ensures WellFormed(t[i := ModelNode(t[i].key, t[i].materials[..j] + t[i].materials[j + 1..])])
  {
    var ms := t[i].materials;
    var ms' := ms[..j] + ms[j + 1..];
    MaterialKeysDrop(ms, j);
    DropAtDistinct(MaterialKeys(ms), j);
    forall x | 0 <= x < |ms'| ensures Distinct(ms'[x].textures) {
      DropIndex(ms, j, x);
    }
    WellFormedReplace(t, i, ModelNode(t[i].key, ms'));
  }

  /** Removing one path from texture set `j` of model `i` keeps the tree well formed. */
  lemma WellFormedRemoveTexture(t: Tree, i: nat, j: nat, f: string)
    requires WellFormed(t) && i < |t| && j < |t[i].materials|
    ensures var ms := t[i].materials;
            WellFormed(t[i := ModelNode(t[i].key, ms[j := MaterialNode(ms[j].key, RemoveFirst(ms[j].textures, f))])])
  {
    var ms := t[i].materials;
    var ms' := ms[j := MaterialNode(ms[j].key, RemoveFirst(ms[j].textures, f))];
    RemoveFirstDistinct(ms[j].textures, f);
    assert MaterialKeys(ms') == MaterialKeys(ms);
    WellFormedReplace(t, i, ModelNode(t[i].key, ms'));
  }

  lemma RemoveEntryWellFormed(t: Tree, k: FileKeys)
    requires WellFormed(t) && IsEntry(t, k)
    ensures WellFormed(RemoveEntry(t, k))
  {
    var i := FindModel(t, k.model.value).value;
    var ms := t[i].materials;
    if k.material.None? {
      WellFormedDrop(t, i);
    } else if FindMaterial(ms, k.material.value).Some? {
      var j := FindMaterial(ms, k.material.value).value;
      if k.texture.None? {
        WellFormedDropMaterial(t, i, j);
      } else {
        WellFormedRemoveTexture(t, i, j, k.texture.value);
      }
    }
  }

  /** Removing an entry keeps every level free of duplicates. */
  lemma RemovePathWellFormed(t: Tree, f: string)
    requires WellFormed(t)
    ensures WellFormed(RemovePath(t, f).0)
  {
    LocateSound(t, f);
    if Locate(t, f).Some? {
      RemoveEntryWellFormed(t, Locate(t, f).value);
    }
  }

  // ---------------------------------------------------------------------
  // SafeAddFile

  /** The material list of model `m`, empty when `m` is not a key. */
  function MaterialsOf(t: Tree, m: string): seq<MaterialNode> {
    match FindModel(t, m)
    case Some(i) => t[i].materials
    case None => []
  }

  /** The texture paths of material `mat` under model `m`, empty when absent. */
  function TexturesOf(t: Tree, m: string, mat: string): seq<string> {
    var ms := MaterialsOf(t, m);
    match FindMaterial(ms, mat)
    case Some(j) => ms[j].textures
    case None => []
  }

  /** Under distinct keys, an entry is a chain of keys each present under the previous one. */
  lemma IsEntryByKeys(t: Tree, m: string, mat: Option<string>, tex: Option<string>)
    requires WellFormed(t) && (tex.Some? ==> mat.Some?)
    ensures IsEntry(t, FileKeys(Some(m), mat, tex)) <==>
              && m in ModelKeys(t)
              && (mat.Some? ==> mat.value in MaterialKeys(MaterialsOf(t, m)))
              && (tex.Some? ==> tex.value in TexturesOf(t, m, mat.value))
  {
    var k := FileKeys(Some(m), mat, tex);
    if IsEntry(t, k) {
      var i :| 0 <= i < |t| && t[i].key == m && IsEntryIn(t[i].materials, k);
      ModelKeyUnique(t, i, m);
      if mat.Some? {
        var j :| 0 <= j < |t[i].materials| && t[i].materials[j].key == mat.value
                 && (tex.None? || tex.value in t[i].materials[j].textures);
        MaterialKeyUnique(t[i].materials, j, mat.value);
        assert MaterialKeys(MaterialsOf(t, m))[j] == mat.value;
      }
    }
    if m in ModelKeys(t) && (mat.Some? ==> mat.value in MaterialKeys(MaterialsOf(t, m)))
       && (tex.Some? ==> tex.value in TexturesOf(t, m, mat.value)) {
      var i := FindModel(t, m).value;
      if mat.Some? {
        var j := FindMaterial(t[i].materials, mat.value).value;
        assert IsEntryIn(t[i].materials, k);
      }
    }
  }

  /** Node `b` keeps every key of node `a` at the same position and every texture path of it. */
  predicate Extends(a: ModelNode, b: ModelNode) {
    && a.key == b.key
    && |a.materials| <= |b.materials|
    && forall j :: 0 <= j < |a.materials| ==>
         && b.materials[j].key == a.materials[j].key
         && forall x :: x in a.materials[j].textures ==> x in b.materials[j].textures
  }

  lemma ExtendsKeepsEntries(t: Tree, i: nat, n: ModelNode)
    requires i < |t| && Extends(t[i], n)
    ensures forall k :: IsEntry(t, k) ==> IsEntry(t[i := n], k)
  {
    var r := t[i := n];
    forall k | IsEntry(t, k) ensures IsEntry(r, k) {
      var x :| 0 <= x < |t| && t[x].key == k.model.value && IsEntryIn(t[x].materials, k);
      if x == i {
        if k.material.Some? {
          var y :| 0 <= y < |t[x].materials| && t[x].materials[y].key == k.material.value
                   && (k.texture.None? || k.texture.value in t[x].materials[y].textures);
          assert r[i].materials[y].key == k.material.value
                 && (k.texture.None? || k.texture.value in r[i].materials[y].textures);
        }
        assert r[x].key == k.model.value && IsEntryIn(r[x].materials, k);
      } else {
        assert r[x] == t[x];
      }
    }
  }

  /** `Files.Add(model, new Dictionary())` unless the model is already a key. */
  function AddModelKey(t: Tree, m: string): (r: Tree)
    ensures m in ModelKeys(r)
    ensures m in ModelKeys(t) ==> r == t
    ensures m !in ModelKeys(t) ==> r == t + [ModelNode(m, [])] && ModelKeys(r) == ModelKeys(t) + [m]
  {
    if m in ModelKeys(t) then t
    else
      var r := t + [ModelNode(m, [])];
      assert ModelKeys(r)[|t|] == m;
      r
  }

  /** `Files[model].Add(material, new HashSet())` unless the material is already a key there. */
  function AddMaterialKey(t: Tree, m: string, mat: string): (r: Tree)
    requires m in ModelKeys(t)
    ensures ModelKeys(r) == ModelKeys(t)
    ensures mat in MaterialKeys(MaterialsOf(r, m))
    ensures mat in MaterialKeys(MaterialsOf(t, m)) ==> r == t
    ensures mat !in MaterialKeys(MaterialsOf(t, m)) ==>
              MaterialKeys(MaterialsOf(r, m)) == MaterialKeys(MaterialsOf(t, m)) + [mat]
  {
    var i := FindModel(t, m).value;
    var ms := t[i].materials;
    if mat in MaterialKeys(ms) then t
    else
      var r := t[i := ModelNode(m, ms + [MaterialNode(mat, [])])];
      assert ModelKeys(r) == ModelKeys(t);
      assert MaterialKeys(MaterialsOf(r, m))[|ms|] == mat;
      r
  }

  /** `Files[model][material].Add(texture)` unless the path is already in that set. */
  function AddTextureKey(t: Tree, m: string, mat: string, tex: string): (r: Tree)
    requires m in ModelKeys(t) && mat in MaterialKeys(MaterialsOf(t, m))
    ensures ModelKeys(r) == ModelKeys(t)
    ensures MaterialKeys(MaterialsOf(r, m)) == MaterialKeys(MaterialsOf(t, m))
    ensures tex in TexturesOf(r, m, mat)
    ensures tex in TexturesOf(t, m, mat) ==> r == t
    ensures tex !in TexturesOf(t, m, mat) ==> TexturesOf(r, m, mat) == TexturesOf(t, m, mat) + [tex]
  {
    var i := FindModel(t, m).value;
    var ms := t[i].materials;
    var j := FindMaterial(ms, mat).value;
    if tex in ms[j].textures then t
    else
      var r := t[i := ModelNode(m, ms[j := MaterialNode(mat, ms[j].textures + [tex])])];
      assert ModelKeys(r) == ModelKeys(t);
      assert MaterialKeys(MaterialsOf(r, m)) == MaterialKeys(ms);
      r
  }

  /**
   * A present model leaves the tree as it is; a new one is appended with
   * no materials. Keys stay unique, no entry is lost, and the only new
   * entry is the model alone.
   */
  lemma AddModelKeySpec(t: Tree, m: string)
    requires WellFormed(t)
    ensures var r := AddModelKey(t, m);
            && WellFormed(r)
            && (m in ModelKeys(t) ==> r == t)
            && (m !in ModelKeys(t) ==>
                  ModelKeys(r) == ModelKeys(t) + [m] && r[..|t|] == t && r[|t|].materials == [])
            && (forall k :: IsEntry(t, k) ==> IsEntry(r, k))
            && (forall k :: IsEntry(r, k) ==> IsEntry(t, k) || k == FileKeys(Some(m), None, None))
  {
    var r := AddModelKey(t, m);
    if m !in ModelKeys(t) {
      assert ModelKeys(r) == ModelKeys(t) + [m];
      DistinctSnoc(ModelKeys(t), m);
      assert r[..|t|] == t;
      forall k | IsEntry(t, k) ensures IsEntry(r, k) {
        var x :| 0 <= x < |t| && t[x].key == k.model.value && IsEntryIn(t[x].materials, k);
        assert r[x] == t[x];
      }
      forall k | IsEntry(r, k) ensures IsEntry(t, k) || k == FileKeys(Some(m), None, None) {
        var x :| 0 <= x < |r| && r[x].key == k.model.value && IsEntryIn(r[x].materials, k);
        if x < |t| {
          assert r[x] == t[x];
        }
      }
    }
  }

  /**
   * A material already under model `m` leaves the tree as it is; a new one
   * is appended to that model's materials with no textures, and no other
   * model changes. Keys stay unique, no entry is lost, and the only new
   * entry is the model with that material.
   */
  lemma AddMaterialKeySpec(t: Tree, m: string, mat: string)
    requires WellFormed(t) && m in ModelKeys(t)
    ensures var r := AddMaterialKey(t, m, mat);
            && WellFormed(r)
            && (mat in MaterialKeys(MaterialsOf(t, m)) ==> r == t)
            && (mat !in MaterialKeys(MaterialsOf(t, m)) ==>
                  && MaterialsOf(r, m) == MaterialsOf(t, m) + [MaterialNode(mat, [])]
                  && |r| == |t|
                  && forall x :: 0 <= x < |t| && t[x].key != m ==> r[x] == t[x])
            && (forall k :: IsEntry(t, k) ==> IsEntry(r, k))
            && (forall k :: IsEntry(r, k) ==> IsEntry(t, k) || k == FileKeys(Some(m), Some(mat), None))
  {
    var i := FindModel(t, m).value;
    var ms := t[i].materials;
    if mat !in MaterialKeys(ms) {
      var n := ModelNode(m, ms + [MaterialNode(mat, [])]);
      var r := t[i := n];
      assert MaterialKeys(n.materials) == MaterialKeys(ms) + [mat];
      WellFormedReplace(t, i, n);
      ExtendsKeepsEntries(t, i, n);
      ModelKeyUnique(r, i, m);
      AppendMaterialEntries(ms, mat);
      ReplaceOnlyNew(t, i, n, FileKeys(Some(m), Some(mat), None));
    }
  }

  /**
   * A texture already in its material's set leaves the tree as it is; a
   * new one is appended to that set alone, and no key changes. Keys stay
   * unique, no entry is lost, and the only new entry is the full chain to
   * that texture.
   */
  lemma AddTextureKeySpec(t: Tree, m: string, mat: string, tex: string)
    requires WellFormed(t) && m in ModelKeys(t) && mat in MaterialKeys(MaterialsOf(t, m))
    ensures var r := AddTextureKey(t, m, mat, tex);
            && WellFormed(r)
            && (tex in TexturesOf(t, m, mat) ==> r == t)
            && (tex !in TexturesOf(t, m, mat) ==>
                  && TexturesOf(r, m, mat) == TexturesOf(t, m, mat) + [tex]
                  && |r| == |t|
                  && (forall x :: 0 <= x < |t| && t[x].key != m ==> r[x] == t[x])
                  && |MaterialsOf(r, m)| == |MaterialsOf(t, m)|
                  && forall j :: 0 <= j < |MaterialsOf(t, m)| && MaterialsOf(t, m)[j].key != mat ==>
                       MaterialsOf(r, m)[j] == MaterialsOf(t, m)[j])
            && (forall k :: IsEntry(t, k) ==> IsEntry(r, k))
            && (forall k :: IsEntry(r, k) ==> IsEntry(t, k) || k == FileKeys(Some(m), Some(mat), Some(tex)))
  {
    var i := FindModel(t, m).value;
    var ms := t[i].materials;
    var j := FindMaterial(ms, mat).value;
    if tex !in ms[j].textures {
      var n := ModelNode(m, ms[j := MaterialNode(mat, ms[j].textures + [tex])]);
      var r := t[i := n];
      assert MaterialKeys(n.materials) == MaterialKeys(ms);
      WellFormedReplace(t, i, n);
      ExtendsKeepsEntries(t, i, n);
      ModelKeyUnique(r, i, m);
      MaterialKeyUnique(n.materials, j, mat);
      AddTextureEntries(ms, j, tex);
      ReplaceOnlyNew(t, i, n, FileKeys(Some(m), Some(mat), Some(tex)));
    }
  }

  /** Replacing one model node whose only new entry is `extra` adds no other entry to the tree. */
  lemma ReplaceOnlyNew(t: Tree, i: nat, n: ModelNode, extra: FileKeys)
    requires i < |t| && n.key == t[i].key
    requires forall k: FileKeys :: k.model == Some(n.key) && IsEntryIn(n.materials, k) ==>
               IsEntryIn(t[i].materials, k) || k == extra
    ensures forall k :: IsEntry(t[i := n], k) ==> IsEntry(t, k) || k == extra
  {
    var r := t[i := n];
    forall k | IsEntry(r, k) ensures IsEntry(t, k) || k == extra {
      var x :| 0 <= x < |r| && r[x].key == k.model.value && IsEntryIn(r[x].materials, k);
      if x != i {
        assert r[x] == t[x];
      }
    }
  }

  /** A material appended with no textures adds only the entry ending at it. */
  lemma AppendMaterialEntries(ms: seq<MaterialNode>, mat: string)
    ensures forall k :: IsEntryIn(ms + [MaterialNode(mat, [])], k) ==>
              IsEntryIn(ms, k) || (k.material == Some(mat) && k.texture.None?)
  {
    var ns := ms + [MaterialNode(mat, [])];
    forall k | IsEntryIn(ns, k) && k.material.Some?
      ensures IsEntryIn(ms, k) || (k.material == Some(mat) && k.texture.None?)
    {
      var y :| 0 <= y < |ns| && ns[y].key == k.material.value
               && (k.texture.None? || k.texture.value in ns[y].textures);
      if y < |ms| {
        assert ns[y] == ms[y];
      }
    }
  }

  /** A texture appended to material `j` adds only the entry ending at it. */
  lemma AddTextureEntries(ms: seq<MaterialNode>, j: nat, tex: string)
    requires j < |ms|
    ensures forall k :: IsEntryIn(ms[j := MaterialNode(ms[j].key, ms[j].textures + [tex])], k) ==>
              IsEntryIn(ms, k) || (k.material == Some(ms[j].key) && k.texture == Some(tex))
  {
    var ns := ms[j := MaterialNode(ms[j].key, ms[j].textures + [tex])];
    forall k | IsEntryIn(ns, k) && k.material.Some?
      ensures IsEntryIn(ms, k) || (k.material == Some(ms[j].key) && k.texture == Some(tex))
    {
      var y :| 0 <= y < |ns| && ns[y].key == k.material.value
               && (k.texture.None? || k.texture.value in ns[y].textures);
      if y != j {
        assert ns[y] == ms[y];
      } else if k.texture.Some? && k.texture.value != tex {
        assert k.texture.value in ms[j].textures;
      }
    }
  }

  /**
   * The three conditional insertions of ItemViewControl.xaml.cs:1135-1151;
   * the flag reports whether any of them added something.
   */
  function AddKeys(t: Tree, m: string, mat: Option<string>, tex: Option<string>): (r: (Tree, bool))
    requires tex.Some? ==> mat.Some?
    ensures m in ModelKeys(r.0)
    ensures mat.Some? ==> mat.value in MaterialKeys(MaterialsOf(r.0, m))
    ensures tex.Some? ==> tex.value in TexturesOf(r.0, m, mat.value)
    ensures (&& m in ModelKeys(t)
             && (mat.Some? ==> mat.value in MaterialKeys(MaterialsOf(t, m)))
             && (tex.Some? ==> tex.value in TexturesOf(t, m, mat.value))) ==> r == (t, false)
  {
    var t1 := AddModelKey(t, m);
    var t2 := if mat.Some? then AddMaterialKey(t1, m, mat.value) else t1;
    var t3 := if tex.Some? then AddTextureKey(t2, m, mat.value, tex.value) else t2;
    (t3, t3 != t)
  }

  /**
   * After an insertion every requested key is an entry of the tree; the
   * tree changes exactly when one of them was missing; every entry that was
   * there stays; the only new entries are the requested chain of keys; and
   * keys stay unique.
   */
  lemma AddKeysSpec(t: Tree, m: string, mat: Option<string>, tex: Option<string>)
    requires WellFormed(t)
    requires tex.Some? ==> mat.Some?
    ensures var r := AddKeys(t, m, mat, tex);
            && WellFormed(r.0)
            && IsEntry(r.0, FileKeys(Some(m), mat, tex))
            && (r.1 <==> !IsEntry(t, FileKeys(Some(m), mat, tex)))
            && (!r.1 ==> r.0 == t)
            && (forall k :: IsEntry(t, k) ==> IsEntry(r.0, k))
            && (forall k :: IsEntry(r.0, k) ==>
                  || IsEntry(t, k)
                  || k == FileKeys(Some(m), None, None)
                  || k == FileKeys(Some(m), mat, None)
                  || k == FileKeys(Some(m), mat, tex))
  {
    var t1 := AddModelKey(t, m);
    var t2 := if mat.Some? then AddMaterialKey(t1, m, mat.value) else t1;
    var t3 := if tex.Some? then AddTextureKey(t2, m, mat.value, tex.value) else t2;
    AddModelKeySpec(t, m);
    if mat.Some? { AddMaterialKeySpec(t1, m, mat.value); }
    if tex.Some? { AddTextureKeySpec(t2, m, mat.value, tex.value); }
    IsEntryByKeys(t3, m, mat, tex);
    IsEntryByKeys(t, m, mat, tex);
  }
}
