/**
 * How an item view fills its `Files` tree (ItemViewControl.xaml.cs:620-772):
 * model paths first, then the materials of each model and the orphan
 * materials, then the texture paths of every material. Each stage is a
 * function over the tree; the class in module ItemView runs the loops that
 * compute them. A `Dictionary.Add` of a key that is present, or `First()`
 * on an empty dictionary, throws: such a stage yields `ok == false` with
 * the tree as it stood when the exception left it.
 */
module TreeBuilder {
  import opened Wrappers
  import opened Lists
  import opened FileTree

  /**
   * What the dependency root of the selected item answers. The lookups
   * into game files are given as values and functions.
   */
  datatype RootInfo = RootInfo(
    /** What tells two roots apart when they are compared. */
    id: string,
    /** The primary type is `human` and the secondary type is `body`. */
    isHumanBody: bool,
    /** The root has a secondary type at all. */
    hasSecondaryType: bool,
    /** `GetModelFiles`: model paths in the order they are reported. */
    modelFiles: seq<string>,
    /** `GetMaterialFiles(-1, ...)`: every material of the root. */
    materialFiles: seq<string>,
    /** `GetVariantShiftedMaterials(model, materialSet)`. */
    variantShiftedMaterials: (string, int) -> seq<string>,
    /** `GetOrphanMaterials(materialSet)`. */
    orphanMaterials: int -> seq<string>,
    /** `IOUtil.GetSecondaryIdFromFileName`, `None` standing for null. */
    secondaryId: string -> Option<string>)

  /** The tree after a stage, and whether the stage ran without throwing. */
  datatype Outcome = Outcome(tree: Tree, ok: bool)

  const BlankModel := ModelNode(Blank, [])
  const BlankMaterial := MaterialNode(Blank, [])

  // ---------------------------------------------------------------------
  // GetModels (ItemViewControl.xaml.cs:620-641)

  /** `Files.Add(m, ...)` for each model path in order; a repeated path throws. */
  function InsertModels(t: Tree, ms: seq<string>): (r: Outcome)
    ensures |t| <= |r.tree| <= |t| + |ms| && r.tree[..|t|] == t
    ensures r.ok ==> |r.tree| == |t| + |ms|
    ensures forall i :: |t| <= i < |r.tree| ==> r.tree[i].materials == []
    decreases |ms|
  {
    if ms == [] then Outcome(t, true)
    else
      var p := InsertModels(t, ms[..|ms| - 1]);
      var m := ms[|ms| - 1];
      if !p.ok then p
      else if m in ModelKeys(p.tree) then Outcome(p.tree, false)
      else Outcome(p.tree + [ModelNode(m, [])], true)
  }

  /** Once a path repeats, the rest of the list is never reached. */
  lemma {:induction false} InsertModelsFailed(t: Tree, ms: seq<string>, k: nat)
    requires k <= |ms| && !InsertModels(t, ms[..k]).ok
    ensures InsertModels(t, ms) == InsertModels(t, ms[..k])
    decreases |ms|
  {
    if k < |ms| {
      var ms' := ms[..|ms| - 1];
      assert ms'[..k] == ms[..k];
      InsertModelsFailed(t, ms', k);
    } else {
      assert ms[..k] == ms;
    }
  }

  /** The model level is rebuilt from scratch; a blank model stands in when there is none. */
  function ModelLevel(root: Option<RootInfo>): (r: Outcome)
    ensures root.None? ==> r.ok && ModelKeys(r.tree) == [Blank]
    ensures r.ok ==> |r.tree| > 0
    ensures root.Some? && r.ok && root.value.modelFiles != [] ==> |r.tree| == |root.value.modelFiles|
    ensures forall i :: 0 <= i < |r.tree| ==> r.tree[i].materials == []
  {
    if root.None? then Outcome([BlankModel], true)
    else
      var r := InsertModels([], root.value.modelFiles);
      if r.ok && r.tree == [] then Outcome([BlankModel], true) else r
  }

  lemma {:induction false} InsertModelsSpec(ms: seq<string>)
    ensures var r := InsertModels([], ms);
            && (r.ok <==> Distinct(ms))
            && (r.ok ==> ModelKeys(r.tree) == ms)
            && WellFormed(r.tree)
            && forall i :: 0 <= i < |r.tree| ==> r.tree[i].materials == []
  {
    if ms != [] {
      var ms' := ms[..|ms| - 1];
      var m := ms[|ms| - 1];
      assert ms == ms' + [m];
      InsertModelsSpec(ms');
      DistinctSnoc(ms', m);
      var p := InsertModels([], ms');
      if p.ok && m !in ModelKeys(p.tree) {
        AppendBareModel(p.tree, m);
      } else if !p.ok {
        assert !Distinct(ms) by {
          var i, j :| 0 <= i < j < |ms'| && ms'[i] == ms'[j];
          assert ms[i] == ms[j];
        }
      }
    }
  }

  /** Appending a model with a fresh key and no materials keeps a bare tree well formed. */
  lemma AppendBareModel(t: Tree, m: string)
    requires WellFormed(t) && m !in ModelKeys(t)
    requires forall i :: 0 <= i < |t| ==> t[i].materials == []
    ensures var r := t + [ModelNode(m, [])];
            && ModelKeys(r) == ModelKeys(t) + [m]
            && WellFormed(r)
            && forall i :: 0 <= i < |r| ==> r[i].materials == []
  {
    var r := t + [ModelNode(m, [])];
    assert ModelKeys(r) == ModelKeys(t) + [m];
    DistinctSnoc(ModelKeys(t), m);
  }

  /**
   * GetModels leaves a well-formed, non-empty model level with no
   * materials yet: the reported paths in order, or a single blank model
   * when there is no root or no path; it fails exactly when a path repeats.
   */
  lemma ModelLevelSpec(root: Option<RootInfo>)
    ensures var r := ModelLevel(root);
            && (root.None? ==> r == Outcome([BlankModel], true))
            && (root.Some? ==> (r.ok <==> Distinct(root.value.modelFiles)))
            && (root.Some? && r.ok ==>
                  ModelKeys(r.tree) == if root.value.modelFiles == [] then [Blank] else root.value.modelFiles)
            && WellFormed(r.tree)
            && (r.ok ==> |r.tree| > 0)
            && forall i :: 0 <= i < |r.tree| ==> r.tree[i].materials == []
  {
    if root.Some? {
      InsertModelsSpec(root.value.modelFiles);
    }
    assert ModelKeys([BlankModel]) == [Blank];
  }

  // ---------------------------------------------------------------------
  // GetMaterials (ItemViewControl.xaml.cs:648-737)

  /** `if (!ContainsKey(mat)) Add(mat, new HashSet())` for each material in order. */
  function InsertMaterials(ms: seq<MaterialNode>, mats: seq<string>): seq<MaterialNode>
    decreases |mats|
  {
    if mats == [] then ms
    else
      var p := InsertMaterials(ms, mats[..|mats| - 1]);
      var mat := mats[|mats| - 1];
      if mat in MaterialKeys(p) then p else p + [MaterialNode(mat, [])]
  }

  /**
   * The material keys become the set union of the old keys and the new
   * paths, in first-insertion order; old materials are kept as they were
   * and new ones start without textures.
   */
  lemma InsertMaterialsSpec(ms: seq<MaterialNode>, mats: seq<string>)
    ensures var r := InsertMaterials(ms, mats);
            && MaterialKeys(r) == AddAll(MaterialKeys(ms), mats)
            && |ms| <= |r| && r[..|ms|] == ms
            && forall j :: |ms| <= j < |r| ==> r[j].textures == []
  {
    InsertMaterialsKeys(ms, mats);
    InsertMaterialsKeeps(ms, mats);
  }

  lemma {:induction false} InsertMaterialsKeys(ms: seq<MaterialNode>, mats: seq<string>)
    ensures MaterialKeys(InsertMaterials(ms, mats)) == AddAll(MaterialKeys(ms), mats)
  {
    if mats != [] {
      var mats' := mats[..|mats| - 1];
      var mat := mats[|mats| - 1];
      InsertMaterialsKeys(ms, mats');
      var p := InsertMaterials(ms, mats');
      assert mats[..|mats| - 1] == mats';
      assert AddAll(MaterialKeys(ms), mats) == AddIfAbsent(MaterialKeys(p), mat);
      if mat in MaterialKeys(p) {
        assert InsertMaterials(ms, mats) == p;
      } else {
        assert InsertMaterials(ms, mats) == p + [MaterialNode(mat, [])];
        assert MaterialKeys(p + [MaterialNode(mat, [])]) == MaterialKeys(p) + [mat];
      }
    }
  }

  lemma {:induction false} InsertMaterialsKeeps(ms: seq<MaterialNode>, mats: seq<string>)
    ensures var r := InsertMaterials(ms, mats);
            && |ms| <= |r| && r[..|ms|] == ms
            && forall j :: |ms| <= j < |r| ==> r[j].textures == []
  {
    if mats != [] {
      var mats' := mats[..|mats| - 1];
      InsertMaterialsKeeps(ms, mats');
      var p := InsertMaterials(ms, mats');
      var r := p + [MaterialNode(mats[|mats| - 1], [])];
      assert r[..|ms|] == p[..|ms|];
    }
  }

  /** Inserting materials keeps a model node free of duplicates. */
  lemma InsertMaterialsWellFormed(n: ModelNode, mats: seq<string>)
    requires NodeWellFormed(n)
    ensures NodeWellFormed(ModelNode(n.key, InsertMaterials(n.materials, mats)))
  {
    InsertMaterialsSpec(n.materials, mats);
    var r := InsertMaterials(n.materials, mats);
    forall j | 0 <= j < |r| ensures Distinct(r[j].textures) {
      if j < |n.materials| { assert r[j] == r[..|n.materials|][j]; }
    }
  }

  function ExtendNode(n: ModelNode, mats: seq<string>): (r: ModelNode)
    ensures r.key == n.key
  {
    ModelNode(n.key, InsertMaterials(n.materials, mats))
  }

  /** The materials each model refers to. */
  function ResolveMaterials(t: Tree, root: RootInfo, materialSet: int): (r: Outcome)
    ensures ModelKeys(r.tree) == ModelKeys(t)
    ensures r.ok <==> !root.isHumanBody || |t| > 0
    ensures root.isHumanBody ==> forall i :: 0 < i < |t| ==> r.tree[i] == t[i]
  {
    if root.isHumanBody then
      if |t| == 0 then Outcome(t, false)
      else Outcome(t[0 := ExtendNode(t[0], root.materialFiles)], true)
    else
      var extended := seq(|t|, i requires 0 <= i < |t| =>
                        ExtendNode(t[i], root.variantShiftedMaterials(t[i].key, materialSet)));
      assert |extended| == |t|;
      assert forall i :: 0 <= i < |t| ==>
        extended[i] == ExtendNode(t[i], root.variantShiftedMaterials(t[i].key, materialSet));
      assert ModelKeys(extended) == ModelKeys(t);
      Outcome(extended, true)
  }

  /** The list `ResolveMaterials` adds to model `i`. */
  function ResolvedFor(t: Tree, root: RootInfo, materialSet: int, i: nat): seq<string>
    requires i < |t|
  {
    if root.isHumanBody then (if i == 0 then root.materialFiles else [])
    else root.variantShiftedMaterials(t[i].key, materialSet)
  }

  /**
   * Resolving materials fails only on a human body with no model; the
   * models stay, and each one's material keys become the union of its
   * old keys and what is resolved for it (human bodies: everything goes to
   * the first model).
   */
  lemma ResolveMaterialsSpec(t: Tree, root: RootInfo, materialSet: int)
    requires WellFormed(t)
    ensures var r := ResolveMaterials(t, root, materialSet);
            && (r.ok <==> !(root.isHumanBody && |t| == 0))
            && ModelKeys(r.tree) == ModelKeys(t)
            && WellFormed(r.tree)
            && forall i :: 0 <= i < |t| ==>
                 MaterialKeys(r.tree[i].materials)
                   == AddAll(MaterialKeys(t[i].materials), ResolvedFor(t, root, materialSet, i))
  {
    var r := ResolveMaterials(t, root, materialSet).tree;
    assert |r| == |t|;
    forall i | 0 <= i < |t|
      ensures r[i] == ExtendNode(t[i], ResolvedFor(t, root, materialSet, i))
      ensures NodeWellFormed(r[i])
    {
      InsertMaterialsWellFormed(t[i], ResolvedFor(t, root, materialSet, i));
      if root.isHumanBody && i != 0 { assert r[i] == t[i]; }
    }
    forall i | 0 <= i < |t|
      ensures MaterialKeys(r[i].materials) == AddAll(MaterialKeys(t[i].materials), ResolvedFor(t, root, materialSet, i))
    {
      InsertMaterialsSpec(t[i].materials, ResolvedFor(t, root, materialSet, i));
    }
    assert ModelKeys(r) == ModelKeys(t);
  }

  /** The first model whose secondary id is `s` (`Files.FirstOrDefault(...)`). */
  function SecondaryMatch(t: Tree, sid: string -> Option<string>, s: Option<string>): (r: Option<nat>)
    ensures r.Some? ==> r.value < |t| && sid(t[r.value].key) == s
    ensures r.Some? ==> forall x :: 0 <= x < r.value ==> sid(t[x].key) != s
    ensures r.None? ==> forall x :: 0 <= x < |t| ==> sid(t[x].key) != s
  {
    if t == [] then None
    else if sid(t[0].key) == s then Some(0)
    else match SecondaryMatch(t[1..], sid, s)
      case None => None
      case Some(i) => Some(i + 1)
  }

  /**
   * One orphan material without a secondary type: it joins the model with
   * the same secondary id if it is absent there; with no such model it is
   * added to the first model unguarded, which throws when that model has it.
   */
  function AttachOrphan(t: Tree, sid: string -> Option<string>, o: string): (r: Outcome)
    ensures ModelKeys(r.tree) == ModelKeys(t)
    ensures !r.ok ==> r.tree == t
  {
    match SecondaryMatch(t, sid, sid(o))
    case Some(i) => Outcome(t[i := ExtendNode(t[i], [o])], true)
    case None =>
      if |t| == 0 || o in MaterialKeys(t[0].materials) then Outcome(t, false)
      else Outcome(t[0 := ModelNode(t[0].key, t[0].materials + [MaterialNode(o, [])])], true)
  }

  /**
   * The model an orphan without a secondary type is meant for: the first
   * with the same secondary id, otherwise the first model.
   */
  function Destination(t: Tree, sid: string -> Option<string>, o: string): nat {
    var m := SecondaryMatch(t, sid, sid(o));
    if m.Some? then m.value else 0
  }

  /** The match depends only on the model keys, which attaching orphans never changes. */
  lemma SecondaryMatchKeys(a: Tree, b: Tree, sid: string -> Option<string>, s: Option<string>)
    requires ModelKeys(a) == ModelKeys(b)
    ensures SecondaryMatch(a, sid, s) == SecondaryMatch(b, sid, s)
  {
    assert forall x :: 0 <= x < |a| ==> a[x].key == ModelKeys(a)[x] == ModelKeys(b)[x] == b[x].key;
  }

  function AttachOrphans(t: Tree, sid: string -> Option<string>, os: seq<string>): (r: Outcome)
    ensures ModelKeys(r.tree) == ModelKeys(t)
    ensures os == [] ==> r == Outcome(t, true)
    decreases |os|
  {
    if os == [] then Outcome(t, true)
    else
      var p := AttachOrphans(t, sid, os[..|os| - 1]);
      if !p.ok then p else AttachOrphan(p.tree, sid, os[|os| - 1])
  }

  /** Once an orphan throws, the rest of the list is never reached. */
  lemma {:induction false} AttachOrphansFailed(t: Tree, sid: string -> Option<string>, os: seq<string>, k: nat)
    requires k <= |os| && !AttachOrphans(t, sid, os[..k]).ok
    ensures AttachOrphans(t, sid, os) == AttachOrphans(t, sid, os[..k])
    decreases |os|
  {
    if k < |os| {
      var os' := os[..|os| - 1];
      assert os'[..k] == os[..k];
      AttachOrphansFailed(t, sid, os', k);
    } else {
      assert os[..k] == os;
    }
  }

  /** The orphan stage: everything to the first model when there is a secondary type. */
  function OrphanStage(t: Tree, root: RootInfo, materialSet: int): (r: Outcome)
    ensures ModelKeys(r.tree) == ModelKeys(t)
    ensures root.hasSecondaryType ==> (r.ok <==> |t| > 0)
  {
    var os := root.orphanMaterials(materialSet);
    if root.hasSecondaryType then
      if |t| == 0 then Outcome(t, false)
      else Outcome(t[0 := ExtendNode(t[0], os)], true)
    else AttachOrphans(t, root.secondaryId, os)
  }

  /**
   * Attaching an orphan keeps the models and their materials. It throws
   * iff no model matches and the first model is missing or already holds
   * the orphan. Otherwise the orphan joins its destination model, with
   * set semantics, and no other model changes.
   */
  lemma AttachOrphanSpec(t: Tree, sid: string -> Option<string>, o: string)
    requires WellFormed(t)
    ensures var r := AttachOrphan(t, sid, o);
            var d := Destination(t, sid, o);
            && ModelKeys(r.tree) == ModelKeys(t)
            && WellFormed(r.tree)
            && (forall i :: 0 <= i < |t| ==> Keeps(t[i], r.tree[i]))
            && (r.ok <==> SecondaryMatch(t, sid, sid(o)).Some? || (|t| > 0 && o !in MaterialKeys(t[0].materials)))
            && (r.ok ==> d < |t| && MaterialKeys(r.tree[d].materials) == AddIfAbsent(MaterialKeys(t[d].materials), o))
            && (forall x :: 0 <= x < |t| && (x != d || !r.ok) ==> r.tree[x] == t[x])
  {
    var m := SecondaryMatch(t, sid, sid(o));
    var r := AttachOrphan(t, sid, o);
    if m.Some? {
      var i := m.value;
      assert Destination(t, sid, o) == i;
      assert r == Outcome(t[i := ExtendNode(t[i], [o])], true);
      AttachToMatch(t, i, o);
    } else if |t| > 0 && o !in MaterialKeys(t[0].materials) {
      assert Destination(t, sid, o) == 0;
      assert r == Outcome(t[0 := ModelNode(t[0].key, t[0].materials + [MaterialNode(o, [])])], true);
      AttachToFirst(t, o);
    } else {
      assert r == Outcome(t, false);
    }
  }

  /** Extending model `i` by one material adds its key with set semantics and touches nothing else. */
  lemma AttachToMatch(t: Tree, i: nat, o: string)
    requires WellFormed(t) && i < |t|
    ensures var r := t[i := ExtendNode(t[i], [o])];
            && ModelKeys(r) == ModelKeys(t)
            && WellFormed(r)
            && (forall x :: 0 <= x < |t| ==> Keeps(t[x], r[x]))
            && (forall x :: 0 <= x < |t| && x != i ==> r[x] == t[x])
            && MaterialKeys(r[i].materials) == AddIfAbsent(MaterialKeys(t[i].materials), o)
  {
    InsertMaterialsWellFormed(t[i], [o]);
    InsertMaterialsSpec(t[i].materials, [o]);
    WellFormedReplace(t, i, ExtendNode(t[i], [o]));
    assert [o][..0] == [];
    assert ModelKeys(t[i := ExtendNode(t[i], [o])]) == ModelKeys(t);
  }

  /** Appending an absent orphan to the first model. */
  lemma AttachToFirst(t: Tree, o: string)
    requires WellFormed(t) && |t| > 0 && o !in MaterialKeys(t[0].materials)
    ensures var r := t[0 := ModelNode(t[0].key, t[0].materials + [MaterialNode(o, [])])];
            && ModelKeys(r) == ModelKeys(t)
            && WellFormed(r)
            && (forall x :: 0 <= x < |t| ==> Keeps(t[x], r[x]))
            && (forall x :: 0 <= x < |t| && x != 0 ==> r[x] == t[x])
            && MaterialKeys(r[0].materials) == AddIfAbsent(MaterialKeys(t[0].materials), o)
  {
    var n := ModelNode(t[0].key, t[0].materials + [MaterialNode(o, [])]);
    assert MaterialKeys(n.materials) == MaterialKeys(t[0].materials) + [o];
    DistinctSnoc(MaterialKeys(t[0].materials), o);
    assert n.materials[..|t[0].materials|] == t[0].materials;
    WellFormedReplace(t, 0, n);
    assert ModelKeys(t[0 := n]) == ModelKeys(t);
  }

  /** Node `b` keeps the key and every material of node `a`, at the same positions. */
  predicate Keeps(a: ModelNode, b: ModelNode) {
    a.key == b.key && |a.materials| <= |b.materials| && b.materials[..|a.materials|] == a.materials
  }

  lemma KeepsTransitive(a: ModelNode, b: ModelNode, c: ModelNode)
    requires Keeps(a, b) && Keeps(b, c)
    ensures Keeps(a, c)
  {
    assert c.materials[..|a.materials|] == c.materials[..|b.materials|][..|a.materials|];
  }

  /** A node that keeps another keeps each of its material keys. */
  lemma KeepsMaterial(a: ModelNode, b: ModelNode, m: string)
    requires Keeps(a, b) && m in MaterialKeys(a.materials)
    ensures m in MaterialKeys(b.materials)
  {
    var j :| 0 <= j < |a.materials| && MaterialKeys(a.materials)[j] == m;
    assert b.materials[j] == a.materials[j];
  }

  /** Every orphan of `os` is a material key of its destination model in `rt`. */
  predicate OrphansPlaced(t: Tree, rt: Tree, sid: string -> Option<string>, os: seq<string>) {
    |rt| == |t| &&
    forall o :: o in os ==> Destination(t, sid, o) < |t| && o in MaterialKeys(rt[Destination(t, sid, o)].materials)
  }

  /** A material key of a model in `rt` was there in `t`, or is an orphan of `os` meant for that model. */
  predicate OnlyOrphansAdded(t: Tree, rt: Tree, sid: string -> Option<string>, os: seq<string>) {
    |rt| == |t| &&
    forall i, x :: 0 <= i < |t| && x in MaterialKeys(rt[i].materials) ==>
      x in MaterialKeys(t[i].materials) || (x in os && Destination(t, sid, x) == i)
  }

  /**
   * Without a secondary type, the orphan loop keeps the models and their
   * materials. When it completes, each orphan is a material key of its
   * destination model, and a model's only new material keys are orphans
   * meant for it.
   */
  lemma {:induction false} AttachOrphansSpec(t: Tree, sid: string -> Option<string>, os: seq<string>)
    requires WellFormed(t)
    ensures var r := AttachOrphans(t, sid, os);
            && ModelKeys(r.tree) == ModelKeys(t)
            && WellFormed(r.tree)
            && (forall i :: 0 <= i < |t| ==> Keeps(t[i], r.tree[i]))
            && (r.ok ==> OrphansPlaced(t, r.tree, sid, os))
            && OnlyOrphansAdded(t, r.tree, sid, os)
  {
    if os != [] {
      var os' := os[..|os| - 1];
      var o := os[|os| - 1];
      assert os == os' + [o];
      AttachOrphansSpec(t, sid, os');
      var p := AttachOrphans(t, sid, os');
      if !p.ok {
        assert AttachOrphans(t, sid, os) == p;
      } else {
        assert AttachOrphans(t, sid, os) == AttachOrphan(p.tree, sid, o);
        AttachOrphansStep(t, p.tree, sid, os', o);
      }
    }
  }

  /** The inductive step of `AttachOrphansSpec`: one more orphan after the earlier ones all succeeded. */
  lemma AttachOrphansStep(t: Tree, pt: Tree, sid: string -> Option<string>, os: seq<string>, o: string)
    requires WellFormed(t) && WellFormed(pt) && ModelKeys(pt) == ModelKeys(t)
    requires forall i :: 0 <= i < |t| ==> Keeps(t[i], pt[i])
    requires OrphansPlaced(t, pt, sid, os) && OnlyOrphansAdded(t, pt, sid, os)
    ensures var r := AttachOrphan(pt, sid, o);
            && ModelKeys(r.tree) == ModelKeys(t)
            && WellFormed(r.tree)
            && (forall i :: 0 <= i < |t| ==> Keeps(t[i], r.tree[i]))
            && (r.ok ==> OrphansPlaced(t, r.tree, sid, os + [o]))
            && OnlyOrphansAdded(t, r.tree, sid, os + [o])
  {
    AttachOrphanSpec(pt, sid, o);
    var r := AttachOrphan(pt, sid, o);
    SecondaryMatchKeys(pt, t, sid, sid(o));
    assert Destination(pt, sid, o) == Destination(t, sid, o);
    assert |pt| == |t| by { assert |ModelKeys(pt)| == |ModelKeys(t)|; }
    forall i | 0 <= i < |t| ensures Keeps(t[i], r.tree[i]) {
      KeepsTransitive(t[i], pt[i], r.tree[i]);
    }
    if r.ok {
      AttachPlacedStep(t, pt, r.tree, sid, os, o);
    }
    AttachProvenanceStep(t, pt, r.tree, sid, os, o, r.ok);
  }

  /** One more orphan placed at its destination keeps the earlier ones where they were put. */
  lemma AttachPlacedStep(t: Tree, pt: Tree, rt: Tree, sid: string -> Option<string>, os: seq<string>, o: string)
    requires |rt| == |t| && OrphansPlaced(t, pt, sid, os)
    requires Destination(t, sid, o) < |t|
    requires MaterialKeys(rt[Destination(t, sid, o)].materials)
               == AddIfAbsent(MaterialKeys(pt[Destination(t, sid, o)].materials), o)
    requires forall x :: 0 <= x < |t| && x != Destination(t, sid, o) ==> rt[x] == pt[x]
    ensures OrphansPlaced(t, rt, sid, os + [o])
  {
    forall o' | o' in os + [o]
      ensures Destination(t, sid, o') < |t| && o' in MaterialKeys(rt[Destination(t, sid, o')].materials)
    {
      if o' != o {
        assert o' in os;
        var i := Destination(t, sid, o');
        if i != Destination(t, sid, o) {
          assert rt[i] == pt[i];
        }
      }
    }
  }

  /** A material key new to a model after one more orphan is that orphan, at its destination. */
  lemma AttachProvenanceStep(t: Tree, pt: Tree, rt: Tree, sid: string -> Option<string>, os: seq<string>,
                             o: string, ok: bool)
    requires |rt| == |t| && OnlyOrphansAdded(t, pt, sid, os)
    requires ok ==> (Destination(t, sid, o) < |t| &&
                     MaterialKeys(rt[Destination(t, sid, o)].materials)
                       == AddIfAbsent(MaterialKeys(pt[Destination(t, sid, o)].materials), o))
    requires forall x :: 0 <= x < |t| && (x != Destination(t, sid, o) || !ok) ==> rt[x] == pt[x]
    ensures OnlyOrphansAdded(t, rt, sid, os + [o])
  {
    forall i, x | 0 <= i < |t| && x in MaterialKeys(rt[i].materials)
      ensures x in MaterialKeys(t[i].materials) || (x in os + [o] && Destination(t, sid, x) == i)
    {
      if ok && i == Destination(t, sid, o) {
        if x != o {
          assert x in MaterialKeys(pt[i].materials);
        }
      } else {
        assert rt[i] == pt[i];
      }
    }
  }

  /** `Ensure we have at least a blank entry`: a model without materials gets the blank material. */
  function FillBlankMaterials(t: Tree): (r: Tree)
    ensures ModelKeys(r) == ModelKeys(t)
    ensures forall i :: 0 <= i < |r| ==> r[i].materials != []
  {
    seq(|t|, i requires 0 <= i < |t| =>
      if t[i].materials == [] then ModelNode(t[i].key, [BlankMaterial]) else t[i])
  }

  /** After the blank fill no model is without materials, and the others are untouched. */
  lemma FillBlankMaterialsSpec(t: Tree)
    requires WellFormed(t)
    ensures var r := FillBlankMaterials(t);
            && ModelKeys(r) == ModelKeys(t)
            && WellFormed(r)
            && (forall i :: 0 <= i < |t| ==> |r[i].materials| > 0)
            && (forall i :: 0 <= i < |t| && t[i].materials != [] ==> r[i] == t[i])
            && (forall i :: 0 <= i < |t| && t[i].materials == [] ==> MaterialKeys(r[i].materials) == [Blank])
  {
    var r := FillBlankMaterials(t);
    assert ModelKeys(r) == ModelKeys(t);
    forall i | 0 <= i < |t| && t[i].materials == [] ensures MaterialKeys(r[i].materials) == [Blank] && NodeWellFormed(r[i]) {
      assert r[i].materials == [BlankMaterial];
    }
  }

  /**
   * GetMaterials on the tree GetModels left. Without a root it adds a
   * blank model, which throws when there is one already.
   */
  function MaterialLevel(t: Tree, root: Option<RootInfo>, materialSet: int): (r: Outcome)
    ensures root.None? ==> (r.ok <==> Blank !in ModelKeys(t))
    ensures root.None? && r.ok ==> ModelKeys(r.tree) == ModelKeys(t) + [Blank]
    ensures root.Some? ==> ModelKeys(r.tree) == ModelKeys(t)
    ensures root.Some? && r.ok ==> forall i :: 0 <= i < |r.tree| ==> r.tree[i].materials != []
  {
    if root.None? then
      if Blank in ModelKeys(t) then Outcome(t, false) else Outcome(t + [BlankModel], true)
    else
      var r1 := ResolveMaterials(t, root.value, materialSet);
      if !r1.ok then r1
      else
        var r2 := OrphanStage(r1.tree, root.value, materialSet);
        if !r2.ok then r2 else Outcome(FillBlankMaterials(r2.tree), true)
  }

  /**
   * The orphan stage keeps the models and their materials. With a
   * secondary type every orphan joins the first model, which must exist,
   * and no other model changes; without one each orphan goes to its
   * destination model and nowhere else.
   */
  lemma OrphanStageSpec(t: Tree, root: RootInfo, materialSet: int)
    requires WellFormed(t)
    ensures var r := OrphanStage(t, root, materialSet);
            var os := root.orphanMaterials(materialSet);
            && ModelKeys(r.tree) == ModelKeys(t)
            && WellFormed(r.tree)
            && (forall i :: 0 <= i < |t| ==> Keeps(t[i], r.tree[i]))
            && (root.hasSecondaryType ==> (r.ok <==> |t| > 0))
            && (root.hasSecondaryType && r.ok ==>
                  && MaterialKeys(r.tree[0].materials) == AddAll(MaterialKeys(t[0].materials), os)
                  && forall x :: 0 < x < |t| ==> r.tree[x] == t[x])
            && (!root.hasSecondaryType && r.ok ==> OrphansPlaced(t, r.tree, root.secondaryId, os))
            && (!root.hasSecondaryType ==> OnlyOrphansAdded(t, r.tree, root.secondaryId, os))
  {
    var os := root.orphanMaterials(materialSet);
    if root.hasSecondaryType {
      if |t| > 0 {
        ExtendFirst(t, os);
      }
    } else {
      AttachOrphansSpec(t, root.secondaryId, os);
    }
  }

  /** Extending the first model by the orphans with set semantics. */
  lemma ExtendFirst(t: Tree, os: seq<string>)
    requires WellFormed(t) && |t| > 0
    ensures var r := t[0 := ExtendNode(t[0], os)];
            && ModelKeys(r) == ModelKeys(t)
            && WellFormed(r)
            && (forall i :: 0 <= i < |t| ==> Keeps(t[i], r[i]))
            && MaterialKeys(r[0].materials) == AddAll(MaterialKeys(t[0].materials), os)
  {
    InsertMaterialsWellFormed(t[0], os);
    InsertMaterialsSpec(t[0].materials, os);
    WellFormedReplace(t, 0, ExtendNode(t[0], os));
    assert ModelKeys(t[0 := ExtendNode(t[0], os)]) == ModelKeys(t);
  }

  /** The blank fill touches only models without materials, so placed orphans stay placed. */
  lemma FillBlankKeepsPlaced(t: Tree, rt: Tree, sid: string -> Option<string>, os: seq<string>)
    requires OrphansPlaced(t, rt, sid, os)
    ensures OrphansPlaced(t, FillBlankMaterials(rt), sid, os)
  {
    forall o | o in os
      ensures o in MaterialKeys(FillBlankMaterials(rt)[Destination(t, sid, o)].materials)
    {
      var d := Destination(t, sid, o);
      assert rt[d].materials != [];
    }
  }

  /**
   * When GetMaterials completes with a root, the models are unchanged,
   * keys stay unique and every model has a material. Each orphan
   * material is a material key of the first model when the root has a
   * secondary type, and of its destination model otherwise.
   */
  lemma MaterialLevelSpec(t: Tree, root: RootInfo, materialSet: int)
    requires WellFormed(t)
    ensures var r := MaterialLevel(t, Some(root), materialSet);
            var os := root.orphanMaterials(materialSet);
            && ModelKeys(r.tree) == ModelKeys(t)
            && WellFormed(r.tree)
            && (r.ok ==> forall i :: 0 <= i < |t| ==> |r.tree[i].materials| > 0)
            && (r.ok && root.hasSecondaryType ==>
                  |t| > 0 && forall o :: o in os ==> o in MaterialKeys(r.tree[0].materials))
            && (r.ok && !root.hasSecondaryType ==> OrphansPlaced(t, r.tree, root.secondaryId, os))
            && (|t| == 0 ==> (r.ok <==> !root.isHumanBody && !root.hasSecondaryType && os == []))
            && (|t| > 0 && root.hasSecondaryType ==> r.ok)
  {
    ResolveMaterialsSpec(t, root, materialSet);
    var r1 := ResolveMaterials(t, root, materialSet);
    if r1.ok {
      var os := root.orphanMaterials(materialSet);
      OrphanStageSpec(r1.tree, root, materialSet);
      var r2 := OrphanStage(r1.tree, root, materialSet);
      if !root.hasSecondaryType && |t| == 0 && os != [] {
        AttachOrphansEmpty(root.secondaryId, os);
      }
      if r2.ok {
        FillBlankMaterialsSpec(r2.tree);
        var r := FillBlankMaterials(r2.tree);
        assert MaterialLevel(t, Some(root), materialSet) == Outcome(r, true);
        if root.hasSecondaryType {
          assert r2.tree[0].materials != [] || os == [];
          forall o | o in os ensures o in MaterialKeys(r[0].materials) {
            assert o in AddAll(MaterialKeys(r1.tree[0].materials), os);
          }
        } else {
          DestinationsAgree(r1.tree, t, root.secondaryId);
          FillBlankKeepsPlaced(t, r2.tree, root.secondaryId, os);
        }
      }
    }
  }

  /** Trees with the same model keys send every orphan to the same model. */
  lemma DestinationsAgree(a: Tree, t: Tree, sid: string -> Option<string>)
    requires ModelKeys(a) == ModelKeys(t)
    ensures forall o :: Destination(a, sid, o) == Destination(t, sid, o)
  {
    forall o ensures Destination(a, sid, o) == Destination(t, sid, o) {
      SecondaryMatchKeys(a, t, sid, sid(o));
    }
  }

  /**
   * Without a root, GetMaterials only adds a blank model, and throws when
   * the tree has one already.
   */
  lemma MaterialLevelNoRoot(t: Tree, materialSet: int)
    requires WellFormed(t)
    ensures var r := MaterialLevel(t, None, materialSet);
            && (r.ok <==> Blank !in ModelKeys(t))
            && (r.ok ==> ModelKeys(r.tree) == ModelKeys(t) + [Blank])
            && WellFormed(r.tree)
  {
    if Blank !in ModelKeys(t) {
      var r := t + [BlankModel];
      assert ModelKeys(r) == ModelKeys(t) + [Blank];
      DistinctSnoc(ModelKeys(t), Blank);
    }
  }

  /** With no model at all, any orphan without a secondary type makes the stage throw. */
  lemma {:induction false} AttachOrphansEmpty(sid: string -> Option<string>, os: seq<string>)
    requires os != []
    ensures !AttachOrphans([], sid, os).ok
  {
    var os' := os[..|os| - 1];
    if os' != [] {
      AttachOrphansEmpty(sid, os');
    }
  }

  // ---------------------------------------------------------------------
  // GetTextures (ItemViewControl.xaml.cs:745-772)

  /** The position of the first blank material key; the texture loop stops there. */
  function FirstBlank(ms: seq<MaterialNode>): (j: nat)
    ensures j <= |ms|
    ensures forall x :: 0 <= x < j ==> ms[x].key != Blank
    ensures j < |ms| ==> ms[j].key == Blank
  {
    if Blank in MaterialKeys(ms) then
      var j := IndexOf(MaterialKeys(ms), Blank);
      assert forall x :: 0 <= x < j ==> MaterialKeys(ms)[x] == MaterialKeys(ms)[..j][x];
      j
    else
      assert forall x :: 0 <= x < |ms| ==> MaterialKeys(ms)[x] == ms[x].key;
      |ms|
  }

  /** Texture paths are added to every material before the first blank one. */
  function FillTextures(ms: seq<MaterialNode>, paths: string -> seq<string>): (r: seq<MaterialNode>)
    ensures MaterialKeys(r) == MaterialKeys(ms)
    ensures forall j :: 0 <= j < |ms| ==> ms[j].textures <= r[j].textures
  {
    seq(|ms|, j requires 0 <= j < |ms| =>
      if j < FirstBlank(ms) then MaterialNode(ms[j].key, AddAll(ms[j].textures, paths(ms[j].key))) else ms[j])
  }

  function TextureLevel(t: Tree, paths: string -> seq<string>): (r: Tree)
    ensures |r| > 0
    ensures |t| > 0 ==> ModelKeys(r) == ModelKeys(t)
    ensures forall i :: 0 <= i < |t| ==> MaterialKeys(r[i].materials) == MaterialKeys(t[i].materials)
  {
    if |t| == 0 then [BlankModel]
    else seq(|t|, i requires 0 <= i < |t| => ModelNode(t[i].key, FillTextures(t[i].materials, paths)))
  }

  /**
   * GetTextures keeps every model and material key; a material before the
   * first blank key of its model gets the union of its textures and the
   * paths its file names; from the blank key on nothing changes.
   */
  lemma TextureLevelSpec(t: Tree, paths: string -> seq<string>)
    requires WellFormed(t)
    ensures var r := TextureLevel(t, paths);
            && (|t| == 0 ==> r == [BlankModel])
            && (|t| > 0 ==> ModelKeys(r) == ModelKeys(t))
            && WellFormed(r)
            && forall i :: 0 <= i < |t| ==>
                 && MaterialKeys(r[i].materials) == MaterialKeys(t[i].materials)
                 && forall j :: 0 <= j < |t[i].materials| ==>
                      r[i].materials[j].textures ==
                        if j < FirstBlank(t[i].materials)
                        then AddAll(t[i].materials[j].textures, paths(t[i].materials[j].key))
                        else t[i].materials[j].textures
  {
    var r := TextureLevel(t, paths);
    if |t| == 0 {
      assert ModelKeys(r) == [Blank];
    } else {
      assert ModelKeys(r) == ModelKeys(t);
    }
    forall i | 0 <= i < |t| ensures MaterialKeys(r[i].materials) == MaterialKeys(t[i].materials) && NodeWellFormed(r[i]) {
      assert MaterialKeys(r[i].materials) == MaterialKeys(t[i].materials);
    }
  }

  // ---------------------------------------------------------------------
  // The whole rebuild (ItemViewControl.xaml.cs:515-528)

  function BuildTree(root: Option<RootInfo>, materialSet: int, paths: string -> seq<string>): (r: Outcome)
    ensures root.None? ==> !r.ok
    ensures r.ok ==> |r.tree| > 0
  {
    var m := ModelLevel(root);
    if !m.ok then m
    else
      var mt := MaterialLevel(m.tree, root, materialSet);
      if !mt.ok then mt else Outcome(TextureLevel(mt.tree, paths), true)
  }

  /**
   * A rebuild that completes leaves a tree whose every level has unique
   * keys and no level empty to the combo boxes; without a root it never
   * completes, because GetMaterials adds a second blank model.
   */
  lemma BuildTreeSpec(root: Option<RootInfo>, materialSet: int, paths: string -> seq<string>)
    ensures var r := BuildTree(root, materialSet, paths);
            && WellFormed(r.tree)
            && (root.None? ==> !r.ok)
            && (root.Some? && !Distinct(root.value.modelFiles) ==> !r.ok)
            && (r.ok ==> NoEmptyLevel(r.tree))
  {
    ModelLevelSpec(root);
    var m := ModelLevel(root);
    if root.None? {
      assert ModelKeys(m.tree)[0] == Blank;
    } else if m.ok {
      MaterialLevelSpec(m.tree, root.value, materialSet);
      var mt := MaterialLevel(m.tree, root, materialSet);
      TextureLevelSpec(mt.tree, paths);
      var r := TextureLevel(mt.tree, paths);
      if mt.ok {
        forall i | 0 <= i < |r| ensures |r[i].materials| > 0 {
          assert |r[i].materials| == |MaterialKeys(r[i].materials)| == |MaterialKeys(mt.tree[i].materials)|;
        }
      }
    }
  }
}
