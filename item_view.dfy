/**
 * The state of an item view (ItemViewControl.xaml.cs): the `Files` tree,
 * the dependency root, the one-shot `_TargetFile`, the three dropdown
 * lists with their selected values, the `_CANCELLING_COMBO_BOXES` flag and
 * the unsaved-change flags of the model, material and texture panels.
 * Game-file lookups, `FileExists`, `GetFilePathRoot` and the extension
 * test are given to the methods as values and functions.
 */
module ItemView {
  import opened Wrappers
  import opened Lists
  import opened FileTree
  import opened TreeBuilder
  import opened ComboLists

  /** The three dropdowns, each paired with the file panel of its level. */
  datatype Box = ModelBox | MaterialBox | TextureBox

  /** What a path's extension says it is, tested in this order. */
  datatype FileKind = TextureFile | MaterialFile | ModelFile | OtherFile

  /** The characters .NET treats as white space. */
  predicate IsWhiteSpace(c: char) {
    || ('\U{0009}' <= c <= '\U{000D}') || c == '\U{0020}' || c == '\U{0085}' || c == '\U{00A0}'
    || c == '\U{1680}' || ('\U{2000}' <= c <= '\U{200A}') || c == '\U{2028}' || c == '\U{2029}'
    || c == '\U{202F}' || c == '\U{205F}' || c == '\U{3000}'
  }

  /** `string.IsNullOrWhiteSpace`, with `None` for null. */
  predicate IsNullOrWhiteSpace(s: Option<string>) {
    s.None? || forall i :: 0 <= i < |s.value| ==> IsWhiteSpace(s.value[i])
  }

  /** The identity `Root == fRoot` compares, `None` for a null root. */
  function RootId(root: Option<RootInfo>): Option<string> {
    if root.None? then None else Some(root.value.id)
  }

  /** Which dropdown's change may prompt for which panel's unsaved changes. */
  predicate MayPrompt(b: Box, trigger: Option<Box>) {
    match b
    case ModelBox => trigger.None? || trigger == Some(ModelBox)
    case MaterialBox => trigger.None? || trigger == Some(ModelBox) || trigger == Some(MaterialBox)
    case TextureBox => trigger.None?
  }

  /** The panels to ask, in the order HandleUnsaveConfirmation asks them. */
  function PromptOrder(trigger: Option<Box>, modelUnsaved: bool, materialUnsaved: bool, textureUnsaved: bool): seq<Box> {
    (if modelUnsaved && MayPrompt(ModelBox, trigger) then [ModelBox] else [])
    + (if materialUnsaved && MayPrompt(MaterialBox, trigger) then [MaterialBox] else [])
    + (if textureUnsaved && MayPrompt(TextureBox, trigger) then [TextureBox] else [])
  }

  /**
   * The panels asked go model, material, texture, each at most once; only
   * unsaved panels are asked; and a change in the texture dropdown asks
   * none, not even the texture panel.
   */
  lemma PromptOrderSpec(trigger: Option<Box>, modelUnsaved: bool, materialUnsaved: bool, textureUnsaved: bool)
    ensures var r := PromptOrder(trigger, modelUnsaved, materialUnsaved, textureUnsaved);
            && (forall i, j :: 0 <= i < j < |r| ==> Rank(r[i]) < Rank(r[j]))
            && (ModelBox in r <==> modelUnsaved && (trigger.None? || trigger == Some(ModelBox)))
            && (MaterialBox in r <==> materialUnsaved && trigger != Some(TextureBox))
            && (TextureBox in r <==> textureUnsaved && trigger.None?)
            && (|r| > 0 && r[0] == TextureBox ==> |r| == 1)
            && (trigger == Some(TextureBox) ==> r == [])
  {
    assert MayPrompt(MaterialBox, trigger) <==> trigger != Some(TextureBox) by {
      if trigger.Some? {
        match trigger.value
        case ModelBox =>
        case MaterialBox =>
        case TextureBox =>
      }
    }
    Picked(modelUnsaved && MayPrompt(ModelBox, trigger), materialUnsaved && MayPrompt(MaterialBox, trigger),
           textureUnsaved && MayPrompt(TextureBox, trigger));
  }

  /** Picking panels in the fixed order: ranks increase, and each panel is there exactly when picked. */
  lemma Picked(m: bool, t: bool, x: bool)
    ensures var r := (if m then [ModelBox] else []) + (if t then [MaterialBox] else []) + (if x then [TextureBox] else []);
            && (forall i, j :: 0 <= i < j < |r| ==> Rank(r[i]) < Rank(r[j]))
            && (ModelBox in r <==> m) && (MaterialBox in r <==> t) && (TextureBox in r <==> x)
            && (|r| > 0 && r[0] == TextureBox ==> |r| == 1)
  {
    if m {
      if t {
        if x { assert [ModelBox] + [MaterialBox] + [TextureBox] == [ModelBox, MaterialBox, TextureBox]; }
        else { assert [ModelBox] + [MaterialBox] + [] == [ModelBox, MaterialBox]; }
      } else {
        if x { assert [ModelBox] + [] + [TextureBox] == [ModelBox, TextureBox]; }
        else { assert [ModelBox] + [] + [] == [ModelBox]; }
      }
    } else {
      if t {
        if x { assert [] + [MaterialBox] + [TextureBox] == [MaterialBox, TextureBox]; }
        else { assert [] + [MaterialBox] + [] == [MaterialBox]; }
      } else {
        if x { assert [] + [] + [TextureBox] == [TextureBox]; }
        else { }
      }
    }
  }

  /** The position of a panel in the prompting order. */
  function Rank(b: Box): nat {
    match b
    case ModelBox => 0
    case MaterialBox => 1
    case TextureBox => 2
  }

  /** The panels actually asked: up to and including the first that refuses. */
  function Asked(order: seq<Box>, confirm: Box -> bool): seq<Box> {
    if order == [] then []
    else if confirm(order[0]) then [order[0]] + Asked(order[1..], confirm)
    else [order[0]]
  }

  /** The panels asked are a prefix of the order, and every one of them but the last accepted. */
  lemma {:induction false} AskedPrefix(order: seq<Box>, confirm: Box -> bool)
    ensures var r := Asked(order, confirm);
            && |r| <= |order| && r == order[..|r|]
            && forall i :: 0 <= i < |r| - 1 ==> confirm(r[i])
  {
    if order != [] && confirm(order[0]) {
      var t := Asked(order[1..], confirm);
      AskedPrefix(order[1..], confirm);
      assert order[..|t| + 1] == [order[0]] + order[1..][..|t|];
    }
  }

  /**
   * The panels asked all accept exactly when every panel of the order
   * would, and then the whole order is asked.
   */
  lemma {:induction false} AskedAccepted(order: seq<Box>, confirm: Box -> bool)
    ensures var r := Asked(order, confirm);
            && ((forall b :: b in r ==> confirm(b)) <==> (forall b :: b in order ==> confirm(b)))
            && ((forall b :: b in order ==> confirm(b)) ==> r == order)
  {
    if order != [] {
      assert order[0] in order;
      if confirm(order[0]) {
        AskedAccepted(order[1..], confirm);
        assert forall b :: b in order <==> b == order[0] || b in order[1..];
        assert order == [order[0]] + order[1..];
      }
    }
  }

  /** The panels asked all accept exactly when the last one asked does. */
  lemma AskedLast(order: seq<Box>, confirm: Box -> bool)
    ensures var r := Asked(order, confirm);
            (forall b :: b in r ==> confirm(b)) <==> r == [] || confirm(r[|r| - 1])
  {
    var r := Asked(order, confirm);
    AskedPrefix(order, confirm);
    assert forall i :: 0 <= i < |r| ==> r[i] in r;
  }

  /** Asking a panel first: the rest are asked only when it accepts. */
  lemma AskedCons(x: Box, y: seq<Box>, confirm: Box -> bool)
    ensures Asked([x] + y, confirm) == if confirm(x) then [x] + Asked(y, confirm) else [x]
  {
    assert ([x] + y)[1..] == y;
  }

  /**
   * One guarded prompt: with `rest` still to ask after `prompted`, asking
   * `b` when `ask` holds leaves `tail` to ask.
   */
  lemma AskedStep(prompted: seq<Box>, res: bool, rest: seq<Box>, ask: bool, b: Box, tail: seq<Box>, confirm: Box -> bool)
    requires rest == (if ask then [b] else []) + tail
    ensures var p := if res && ask then prompted + [b] else prompted;
            var r := if res && ask then confirm(b) else res;
            prompted + (if res then Asked(rest, confirm) else []) == p + (if r then Asked(tail, confirm) else [])
  {
    if ask {
      AskedCons(b, tail, confirm);
    } else {
      assert rest == tail;
    }
  }

  /** The three prompts of HandleUnsaveConfirmation (ItemViewControl.xaml.cs:951-970). */
  method AskPanels(trigger: Option<Box>, modelUnsaved: bool, materialUnsaved: bool, textureUnsaved: bool, confirm: Box -> bool) returns (res: bool, prompted: seq<Box>)
    ensures prompted == Asked(PromptOrder(trigger, modelUnsaved, materialUnsaved, textureUnsaved), confirm)
    ensures res <==> prompted == [] || confirm(prompted[|prompted| - 1])
  {
    ghost var c := if textureUnsaved && MayPrompt(TextureBox, trigger) then [TextureBox] else [];
    ghost var bc := (if materialUnsaved && MayPrompt(MaterialBox, trigger) then [MaterialBox] else []) + c;
    ghost var order := PromptOrder(trigger, modelUnsaved, materialUnsaved, textureUnsaved);
    AskedStep([], true, order, modelUnsaved && MayPrompt(ModelBox, trigger), ModelBox, bc, confirm);
    res := true;
    prompted := [];
    if modelUnsaved && MayPrompt(ModelBox, trigger) {
      res := confirm(ModelBox);
      prompted := [ModelBox];
    }
    AskedStep(prompted, res, bc, materialUnsaved && MayPrompt(MaterialBox, trigger), MaterialBox, c, confirm);
    if res && materialUnsaved && MayPrompt(MaterialBox, trigger) {
      res := confirm(MaterialBox);
      prompted := prompted + [MaterialBox];
    }
    AskedStep(prompted, res, c, textureUnsaved && MayPrompt(TextureBox, trigger), TextureBox, [], confirm);
    if res && textureUnsaved && MayPrompt(TextureBox, trigger) {
      res := confirm(TextureBox);
      prompted := prompted + [TextureBox];
    }
  }

  /** `if (!ContainsKey(mat)) Add(mat, new HashSet())` over a list of materials. */
  method AddMissingMaterials(ms: seq<MaterialNode>, mats: seq<string>) returns (r: seq<MaterialNode>)
    ensures r == InsertMaterials(ms, mats)
  {
    r := ms;
    for k := 0 to |mats|
      invariant r == InsertMaterials(ms, mats[..k])
    {
      assert mats[..k + 1][..k] == mats[..k];
      if mats[k] !in MaterialKeys(r) {
        r := r + [MaterialNode(mats[k], [])];
      }
    }
    assert mats[..|mats|] == mats;
  }

  /** `HashSet.Add` of every path in order. */
  method AddTexturePaths(ts: seq<string>, paths: seq<string>) returns (r: seq<string>)
    ensures r == AddAll(ts, paths)
  {
    r := ts;
    for k := 0 to |paths|
      invariant r == AddAll(ts, paths[..k])
    {
      assert paths[..k + 1][..k] == paths[..k];
      if paths[k] !in r {
        r := r + [paths[k]];
      }
    }
    assert paths[..|paths|] == paths;
  }

  /** The inner loop of GetTextures: each material in turn until a blank key. */
  method FillMaterialTextures(ms: seq<MaterialNode>, paths: string -> seq<string>) returns (r: seq<MaterialNode>)
    ensures r == FillTextures(ms, paths)
  {
    r := ms;
    var j := 0;
    while j < |r|
      invariant |r| == |ms| && 0 <= j <= FirstBlank(ms)
      invariant forall x :: 0 <= x < j ==> r[x] == FillTextures(ms, paths)[x]
      invariant forall x :: j <= x < |r| ==> r[x] == ms[x]
    {
      if r[j].key == Blank {
        break;
      }
      var ts := AddTexturePaths(r[j].textures, paths(r[j].key));
      r := r[j := MaterialNode(r[j].key, ts)];
      j := j + 1;
    }
  }

  /** The first loop of GetMaterials (ItemViewControl.xaml.cs:663-692). */
  method ResolveStage(t: Tree, info: RootInfo, materialSet: int) returns (r: Outcome)
    ensures r == ResolveMaterials(t, info, materialSet)
  {
    if info.isHumanBody {
      if |t| == 0 {
        return Outcome(t, false);
      }
      var ms := AddMissingMaterials(t[0].materials, info.materialFiles);
      return Outcome(t[0 := ModelNode(t[0].key, ms)], true);
    }
    var spec := ResolveMaterials(t, info, materialSet).tree;
    var u := t;
    for i := 0 to |u|
      invariant |u| == |t|
      invariant forall x :: 0 <= x < i ==> u[x] == spec[x]
      invariant forall x :: i <= x < |u| ==> u[x] == t[x]
    {
      var ms := AddMissingMaterials(u[i].materials, info.variantShiftedMaterials(u[i].key, materialSet));
      u := u[i := ModelNode(u[i].key, ms)];
    }
    return Outcome(u, true);
  }

  /** The orphan loop of GetMaterials (ItemViewControl.xaml.cs:694-727). */
  method OrphanLoop(t: Tree, info: RootInfo, materialSet: int) returns (r: Outcome)
    ensures r == OrphanStage(t, info, materialSet)
  {
    var os := info.orphanMaterials(materialSet);
    if info.hasSecondaryType {
      if |t| == 0 {
        return Outcome(t, false);
      }
      var ms := AddMissingMaterials(t[0].materials, os);
      return Outcome(t[0 := ModelNode(t[0].key, ms)], true);
    }
    var sid := info.secondaryId;
    var u := t;
    for k := 0 to |os|
      invariant AttachOrphans(t, sid, os[..k]) == Outcome(u, true)
    {
      assert os[..k + 1][..k] == os[..k];
      var o := os[k];
      assert AttachOrphans(t, sid, os[..k + 1]) == AttachOrphan(u, sid, o);
      var m := SecondaryMatch(u, sid, sid(o));
      if m.Some? {
        var ms := AddMissingMaterials(u[m.value].materials, [o]);
        u := u[m.value := ModelNode(u[m.value].key, ms)];
      } else {
        if |u| == 0 || o in MaterialKeys(u[0].materials) {
          AttachOrphansFailed(t, sid, os, k + 1);
          return Outcome(u, false);
        }
        u := u[0 := ModelNode(u[0].key, u[0].materials + [MaterialNode(o, [])])];
      }
    }
    assert os[..|os|] == os;
    return Outcome(u, true);
  }

  /** The last loop of GetMaterials (ItemViewControl.xaml.cs:729-736). */
  method FillBlankLoop(t: Tree) returns (r: Tree)
    ensures r == FillBlankMaterials(t)
  {
    r := t;
    for i := 0 to |r|
      invariant |r| == |t|
      invariant forall x :: 0 <= x < i ==> r[x] == FillBlankMaterials(t)[x]
      invariant forall x :: i <= x < |r| ==> r[x] == t[x]
    {
      if r[i].materials == [] {
        r := r[i := ModelNode(r[i].key, [BlankMaterial])];
      }
    }
  }

  /** `First()` succeeds on every list SafeRemoveFile reads for a path of this kind. */
  predicate FirstsAvailable(kind: FileKind, removed: string,
                            models: seq<ComboEntry>, materials: seq<ComboEntry>, textures: seq<ComboEntry>) {
    match kind
    case TextureFile => |textures| > 0 && (textures[0].Value() == removed ==> |materials| > 0)
    case MaterialFile => |materials| > 0 && (materials[0].Value() == removed ==> |models| > 0)
    case ModelFile => |models| > 0
    case OtherFile => true
  }

  /**
   * The file SafeRemoveFile aims at after a removal: the first entry of the
   * removed file's level, or of the level above when that first entry is
   * the removed file itself; nothing for a model or an unknown kind.
   */
  function NextTarget(kind: FileKind, removed: string,
                      models: seq<ComboEntry>, materials: seq<ComboEntry>, textures: seq<ComboEntry>): (r: Option<string>)
    requires FirstsAvailable(kind, removed, models, materials, textures)
    ensures kind == OtherFile ==> r.None?
    ensures kind == TextureFile ==>
              && (textures[0].Value() != removed ==> r == Some(textures[0].Value()))
              && (textures[0].Value() == removed ==> r == Some(materials[0].Value()))
    ensures kind == MaterialFile ==>
              && (materials[0].Value() != removed ==> r == Some(materials[0].Value()))
              && (materials[0].Value() == removed ==> r == Some(models[0].Value()))
    ensures kind == ModelFile ==>
              && (models[0].Value() != removed ==> r == Some(models[0].Value()))
              && (models[0].Value() == removed ==> r.None?)
  {
    match kind
    case TextureFile =>
      var f := textures[0].Value();
      if f == removed then Some(materials[0].Value()) else Some(f)
    case MaterialFile =>
      var f := materials[0].Value();
      if f == removed then Some(models[0].Value()) else Some(f)
    case ModelFile =>
      var f := models[0].Value();
      if f == removed then None else Some(f)
    case OtherFile => None
  }

  /**
   * What HandleUnsaveConfirmation decides from the flags as they were:
   * whether the change may go on, and the panels it asked, in order.
   */
  function UnsaveDecision(cancelling: bool, trigger: Option<Box>, removed: Option<seq<string>>,
                          modelUnsaved: bool, materialUnsaved: bool, textureUnsaved: bool,
                          confirm: Box -> bool): (d: (bool, seq<Box>))
    ensures d.0 <==> !cancelling && forall b :: b in d.1 ==> confirm(b)
    ensures cancelling || removed == Some([]) ==> d.1 == []
  {
    if cancelling then (false, [])
    else if removed == Some([]) then (true, [])
    else
      var asked := Asked(PromptOrder(trigger, modelUnsaved, materialUnsaved, textureUnsaved), confirm);
      (forall b :: b in asked ==> confirm(b), asked)
  }

  /** The prompts of HandleUnsaveConfirmation once neither early return applies. */
  method DecideUnsave(trigger: Option<Box>, removed: Option<seq<string>>,
                      modelUnsaved: bool, materialUnsaved: bool, textureUnsaved: bool, confirm: Box -> bool)
    returns (res: bool, prompted: seq<Box>)
    requires removed != Some([])
    ensures prompted == Asked(PromptOrder(trigger, modelUnsaved, materialUnsaved, textureUnsaved), confirm)
    ensures (res, prompted) == UnsaveDecision(false, trigger, removed, modelUnsaved, materialUnsaved, textureUnsaved, confirm)
  {
    ghost var order := PromptOrder(trigger, modelUnsaved, materialUnsaved, textureUnsaved);
    res, prompted := AskPanels(trigger, modelUnsaved, materialUnsaved, textureUnsaved, confirm);
    AskedLast(order, confirm);
    assert UnsaveDecision(false, trigger, removed, modelUnsaved, materialUnsaved, textureUnsaved, confirm)
        == (forall b :: b in prompted ==> confirm(b), prompted);
  }

  /** How a dropdown's change handler ended. */
  datatype HandlerOutcome =
    | NoSelection               // the dropdown had no selected value
    | Refused                   // an unsaved-changes prompt was refused
    | FileRemoved               // the selected file no longer exists and was taken out
    | Listed(showPanel: bool)   // the next level was listed; whether the panel is shown

  class ItemViewControl {
    var files: Option<Tree>
    var root: Option<RootInfo>
    var targetFile: FileKeys
    var models: seq<ComboEntry>
    var materials: seq<ComboEntry>
    var textures: seq<ComboEntry>
    var modelValue: Option<string>
    var materialValue: Option<string>
    var textureValue: Option<string>
    var cancellingComboBoxes: bool
    var modelUnsaved: bool
    var materialUnsaved: bool
    var textureUnsaved: bool

    /** Keys stay unique at every level of the tree. */
    predicate Valid()
      reads this`files
    {
      files.Some? ==> WellFormed(files.value)
    }

    /** `_TargetFileSet`: a target has been chosen. */
    predicate TargetFileSet()
      reads this
    {
      targetFile.model.Some?
    }

    /** `_TargetFileLocked`: the target asks not to change the visible panel. */
    predicate TargetFileLocked()
      reads this
    {
      targetFile.model == Some("!")
    }

    /**
     * The state after a vanished file was taken out of `before`: the tree
     * lost it, the target is the keys of the `next` file, and the model
     * dropdown lists the remaining models and shows the target model or
     * its first entry.
     */
    predicate RetargetedAfterRemoval(before: Tree, removed: string, next: Option<string>)
      reads this
    {
      && files == Some(RemovePath(before, removed).0)
      && targetFile == GetFileKeys(files, next)
      && models == ComboList(ModelKeys(files.value))
      && modelValue == Some(SelectedValue(models, targetFile.model))
    }

    /**
     * The material dropdown lists the materials of model `cur` (none when it
     * is not a key) and shows the target material or its first entry; the
     * panel is shown exactly for a listed model and an unlocked model-only
     * target.
     */
    predicate MaterialsListed(cur: string, show: bool)
      reads this
    {
      && files.Some?
      && materials == ComboList(if cur in ModelKeys(files.value) then MaterialKeys(MaterialsOf(files.value, cur)) else [])
      && materialValue == Some(SelectedValue(materials, targetFile.material))
      && show == (&& cur in ModelKeys(files.value) && !TargetFileLocked() && targetFile.model.Some?
                  && targetFile.material.None? && targetFile.texture.None?)
    }

    /**
     * The texture dropdown lists the textures of material `cur` under model
     * `m` (none when either is not a key) and shows the target texture or
     * its first entry; the panel is shown exactly for a listed material and
     * an unlocked target naming a material but no texture.
     */
    predicate TexturesListed(m: Option<string>, cur: string, show: bool)
      reads this
    {
      && files.Some?
      && var listed := m.Some? && m.value in ModelKeys(files.value) && cur in MaterialKeys(MaterialsOf(files.value, m.value));
         && textures == ComboList(if listed then TexturesOf(files.value, m.value, cur) else [])
         && textureValue == Some(SelectedValue(textures, targetFile.texture))
         && show == (listed && !TargetFileLocked() && targetFile.material.Some? && targetFile.texture.None?)
    }

    constructor()
      ensures files.None? && root.None? && targetFile == NoTarget
      ensures models == [] && materials == [] && textures == []
      ensures modelValue.None? && materialValue.None? && textureValue.None?
      ensures !cancellingComboBoxes && !modelUnsaved && !materialUnsaved && !textureUnsaved
      ensures Valid()
    {
      files := None;
      root := None;
      targetFile := NoTarget;
      models, materials, textures := [], [], [];
      modelValue, materialValue, textureValue := None, None, None;
      cancellingComboBoxes := false;
      modelUnsaved, materialUnsaved, textureUnsaved := false, false, false;
    }

    /** GetModels: rebuilds the model level from the root's model paths. */
    method GetModels() returns (ok: bool)
      modifies this`files
      ensures files == Some(TreeBuilder.ModelLevel(root).tree) && ok == TreeBuilder.ModelLevel(root).ok
      ensures Valid()
    {
      ModelLevelSpec(root);
      if root.None? {
        files := Some([BlankModel]);
        return true;
      }
      var ms := root.value.modelFiles;
      var t: Tree := [];
      for i := 0 to |ms|
        invariant InsertModels([], ms[..i]) == Outcome(t, true)
      {
        assert ms[..i + 1][..i] == ms[..i];
        if ms[i] in ModelKeys(t) {
          InsertModelsFailed([], ms, i + 1);
          files := Some(t);
          return false;
        }
        t := t + [ModelNode(ms[i], [])];
      }
      assert ms[..|ms|] == ms;
      if t == [] {
        t := [BlankModel];
      }
      files := Some(t);
      ok := true;
    }

    /** GetMaterials: materials each model refers to, the orphan materials, then the blank fill. */
    method GetMaterials(materialSet: int) returns (ok: bool)
      requires files.Some? && Valid()
      modifies this`files
      ensures files == Some(MaterialLevel(old(files.value), root, materialSet).tree)
      ensures ok == MaterialLevel(old(files.value), root, materialSet).ok
      ensures Valid()
    {
      var t := files.value;
      if root.None? {
        MaterialLevelNoRoot(t, materialSet);
        if Blank in ModelKeys(t) {
          return false;
        }
        files := Some(t + [BlankModel]);
        return true;
      }
      MaterialLevelSpec(t, root.value, materialSet);
      var r1 := ResolveStage(t, root.value, materialSet);
      if !r1.ok {
        return false;
      }
      var r2 := OrphanLoop(r1.tree, root.value, materialSet);
      if !r2.ok {
        files := Some(r2.tree);
        return false;
      }
      var t3 := FillBlankLoop(r2.tree);
      files := Some(t3);
      ok := true;
    }

    /** GetTextures: every material before the first blank one gets its texture paths. */
    method GetTextures(paths: string -> seq<string>)
      requires files.Some? && Valid()
      modifies this`files
      ensures files == Some(TextureLevel(old(files.value), paths))
      ensures Valid()
    {
      var t := files.value;
      TextureLevelSpec(t, paths);
      var t0 := t;
      for i := 0 to |t|
        invariant |t| == |t0|
        invariant forall x :: 0 <= x < i ==> t[x] == ModelNode(t0[x].key, FillTextures(t0[x].materials, paths))
        invariant forall x :: i <= x < |t| ==> t[x] == t0[x]
      {
        var ms := FillMaterialTextures(t[i].materials, paths);
        t := t[i := ModelNode(t[i].key, ms)];
      }
      if |t| == 0 {
        t := [BlankModel];
      } else {
        assert t == TextureLevel(t0, paths);
      }
      files := Some(t);
    }

    /** AddModels: rebuilds the model dropdown and selects the target model or the first entry. */
    method AddModels(keys: seq<string>)
      modifies this`models, this`modelValue
      ensures models == ComboList(keys)
      ensures modelValue == Some(SelectedValue(models, targetFile.model))
    {
      models := BuildList(keys);
      ComboListSpec(keys);
      modelValue := Some(SelectedValue(models, targetFile.model));
    }

    /** AddMaterials: the same for the material dropdown and the target material. */
    method AddMaterials(keys: seq<string>)
      modifies this`materials, this`materialValue
      ensures materials == ComboList(keys)
      ensures materialValue == Some(SelectedValue(materials, targetFile.material))
    {
      materials := BuildList(keys);
      ComboListSpec(keys);
      materialValue := Some(SelectedValue(materials, targetFile.material));
    }

    /** AddTextures: the same for the texture dropdown and the target texture. */
    method AddTextures(keys: seq<string>)
      modifies this`textures, this`textureValue
      ensures textures == ComboList(keys)
      ensures textureValue == Some(SelectedValue(textures, targetFile.texture))
    {
      textures := BuildList(keys);
      ComboListSpec(keys);
      textureValue := Some(SelectedValue(textures, targetFile.texture));
    }

    /** RebuildComboBoxes: the three stages in order, then the model dropdown. */
    method RebuildComboBoxes(materialSet: int, paths: string -> seq<string>) returns (ok: bool)
      modifies this`files, this`models, this`modelValue
      ensures files == Some(BuildTree(root, materialSet, paths).tree)
      ensures ok == BuildTree(root, materialSet, paths).ok
      ensures ok ==> && NoEmptyLevel(files.value) && models == ComboList(ModelKeys(files.value))
                     && modelValue == Some(SelectedValue(models, targetFile.model))
      ensures !ok ==> models == old(models) && modelValue == old(modelValue)
      ensures Valid()
    {
      BuildTreeSpec(root, materialSet, paths);
      ok := GetModels();
      if !ok {
        return;
      }
      ok := GetMaterials(materialSet);
      if !ok {
        return;
      }
      GetTextures(paths);
      AddModels(ModelKeys(files.value));
    }

    /**
     * DispatchRebuildComboBoxes: aims at the file of the visible panel and
     * rebuilds; a failure is swallowed.
     */
    method DispatchRebuild(visiblePath: Option<string>, materialSet: int, paths: string -> seq<string>)
      modifies this`files, this`models, this`modelValue, this`targetFile
      ensures targetFile == GetFileKeys(old(files), visiblePath)
      ensures files == Some(BuildTree(root, materialSet, paths).tree)
      ensures BuildTree(root, materialSet, paths).ok ==>
                && NoEmptyLevel(files.value)
                && models == ComboList(ModelKeys(files.value))
                && modelValue == Some(SelectedValue(models, targetFile.model))
      ensures !BuildTree(root, materialSet, paths).ok ==> models == old(models) && modelValue == old(modelValue)
      ensures Valid()
    {
      targetFile := GetFileKeys(files, visiblePath);
      var _ := RebuildComboBoxes(materialSet, paths);
    }

    /**
     * HandleUnsaveConfirmation: asks the panels with unsaved changes that
     * the triggering dropdown may affect, stops at the first refusal, and
     * on success clears the flags of the panels asked. On a refusal the
     * triggering dropdown goes back to the entry it left.
     */
    method HandleUnsaveConfirmation(trigger: Option<Box>, removed: Option<seq<string>>, confirm: Box -> bool)
      returns (res: bool, prompted: seq<Box>)
      modifies this`modelUnsaved, this`materialUnsaved, this`textureUnsaved
      modifies this`modelValue, this`materialValue, this`textureValue
      ensures old(cancellingComboBoxes) ==> !res && prompted == [] && unchanged(this)
      ensures !old(cancellingComboBoxes) && removed == Some([]) ==> res && prompted == [] && unchanged(this)
      ensures !old(cancellingComboBoxes) && removed != Some([]) ==>
                prompted == Asked(PromptOrder(trigger, old(modelUnsaved), old(materialUnsaved), old(textureUnsaved)), confirm)
      ensures res <==> !old(cancellingComboBoxes) && forall b :: b in prompted ==> confirm(b)
      ensures (res, prompted) == UnsaveDecision(old(cancellingComboBoxes), trigger, removed,
                                                old(modelUnsaved), old(materialUnsaved), old(textureUnsaved), confirm)
      ensures res ==> && modelUnsaved == (old(modelUnsaved) && ModelBox !in prompted)
                      && materialUnsaved == (old(materialUnsaved) && MaterialBox !in prompted)
                      && textureUnsaved == (old(textureUnsaved) && TextureBox !in prompted)
                      && modelValue == old(modelValue) && materialValue == old(materialValue)
                      && textureValue == old(textureValue)
      ensures !res ==> && modelUnsaved == old(modelUnsaved) && materialUnsaved == old(materialUnsaved)
                       && textureUnsaved == old(textureUnsaved)
      ensures !res && !old(cancellingComboBoxes) ==>
                && modelValue == (if trigger == Some(ModelBox) && removed.Some? then Some(removed.value[0]) else old(modelValue))
                && materialValue == (if trigger == Some(MaterialBox) && removed.Some? then Some(removed.value[0]) else old(materialValue))
                && textureValue == (if trigger == Some(TextureBox) && removed.Some? then Some(removed.value[0]) else old(textureValue))
    {
      if cancellingComboBoxes {
        return false, [];
      }
      if removed.Some? && |removed.value| == 0 {
        return true, [];
      }
      res, prompted := DecideUnsave(trigger, removed, modelUnsaved, materialUnsaved, textureUnsaved, confirm);
      ApplyDecision(trigger, removed, res, prompted);
    }

    /**
     * The end of HandleUnsaveConfirmation: a go-ahead clears the flags of
     * the panels asked; a refusal puts the triggering dropdown back on the
     * entry it left.
     */
    method ApplyDecision(trigger: Option<Box>, removed: Option<seq<string>>, res: bool, prompted: seq<Box>)
      requires removed != Some([])
      modifies this`modelUnsaved, this`materialUnsaved, this`textureUnsaved
      modifies this`modelValue, this`materialValue, this`textureValue
      ensures res ==> && modelUnsaved == (old(modelUnsaved) && ModelBox !in prompted)
                      && materialUnsaved == (old(materialUnsaved) && MaterialBox !in prompted)
                      && textureUnsaved == (old(textureUnsaved) && TextureBox !in prompted)
                      && modelValue == old(modelValue) && materialValue == old(materialValue)
                      && textureValue == old(textureValue)
      ensures !res ==> && modelUnsaved == old(modelUnsaved) && materialUnsaved == old(materialUnsaved)
                       && textureUnsaved == old(textureUnsaved)
                       && modelValue == (if trigger == Some(ModelBox) && removed.Some? then Some(removed.value[0]) else old(modelValue))
                       && materialValue == (if trigger == Some(MaterialBox) && removed.Some? then Some(removed.value[0]) else old(materialValue))
                       && textureValue == (if trigger == Some(TextureBox) && removed.Some? then Some(removed.value[0]) else old(textureValue))
    {
      if !res {
        if trigger.Some? && removed.Some? {
          match trigger.value
          case ModelBox => modelValue := Some(removed.value[0]);
          case MaterialBox => materialValue := Some(removed.value[0]);
          case TextureBox => textureValue := Some(removed.value[0]);
        }
        return;
      }
      if ModelBox in prompted {
        modelUnsaved := false;
      }
      if MaterialBox in prompted {
        materialUnsaved := false;
      }
      if TextureBox in prompted {
        textureUnsaved := false;
      }
    }

    /** RemoveFile: takes out the first entry holding `file`, reporting whether there was one. */
    method RemoveFile(file: string) returns (removed: bool)
      requires files.Some? && Valid()
      modifies this`files
      ensures removed <==> Occurs(old(files.value), file)
      ensures files == Some(RemovePath(old(files.value), file).0)
      ensures !removed ==> files == old(files)
      ensures Valid()
    {
      RemovePathWellFormed(files.value, file);
      var r := RemovePath(files.value, file);
      files := Some(r.0);
      removed := r.1;
    }

    /**
     * SafeRemoveFile: a file that no longer exists is taken out of the tree;
     * then the target becomes the entry found for the next file and the
     * model dropdown is rebuilt.
     */
    method SafeRemoveFile(fileRemoved: Option<string>, fileExists: string -> bool, kindOf: string -> FileKind)
      returns (r: bool)
      requires files.Some? && Valid()
      requires fileRemoved.Some? ==> FirstsAvailable(kindOf(fileRemoved.value), fileRemoved.value, models, materials, textures)
      modifies this`files, this`targetFile, this`models, this`modelValue
      ensures IsNullOrWhiteSpace(fileRemoved) || fileExists(fileRemoved.value) ==> !r && unchanged(this)
      ensures r <==> !IsNullOrWhiteSpace(fileRemoved) && !fileExists(fileRemoved.value) && Occurs(old(files.value), fileRemoved.value)
      ensures !r ==> files == old(files) && targetFile == old(targetFile)
                     && models == old(models) && modelValue == old(modelValue)
      ensures r ==> && files == Some(RemovePath(old(files.value), fileRemoved.value).0)
                    && targetFile == GetFileKeys(files, NextTarget(kindOf(fileRemoved.value), fileRemoved.value,
                                                                   old(models), materials, textures))
                    && models == ComboList(ModelKeys(files.value))
                    && modelValue == Some(SelectedValue(models, targetFile.model))
      ensures Valid()
    {
      if IsNullOrWhiteSpace(fileRemoved) {
        return false;
      }
      var f := fileRemoved.value;
      if fileExists(f) {
        return false;
      }
      r := RemoveAndRetarget(f, kindOf(f));
    }

    /** The part of SafeRemoveFile after its guards: removal, new target, model dropdown. */
    method RemoveAndRetarget(f: string, kind: FileKind) returns (r: bool)
      requires files.Some? && Valid()
      requires FirstsAvailable(kind, f, models, materials, textures)
      modifies this`files, this`targetFile, this`models, this`modelValue
      ensures r <==> Occurs(old(files.value), f)
      ensures !r ==> unchanged(this)
      ensures r ==> && files == Some(RemovePath(old(files.value), f).0)
                    && targetFile == GetFileKeys(files, NextTarget(kind, f, old(models), materials, textures))
                    && models == ComboList(ModelKeys(files.value))
                    && modelValue == Some(SelectedValue(models, targetFile.model))
      ensures Valid()
    {
      var removed := RemoveFile(f);
      if !removed {
        return false;
      }
      var next := NextTarget(kind, f, models, materials, textures);
      targetFile := GetFileKeys(files, next);
      AddModels(ModelKeys(files.value));
      r := true;
    }

    /**
     * SafeAddFile: makes each given key an entry of the tree; only when
     * something was added does it aim at the keys and rebuild the model
     * dropdown.
     */
    method SafeAddFile(keys: FileKeys)
      requires files.Some? && Valid()
      requires keys.texture.Some? ==> keys.material.Some?
      modifies this`files, this`targetFile, this`models, this`modelValue
      ensures IsNullOrWhiteSpace(keys.model) ==> unchanged(this)
      ensures !IsNullOrWhiteSpace(keys.model) ==>
                && files == Some(AddKeys(old(files.value), keys.model.value, keys.material, keys.texture).0)
                && IsEntry(files.value, keys)
                && (forall k :: IsEntry(old(files.value), k) ==> IsEntry(files.value, k))
      ensures !IsNullOrWhiteSpace(keys.model) && IsEntry(old(files.value), keys) ==> unchanged(this)
      ensures !IsNullOrWhiteSpace(keys.model) && !IsEntry(old(files.value), keys) ==>
                && targetFile == keys && models == ComboList(ModelKeys(files.value))
                && modelValue == Some(SelectedValue(models, targetFile.model))
      ensures Valid()
    {
      if IsNullOrWhiteSpace(keys.model) {
        return;
      }
      AddKeysSpec(files.value, keys.model.value, keys.material, keys.texture);
      var r := AddKeys(files.value, keys.model.value, keys.material, keys.texture);
      files := Some(r.0);
      if !r.1 {
        return;
      }
      targetFile := keys;
      AddModels(ModelKeys(r.0));
    }

    /**
     * HandleUnsaveConfirmation as a dropdown's change handler calls it:
     * whether the change goes on, with only the flags and the triggering
     * dropdown's value changed.
     */
    method ConfirmChange(trigger: Box, removed: Option<seq<string>>, confirm: Box -> bool) returns (ok: bool)
      modifies this`modelUnsaved, this`materialUnsaved, this`textureUnsaved
      modifies this`modelValue, this`materialValue, this`textureValue
      ensures var d := UnsaveDecision(old(cancellingComboBoxes), Some(trigger), removed,
                                      old(modelUnsaved), old(materialUnsaved), old(textureUnsaved), confirm);
              && ok == d.0
              && (ok ==> && modelUnsaved == (old(modelUnsaved) && ModelBox !in d.1)
                         && materialUnsaved == (old(materialUnsaved) && MaterialBox !in d.1)
                         && textureUnsaved == (old(textureUnsaved) && TextureBox !in d.1))
      ensures !ok ==> && modelUnsaved == old(modelUnsaved) && materialUnsaved == old(materialUnsaved)
                      && textureUnsaved == old(textureUnsaved)
      ensures ok ==> modelValue == old(modelValue) && materialValue == old(materialValue) && textureValue == old(textureValue)
      ensures !ok ==>
                var back := !old(cancellingComboBoxes) && removed.Some?;
                && modelValue == (if trigger == ModelBox && back then Some(removed.value[0]) else old(modelValue))
                && materialValue == (if trigger == MaterialBox && back then Some(removed.value[0]) else old(materialValue))
                && textureValue == (if trigger == TextureBox && back then Some(removed.value[0]) else old(textureValue))
    {
      var prompted;
      ok, prompted := HandleUnsaveConfirmation(Some(trigger), removed, confirm);
    }

    /** Model_Changed: lists the selected model's materials unless it was refused or removed. */
    method ModelChanged(removed: Option<seq<string>>, confirm: Box -> bool,
                        fileExists: string -> bool, kindOf: string -> FileKind)
      returns (outcome: HandlerOutcome)
      requires files.Some? && Valid()
      requires modelValue.Some? ==> FirstsAvailable(kindOf(modelValue.value), modelValue.value, models, materials, textures)
      modifies this`files, this`targetFile, this`models, this`materials
      modifies this`modelValue, this`materialValue, this`textureValue
      modifies this`modelUnsaved, this`materialUnsaved, this`textureUnsaved
      ensures files.Some? && Valid()
      ensures outcome == NoSelection <==> old(modelValue).None?
      ensures outcome == NoSelection ==> unchanged(this)
      ensures var d := UnsaveDecision(old(cancellingComboBoxes), Some(ModelBox), removed,
                                      old(modelUnsaved), old(materialUnsaved), old(textureUnsaved), confirm);
              && (outcome == Refused <==> old(modelValue).Some? && !d.0)
              && (outcome == FileRemoved <==>
                    && old(modelValue).Some? && d.0 && !IsNullOrWhiteSpace(old(modelValue))
                    && !fileExists(old(modelValue).value) && Occurs(old(files.value), old(modelValue).value))
              && (outcome == FileRemoved || outcome.Listed? ==>
                    && modelUnsaved == (old(modelUnsaved) && ModelBox !in d.1)
                    && materialUnsaved == (old(materialUnsaved) && MaterialBox !in d.1)
                    && textureUnsaved == (old(textureUnsaved) && TextureBox !in d.1))
      ensures outcome == Refused ==>
                && files == old(files) && targetFile == old(targetFile)
                && models == old(models) && materials == old(materials)
                && modelUnsaved == old(modelUnsaved) && materialUnsaved == old(materialUnsaved)
                && textureUnsaved == old(textureUnsaved)
                && modelValue == (if !old(cancellingComboBoxes) && removed.Some? then Some(removed.value[0]) else old(modelValue))
                && materialValue == old(materialValue) && textureValue == old(textureValue)
      ensures outcome == FileRemoved ==>
                var cur := old(modelValue).value;
                && RetargetedAfterRemoval(old(files.value), cur, NextTarget(kindOf(cur), cur, old(models), old(materials), old(textures)))
                && materials == old(materials) && materialValue == old(materialValue) && textureValue == old(textureValue)
      ensures outcome.Listed? ==>
                var cur := old(modelValue).value;
                && files == old(files) && targetFile == old(targetFile)
                && models == old(models) && modelValue == old(modelValue)
                && MaterialsListed(cur, outcome.showPanel)
                && textureValue == old(textureValue)
    {
      if modelValue.None? {
        return NoSelection;
      }
      var ok := ConfirmChange(ModelBox, removed, confirm);
      if !ok {
        return Refused;
      }
      outcome := ModelSelected(modelValue.value, fileExists, kindOf);
    }

    /** Model_Changed after the confirmation: a missing file is taken out, otherwise its materials are listed. */
    method ModelSelected(cur: string, fileExists: string -> bool, kindOf: string -> FileKind)
      returns (outcome: HandlerOutcome)
      requires files.Some? && Valid()
      requires FirstsAvailable(kindOf(cur), cur, models, materials, textures)
      modifies this`files, this`targetFile, this`models, this`modelValue, this`materials, this`materialValue
      ensures files.Some? && Valid()
      ensures outcome == FileRemoved || outcome.Listed?
      ensures outcome == FileRemoved <==> !IsNullOrWhiteSpace(Some(cur)) && !fileExists(cur) && Occurs(old(files.value), cur)
      ensures outcome == FileRemoved ==>
                && RetargetedAfterRemoval(old(files.value), cur, NextTarget(kindOf(cur), cur, old(models), old(materials), old(textures)))
                && materials == old(materials) && materialValue == old(materialValue)
      ensures outcome.Listed? ==>
                && files == old(files) && targetFile == old(targetFile)
                && models == old(models) && modelValue == old(modelValue)
                && MaterialsListed(cur, outcome.showPanel)
    {
      if cur != "" {
        var gone := SafeRemoveFile(Some(cur), fileExists, kindOf);
        if gone {
          return FileRemoved;
        }
      }
      if cur !in ModelKeys(files.value) {
        AddMaterials([]);
        return Listed(false);
      }
      var mats := MaterialKeys(MaterialsOf(files.value, cur));
      var show := !TargetFileLocked() && targetFile.model.Some? && targetFile.material.None? && targetFile.texture.None?;
      AddMaterials(mats);
      return Listed(show);
    }

    /** Material_Changed: lists the selected material's textures unless it was refused or removed. */
    method MaterialChanged(removed: Option<seq<string>>, confirm: Box -> bool,
                           fileExists: string -> bool, kindOf: string -> FileKind)
      returns (outcome: HandlerOutcome)
      requires files.Some? && Valid()
      requires materialValue.Some? ==> FirstsAvailable(kindOf(materialValue.value), materialValue.value, models, materials, textures)
      modifies this`files, this`targetFile, this`models, this`textures
      modifies this`modelValue, this`materialValue, this`textureValue
      modifies this`modelUnsaved, this`materialUnsaved, this`textureUnsaved
      ensures files.Some? && Valid()
      ensures outcome == NoSelection <==> old(materialValue).None?
      ensures outcome == NoSelection ==> unchanged(this)
      ensures var d := UnsaveDecision(old(cancellingComboBoxes), Some(MaterialBox), removed,
                                      old(modelUnsaved), old(materialUnsaved), old(textureUnsaved), confirm);
              && (outcome == Refused <==> old(materialValue).Some? && !d.0)
              && (outcome == FileRemoved <==>
                    && old(materialValue).Some? && d.0
                    && old(modelValue).Some? && old(modelValue).value in ModelKeys(old(files.value))
                    && !IsNullOrWhiteSpace(old(materialValue))
                    && !fileExists(old(materialValue).value) && Occurs(old(files.value), old(materialValue).value))
              && (outcome == FileRemoved || outcome.Listed? ==>
                    && modelUnsaved == (old(modelUnsaved) && ModelBox !in d.1)
                    && materialUnsaved == (old(materialUnsaved) && MaterialBox !in d.1)
                    && textureUnsaved == (old(textureUnsaved) && TextureBox !in d.1))
      ensures outcome == Refused ==>
                && files == old(files) && targetFile == old(targetFile)
                && models == old(models) && textures == old(textures)
                && modelUnsaved == old(modelUnsaved) && materialUnsaved == old(materialUnsaved)
                && textureUnsaved == old(textureUnsaved)
                && materialValue == (if !old(cancellingComboBoxes) && removed.Some? then Some(removed.value[0]) else old(materialValue))
                && modelValue == old(modelValue) && textureValue == old(textureValue)
      ensures outcome == FileRemoved ==>
                var cur := old(materialValue).value;
                && RetargetedAfterRemoval(old(files.value), cur, NextTarget(kindOf(cur), cur, old(models), old(materials), old(textures)))
                && textures == old(textures) && materialValue == old(materialValue) && textureValue == old(textureValue)
      ensures outcome.Listed? ==>
                var m := old(modelValue);
                var cur := old(materialValue).value;
                && files == old(files) && targetFile == old(targetFile)
                && models == old(models) && modelValue == old(modelValue) && materialValue == old(materialValue)
                && TexturesListed(m, cur, outcome.showPanel)
    {
      if materialValue.None? {
        return NoSelection;
      }
      var ok := ConfirmChange(MaterialBox, removed, confirm);
      if !ok {
        return Refused;
      }
      outcome := MaterialSelected(modelValue, materialValue.value, fileExists, kindOf);
    }

    /**
     * Material_Changed after the confirmation: without a listed model the
     * texture list is emptied; a missing file is taken out; otherwise the
     * material's textures are listed.
     */
    method MaterialSelected(m: Option<string>, cur: string, fileExists: string -> bool, kindOf: string -> FileKind)
      returns (outcome: HandlerOutcome)
      requires files.Some? && Valid()
      requires FirstsAvailable(kindOf(cur), cur, models, materials, textures)
      modifies this`files, this`targetFile, this`models, this`modelValue, this`textures, this`textureValue
      ensures files.Some? && Valid()
      ensures outcome == FileRemoved || outcome.Listed?
      ensures outcome == FileRemoved <==>
                && m.Some? && m.value in ModelKeys(old(files.value))
                && !IsNullOrWhiteSpace(Some(cur)) && !fileExists(cur) && Occurs(old(files.value), cur)
      ensures outcome == FileRemoved ==>
                && RetargetedAfterRemoval(old(files.value), cur, NextTarget(kindOf(cur), cur, old(models), old(materials), old(textures)))
                && textures == old(textures) && textureValue == old(textureValue)
      ensures outcome.Listed? ==>
                && files == old(files) && targetFile == old(targetFile)
                && models == old(models) && modelValue == old(modelValue)
                && TexturesListed(m, cur, outcome.showPanel)
    {
      if m.None? || m.value !in ModelKeys(files.value) {
        AddTextures([]);
        return Listed(false);
      }
      if cur != "" {
        var gone := SafeRemoveFile(Some(cur), fileExists, kindOf);
        if gone {
          return FileRemoved;
        }
      }
      if cur !in MaterialKeys(MaterialsOf(files.value, m.value)) {
        AddTextures([]);
        return Listed(false);
      }
      var texs := TexturesOf(files.value, m.value, cur);
      var show := !TargetFileLocked() && targetFile.material.Some? && targetFile.texture.None?;
      AddTextures(texs);
      return Listed(show);
    }

    /**
     * Texture_Changed: loads the selected texture; the target is cleared
     * only when the handler runs to its end, not on its early returns.
     */
    method TextureChanged(removed: Option<seq<string>>, confirm: Box -> bool,
                          fileExists: string -> bool, kindOf: string -> FileKind)
      returns (outcome: HandlerOutcome)
      requires files.Some? && Valid()
      requires textureValue.Some? ==> FirstsAvailable(kindOf(textureValue.value), textureValue.value, models, materials, textures)
      modifies this`files, this`targetFile, this`models
      modifies this`modelValue, this`materialValue, this`textureValue
      modifies this`modelUnsaved, this`materialUnsaved, this`textureUnsaved
      ensures files.Some? && Valid()
      ensures outcome == NoSelection <==> old(textureValue).None?
      ensures outcome == NoSelection ==> unchanged(this)
      ensures var d := UnsaveDecision(old(cancellingComboBoxes), Some(TextureBox), removed,
                                      old(modelUnsaved), old(materialUnsaved), old(textureUnsaved), confirm);
              && (outcome == Refused <==> old(textureValue).Some? && !d.0)
              && (outcome == FileRemoved <==>
                    && old(textureValue).Some? && d.0 && !IsNullOrWhiteSpace(old(textureValue))
                    && !fileExists(old(textureValue).value) && Occurs(old(files.value), old(textureValue).value))
              && (outcome == FileRemoved || outcome.Listed? ==>
                    && modelUnsaved == (old(modelUnsaved) && ModelBox !in d.1)
                    && materialUnsaved == (old(materialUnsaved) && MaterialBox !in d.1)
                    && textureUnsaved == (old(textureUnsaved) && TextureBox !in d.1))
      ensures outcome == Refused ==>
                && files == old(files) && targetFile == old(targetFile) && models == old(models)
                && modelUnsaved == old(modelUnsaved) && materialUnsaved == old(materialUnsaved)
                && textureUnsaved == old(textureUnsaved)
                && textureValue == (if !old(cancellingComboBoxes) && removed.Some? then Some(removed.value[0]) else old(textureValue))
                && modelValue == old(modelValue) && materialValue == old(materialValue)
      ensures outcome == FileRemoved ==>
                var cur := old(textureValue).value;
                && RetargetedAfterRemoval(old(files.value), cur, NextTarget(kindOf(cur), cur, old(models), old(materials), old(textures)))
                && materialValue == old(materialValue) && textureValue == old(textureValue)
      ensures outcome.Listed? ==>
                && files == old(files) && targetFile == NoTarget
                && models == old(models) && modelValue == old(modelValue)
                && materialValue == old(materialValue) && textureValue == old(textureValue)
                && outcome.showPanel == (old(targetFile).model != Some("!") && old(targetFile).texture.Some?)
    {
      if textureValue.None? {
        return NoSelection;
      }
      var ok := ConfirmChange(TextureBox, removed, confirm);
      if !ok {
        return Refused;
      }
      outcome := TextureSelected(textureValue.value, fileExists, kindOf);
    }

    /** Texture_Changed after the confirmation: a missing file is taken out, otherwise the target is cleared. */
    method TextureSelected(tex: string, fileExists: string -> bool, kindOf: string -> FileKind)
      returns (outcome: HandlerOutcome)
      requires files.Some? && Valid()
      requires FirstsAvailable(kindOf(tex), tex, models, materials, textures)
      modifies this`files, this`targetFile, this`models, this`modelValue
      ensures files.Some? && Valid()
      ensures outcome == FileRemoved || outcome.Listed?
      ensures outcome == FileRemoved <==> !IsNullOrWhiteSpace(Some(tex)) && !fileExists(tex) && Occurs(old(files.value), tex)
      ensures outcome == FileRemoved ==>
                && RetargetedAfterRemoval(old(files.value), tex, NextTarget(kindOf(tex), tex, old(models), old(materials), old(textures)))
      ensures outcome.Listed? ==>
                && files == old(files) && targetFile == NoTarget
                && models == old(models) && modelValue == old(modelValue)
                && outcome.showPanel == (old(targetFile).model != Some("!") && old(targetFile).texture.Some?)
    {
      if tex != "" {
        var gone := SafeRemoveFile(Some(tex), fileExists, kindOf);
        if gone {
          return FileRemoved;
        }
      }
      var show := !TargetFileLocked() && targetFile.texture.Some?;
      targetFile := NoTarget;
      return Listed(show);
    }

    /**
     * ModTransaction_FileChanged: a changed file asks for a rebuild when the
     * tree is loaded, the path is not blank, the file belongs to this root,
     * and it is not yet anywhere in the tree.
     */
    method FileChanged(changedFile: Option<string>, fileRoot: Option<string>) returns (rebuild: bool)
      ensures rebuild ==> && files.Some? && !IsNullOrWhiteSpace(changedFile) && fileRoot == RootId(root)
      ensures (&& files.Some? && !IsNullOrWhiteSpace(changedFile) && fileRoot == RootId(root)
               && !Occurs(files.value, changedFile.value)) ==> rebuild
      ensures (&& files.Some? && !IsNullOrWhiteSpace(changedFile) && "!" !in ModelKeys(files.value)
               && Occurs(files.value, changedFile.value)) ==> !rebuild
    {
      if files.None? {
        return false;
      }
      if IsNullOrWhiteSpace(changedFile) {
        return false;
      }
      if RootId(root) == fileRoot {
        GetFileKeysSpec(files.value, changedFile.value);
        var keys := GetFileKeys(files, changedFile);
        if Occurs(files.value, changedFile.value) {
          var k := FirstMatch(Entries(files.value), changedFile.value).value;
          assert IsEntry(files.value, k);
        }
        rebuild := keys.model == Some("!");
        return;
      }
      rebuild := false;
    }
  }
}
