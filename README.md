# FFXIV TexTools item view, viewport and helpers — a verified model

This project models the parts of FFXIV TexTools' user interface that keep
and transform state, without the WPF controls around them.

- **The item view** (`ItemViewControl`). Its `Files` tree maps each model
  path to its material paths and each material path to its texture paths.
  An empty-string key stands for a missing level.
  - The view builds the tree in three stages: models, then materials and
    orphan materials, then textures.
  - It searches the tree (`GetFileKeys`).
  - It patches the tree in place (`RemoveFile`, `SafeRemoveFile`,
    `SafeAddFile`).
  - It decides whether a changed file needs a rebuild.
  - It turns the tree into three dropdown lists, with target-or-first
    selection and watermark counts.
  - It asks the panels with unsaved changes for confirmation
    (`HandleUnsaveConfirmation`).
  - It keeps the one-shot `_TargetFile`. The `_TargetFileSet` and
    `_TargetFileLocked` predicates are `TargetFileSet` and
    `TargetFileLocked`.
- **The 3D viewport** (`Viewport3DViewModel`).
  - It merges one mesh group's parts into a single vertex and index buffer.
  - It sets the models' render flags from the selected mesh.
  - It keeps the list of active shapes, which the `ActiveShapes` function
    returns by value.
- **Two view helpers.** One maps the race setting and gender to a race and
  body. The other builds the text of a progress report.
- **The manipulation editor window.** It mirrors an option's manipulation
  list, removes the selected entry, and picks the editor for the selection.

## How the model is built

- **The tree** (`FileTree`) is a sequence of model nodes. Each node holds a
  sequence of material nodes, and each material node holds a sequence of
  texture paths.
  - A .NET `Dictionary` or `HashSet` that was never shrunk enumerates in
    insertion order. So sequence order is the order in which the source's
    `foreach` loops visit the keys.
  - Keys are unique at every level (`WellFormed`).
- **Exceptions the tree code raises itself** become an `ok == false`
  outcome that keeps the tree as the exception left it
  (`TreeBuilder.Outcome`). This covers:
  - `Dictionary.Add` of a key that is already present: a repeated model
    path, or the unguarded orphan add;
  - `First()` on an empty dictionary.

  Exceptions thrown by the root's resolvers or by the file lookups are not
  modelled: those are total functions here (see "## Left out").
- **GetMaterials without a root** always throws. `GetModels` has already
  added the blank model, and `GetMaterials` adds it again. The model
  records this (`BuildTreeSpec`). Loading an item without a root stops
  earlier, with a not-implemented exception, so no rebuild runs without
  one.
- **The dependency root's answers** are fields of `TreeBuilder.RootInfo`.
  These are the model files, material files, variant-shifted materials,
  orphan materials and the secondary id of a file name.
- **Other lookups** are parameters of the methods that use them: texture
  paths of a material, `FileExists`, the extension test, and the user's
  answers to the discard prompts.
- **.NET text conventions** are written out in module `Decimal`:
  - `Int32.ToString()`, with `-` as the minus sign. The counts the view
    formats (watermark counts, progress counters) are not negative in practice, and for them the text is the same in every
    culture;
  - `int.Parse` with the default integer style. White space is skipped
    around the number, an optional sign is accepted, and overflow is
    rejected.
- **The `Lists` module** holds `List.Remove` (drop the first occurrence)
  and `HashSet.Add` (add if absent).

## Model

| member | source | states |
|---|---|---|
| Lists.DistinctSnoc | FFXIV_TexTools/Views/Item/ItemViewControl.xaml.cs:628-634 | appending keeps keys unique exactly when the new key is absent |
| Lists.IndexOf | FFXIV_TexTools/ViewModels/Viewport3DViewModel.cs:838-842 | the position found holds the element and no earlier position does |
| Lists.RemoveFirst | FFXIV_TexTools/ViewModels/Viewport3DViewModel.cs:838-842 | `List.Remove` leaves an absent element's list unchanged and shortens the list by one otherwise |
| Lists.RemoveFirstAt | FFXIV_TexTools/ViewModels/Viewport3DViewModel.cs:838-842 | removal cuts out exactly the first occurrence and keeps the order of the rest |
| Lists.RemoveFirstSnoc | FFXIV_TexTools/ViewModels/Viewport3DViewModel.cs:832-842 | removing a shape just added undoes the add when it was new, and otherwise removes its earlier occurrence |
| Lists.RemoveFirstDistinct | FFXIV_TexTools/Views/ModPack/Wizard/ManipulationEditorWindow.xaml.cs:84 | on a list without repetitions, removal leaves exactly the other elements, still without repetitions |
| Lists.DropDistinct | FFXIV_TexTools/Views/Item/ItemViewControl.xaml.cs:1049 | cutting one position out of a list without repetitions leaves exactly the other elements, once each |
| Lists.DropAtDistinct | FFXIV_TexTools/Views/Item/ItemViewControl.xaml.cs:1049 | removing a unique key by position is the same as removing its first occurrence, and keeps keys unique |
| Lists.AddIfAbsent | FFXIV_TexTools/Views/Item/ItemViewControl.xaml.cs:1147-1150 | `HashSet.Add`: membership grows by exactly the element, the set is unchanged iff it was present, earlier order is kept |
| Lists.AddAll | FFXIV_TexTools/Views/Item/ItemViewControl.xaml.cs:760-763 | adding a batch keeps members unique, gives the union, keeps the old set as a prefix, and changes nothing iff all were present |
| Decimal.NatDigits | FFXIV_TexTools/Views/Item/ItemViewControl.xaml.cs:579 | the digits of a count are decimal digits without a leading zero |
| Decimal.FormatInt | FFXIV_TexTools/Views/Item/ItemViewControl.xaml.cs:579 | an integer's text is non-empty, starts with a minus sign exactly for negatives, ends in a digit and has no slash |
| Decimal.ParseInt | FFXIV_TexTools/ViewModels/Viewport3DViewModel.cs:430 | `int.Parse` only yields values in the 32-bit range |
| Decimal.DigitsValueOfNatDigits | FFXIV_TexTools/ViewModels/Viewport3DViewModel.cs:430 | reading back the digits of a natural number gives the number |
| Decimal.ParseFormatRoundTrip | FFXIV_TexTools/ViewModels/Viewport3DViewModel.cs:430 | parsing the text of any 32-bit integer gives that integer back |
| FileTree.ModelKeys | FFXIV_TexTools/Views/Item/ItemViewControl.xaml.cs:527 | `Files.Keys` lists the model keys in tree order |
| FileTree.FindModel | FFXIV_TexTools/Views/Item/ItemViewControl.xaml.cs:1135 | a model is found exactly when it is a key, and at its position |
| FileTree.FindMaterial | FFXIV_TexTools/Views/Item/ItemViewControl.xaml.cs:1141 | a material is found exactly when it is a key of the level, and at its position |
| FileTree.FirstMatchSpec | FFXIV_TexTools/Views/Item/ItemViewControl.xaml.cs:1016-1037 | the search finds nothing iff no entry has the path, and otherwise the earliest entry that does |
| FileTree.LocateInMaterials | FFXIV_TexTools/Views/Item/ItemViewControl.xaml.cs:1022-1035 | a hit inside one model always names that model as its model key |
| FileTree.Locate | FFXIV_TexTools/Views/Item/ItemViewControl.xaml.cs:1016-1037 | a hit always names a model key; the first-match property is proved below |
| FileTree.LocateIsFirstMatch | FFXIV_TexTools/Views/Item/ItemViewControl.xaml.cs:1016-1037 | the nested search returns the first entry in model → material → texture order |
| FileTree.LocateInMaterialsIsFirstMatch | FFXIV_TexTools/Views/Item/ItemViewControl.xaml.cs:1022-1035 | the search inside one model returns the first of its material and texture entries holding the path |
| FileTree.LocateInMaterialsSound | FFXIV_TexTools/Views/Item/ItemViewControl.xaml.cs:1022-1035 | the search inside one model succeeds iff one of its materials or textures is the path, and returns an entry of that model |
| FileTree.LocateSound | FFXIV_TexTools/Views/Item/ItemViewControl.xaml.cs:1016-1037 | the search succeeds iff the path occurs at some level, and what it returns is an entry of the tree ending in that path |
| FileTree.GetFileKeys | FFXIV_TexTools/Views/Item/ItemViewControl.xaml.cs:1004-1041 | the keys are all null exactly for a null or empty path or a null tree |
| FileTree.GetFileKeysSpec | FFXIV_TexTools/Views/Item/ItemViewControl.xaml.cs:1004-1041 | a path in the tree gives the first entry holding it, a path nowhere in it gives `("!", null, null)` |
| FileTree.RemoveEntry | FFXIV_TexTools/Views/Item/ItemViewControl.xaml.cs:1043-1071 | removing a model drops exactly one model node; removing a material or texture keeps every model key; removing a texture also keeps every material key |
| FileTree.RemovePath | FFXIV_TexTools/Views/Item/ItemViewControl.xaml.cs:1043-1071 | removal reports true iff the path occurs, and leaves the tree as it was otherwise |
| FileTree.RemoveTexturePath | FFXIV_TexTools/Views/Item/ItemViewControl.xaml.cs:1060-1066 | removing a texture changes only that material's set, which loses exactly the path; every key stays |
| FileTree.RemoveMaterialPath | FFXIV_TexTools/Views/Item/ItemViewControl.xaml.cs:1052-1058 | removing a material drops exactly that node of its model, even when the model is left without materials |
| FileTree.RemoveModelPath | FFXIV_TexTools/Views/Item/ItemViewControl.xaml.cs:1045-1051 | removing a model drops exactly that node, even when the tree is left empty |
| FileTree.RemovePathWellFormed | FFXIV_TexTools/Views/Item/ItemViewControl.xaml.cs:1043-1071 | removal keeps every level's keys unique |
| FileTree.WellFormedDrop | FFXIV_TexTools/Views/Item/ItemViewControl.xaml.cs:1045-1051 | dropping one model node keeps every level's keys unique |
| FileTree.WellFormedDropMaterial | FFXIV_TexTools/Views/Item/ItemViewControl.xaml.cs:1052-1058 | dropping one material node keeps every level's keys unique |
| FileTree.WellFormedRemoveTexture | FFXIV_TexTools/Views/Item/ItemViewControl.xaml.cs:1060-1066 | removing one texture path keeps every level's keys unique |
| FileTree.RemoveEntryWellFormed | FFXIV_TexTools/Views/Item/ItemViewControl.xaml.cs:1043-1071 | removing any entry keeps every level's keys unique |
| FileTree.IsEntryByKeys | FFXIV_TexTools/Views/Item/ItemViewControl.xaml.cs:1135-1151 | the keys name an entry iff each is present under the one above it |
| FileTree.AddModelKey | FFXIV_TexTools/Views/Item/ItemViewControl.xaml.cs:1135-1139 | the model is a key afterwards; an existing key leaves the tree as it is; a new one is appended with no materials, after the old keys |
| FileTree.AddMaterialKey | FFXIV_TexTools/Views/Item/ItemViewControl.xaml.cs:1141-1145 | the material is a key under its model afterwards and the model keys never change; an existing material leaves the tree as it is; a new one is appended after the model's old material keys |
| FileTree.AddTextureKey | FFXIV_TexTools/Views/Item/ItemViewControl.xaml.cs:1147-1151 | the texture is in its material's set afterwards and no model or material key changes; an existing texture leaves the tree as it is; a new one is appended to that set |
| FileTree.AddModelKeySpec | FFXIV_TexTools/Views/Item/ItemViewControl.xaml.cs:1135-1139 | on a tree with unique keys: an existing model gives back the same tree; otherwise the keys gain exactly the model at the end, the old nodes stay in place, the new model has no materials, and the only new entry is the model itself; keys stay unique |
| FileTree.AddMaterialKeySpec | FFXIV_TexTools/Views/Item/ItemViewControl.xaml.cs:1141-1145 | an existing material gives back the same tree; otherwise that model's materials gain exactly the new material, without textures, at the end, every other model is unchanged, and the only new entry is that model–material pair; keys stay unique |
| FileTree.AddTextureKeySpec | FFXIV_TexTools/Views/Item/ItemViewControl.xaml.cs:1147-1151 | an existing texture gives back the same tree; otherwise that material's set gains exactly the texture at the end, every other model and material is unchanged, and the only new entry is that model–material–texture chain; keys stay unique |
| FileTree.AddKeys | FFXIV_TexTools/Views/Item/ItemViewControl.xaml.cs:1132-1156 | afterwards the model is a key, the material is a key under it and the texture is in that material's set; when all of them were already there the tree is unchanged and the flag is false |
| FileTree.AddKeysSpec | FFXIV_TexTools/Views/Item/ItemViewControl.xaml.cs:1132-1156 | afterwards the keys are an entry; something changed iff they were not one before; an existing entry leaves the tree as it was; no entry is lost; every new entry is the model, the model–material pair or the full requested chain; keys stay unique |
| FileTree.ExtendsKeepsEntries | FFXIV_TexTools/Views/Item/ItemViewControl.xaml.cs:1132-1156 | replacing a model node by one that keeps its materials and textures loses no entry |
| TreeBuilder.InsertModels | FFXIV_TexTools/Views/Item/ItemViewControl.xaml.cs:631-634 | the model loop keeps the tree it starts from as a prefix, adds at most one model per path, each without materials, and exactly one per path when it completes |
| TreeBuilder.InsertModelsFailed | FFXIV_TexTools/Views/Item/ItemViewControl.xaml.cs:631-634 | once an add of a model has thrown, the later paths change nothing |
| TreeBuilder.InsertModelsSpec | FFXIV_TexTools/Views/Item/ItemViewControl.xaml.cs:631-634 | the model loop completes iff the paths are distinct, and then the keys are the paths in order, each with no materials |
| TreeBuilder.ModelLevel | FFXIV_TexTools/Views/Item/ItemViewControl.xaml.cs:620-641 | without a root the level is the one blank model; when it completes there is at least one model, one per path when there are paths; no model has materials yet |
| TreeBuilder.ModelLevelSpec | FFXIV_TexTools/Views/Item/ItemViewControl.xaml.cs:620-641 | GetModels gives the blank model without a root or without paths, the paths otherwise, and never an empty tree when it completes |
| TreeBuilder.InsertMaterialsSpec | FFXIV_TexTools/Views/Item/ItemViewControl.xaml.cs:668-674 | adding materials to a model adds exactly the absent ones, in order, with empty texture sets, and keeps the existing ones in place |
| TreeBuilder.InsertMaterialsKeys | FFXIV_TexTools/Views/Item/ItemViewControl.xaml.cs:668-674 | the material keys after the adds are the set union of the old keys and the new paths, in first-insertion order |
| TreeBuilder.InsertMaterialsKeeps | FFXIV_TexTools/Views/Item/ItemViewControl.xaml.cs:668-674 | the existing materials stay in place and every new material starts with no textures |
| TreeBuilder.InsertMaterialsWellFormed | FFXIV_TexTools/Views/Item/ItemViewControl.xaml.cs:683-689 | adding materials keeps that model's keys unique |
| TreeBuilder.ResolveMaterials | FFXIV_TexTools/Views/Item/ItemViewControl.xaml.cs:663-691 | the model keys stay; it throws iff the item is a human body with no model; for a human body only the first model changes |
| TreeBuilder.ResolveMaterialsSpec | FFXIV_TexTools/Views/Item/ItemViewControl.xaml.cs:663-691 | the first stage fails only for a human body with no model; it keeps the model keys and gives each model the union of its materials and those resolved for it |
| TreeBuilder.SecondaryMatch | FFXIV_TexTools/Views/Item/ItemViewControl.xaml.cs:713 | finds the first model whose secondary id equals the orphan's, or none when no model's does |
| TreeBuilder.AttachOrphan | FFXIV_TexTools/Views/Item/ItemViewControl.xaml.cs:708-726 | the model keys stay, and a throwing add leaves the tree as it was |
| TreeBuilder.AttachOrphanSpec | FFXIV_TexTools/Views/Item/ItemViewControl.xaml.cs:708-726 | attaching an orphan keeps models, their materials and unique keys; it throws iff no model has its secondary id and the first model is missing or already holds it; otherwise the orphan is added to the destination (the first model with its secondary id, else the first model) as a set add, and every other model is unchanged; a throw changes nothing |
| TreeBuilder.AttachOrphans | FFXIV_TexTools/Views/Item/ItemViewControl.xaml.cs:708-726 | the orphan loop keeps the model keys, and no orphans change nothing |
| TreeBuilder.AttachOrphansFailed | FFXIV_TexTools/Views/Item/ItemViewControl.xaml.cs:708-726 | once an orphan add has thrown, the later orphans change nothing |
| TreeBuilder.KeepsTransitive | FFXIV_TexTools/Views/Item/ItemViewControl.xaml.cs:708-726 | keeping a model's materials as a prefix composes over several adds |
| TreeBuilder.KeepsMaterial | FFXIV_TexTools/Views/Item/ItemViewControl.xaml.cs:708-726 | a model whose materials are kept still has each of them as a key |
| TreeBuilder.AttachOrphansSpec | FFXIV_TexTools/Views/Item/ItemViewControl.xaml.cs:694-727 | the orphan loop keeps models, their materials and unique keys; on success every orphan is a material of its own destination model; any material that was not there before is an orphan whose destination is that model |
| TreeBuilder.OrphanStage | FFXIV_TexTools/Views/Item/ItemViewControl.xaml.cs:694-727 | the orphan stage keeps the model keys; with a secondary type it throws iff there is no model |
| TreeBuilder.OrphanStageSpec | FFXIV_TexTools/Views/Item/ItemViewControl.xaml.cs:694-727 | the orphan stage keeps models, their materials and unique keys; with a secondary type it throws iff there is no model, and then the first model's material keys become the union with the orphans while every other model is unchanged; without one every orphan goes to its destination model and nowhere else |
| TreeBuilder.FillBlankMaterials | FFXIV_TexTools/Views/Item/ItemViewControl.xaml.cs:729-736 | the blank fill keeps the model keys and leaves no model without a material |
| TreeBuilder.FillBlankMaterialsSpec | FFXIV_TexTools/Views/Item/ItemViewControl.xaml.cs:729-736 | the blank fill gives exactly the models without materials the blank material and leaves the others untouched |
| TreeBuilder.MaterialLevel | FFXIV_TexTools/Views/Item/ItemViewControl.xaml.cs:648-737 | without a root it throws iff the blank model is already there and otherwise appends it; with a root the model keys stay and on success every model has a material |
| TreeBuilder.MaterialLevelSpec | FFXIV_TexTools/Views/Item/ItemViewControl.xaml.cs:648-737 | GetMaterials keeps the models; on success every model has a material; with a secondary type every orphan is a material of the first model; without one every orphan is a material of its destination model; on an empty tree it completes iff nothing needs `First()`; with a secondary type and a model it always completes |
| TreeBuilder.MaterialLevelNoRoot | FFXIV_TexTools/Views/Item/ItemViewControl.xaml.cs:650-654 | without a root GetMaterials adds a blank model, and throws iff there already is one |
| TreeBuilder.AttachOrphansEmpty | FFXIV_TexTools/Views/Item/ItemViewControl.xaml.cs:723-724 | with no model at all, any orphan that must go to the first model throws |
| TreeBuilder.FirstBlank | FFXIV_TexTools/Views/Item/ItemViewControl.xaml.cs:751-757 | the texture loop of a model stops at its first blank material key |
| TreeBuilder.FillTextures | FFXIV_TexTools/Views/Item/ItemViewControl.xaml.cs:751-764 | the texture loop of one model keeps its material keys, and every material keeps its old textures as a prefix |
| TreeBuilder.TextureLevel | FFXIV_TexTools/Views/Item/ItemViewControl.xaml.cs:745-772 | the texture level is never empty, keeps the model keys of a non-empty tree and every model's material keys |
| TreeBuilder.TextureLevelSpec | FFXIV_TexTools/Views/Item/ItemViewControl.xaml.cs:745-772 | GetTextures keeps all model and material keys; each material before the first blank one gets the union of its set and its file's texture paths; the rest are unchanged; an empty tree becomes the blank model |
| TreeBuilder.BuildTree | FFXIV_TexTools/Views/Item/ItemViewControl.xaml.cs:515-528 | a rebuild never completes without a root, and a completed rebuild has at least one model |
| TreeBuilder.BuildTreeSpec | FFXIV_TexTools/Views/Item/ItemViewControl.xaml.cs:515-528 | a rebuild keeps keys unique; it never completes without a root or with a repeated model path; when it completes no level is empty |
| ComboLists.Values | FFXIV_TexTools/Views/Item/ItemViewControl.xaml.cs:813 | the values of a dropdown's entries, one per entry |
| ComboLists.BlankAt | FFXIV_TexTools/Views/Item/ItemViewControl.xaml.cs:781-787 | the list building stops at the first blank key |
| ComboLists.ComboList | FFXIV_TexTools/Views/Item/ItemViewControl.xaml.cs:778-808 | a dropdown list is never empty |
| ComboLists.ComboListSpec | FFXIV_TexTools/Views/Item/ItemViewControl.xaml.cs:778-808 | a dropdown is never empty; it shows the keys in order up to the first blank; it has one entry per key before the blank plus the `"--"` placeholder exactly when a blank key stopped it or there was no key, and the placeholder is then last; it starts with `"--"` iff there are no keys or the first is blank; without blank keys it shows every key |
| ComboLists.BuildList | FFXIV_TexTools/Views/Item/ItemViewControl.xaml.cs:780-808 | the loop with its `break` builds exactly that list |
| ComboLists.SelectedIndex | FFXIV_TexTools/Views/Item/ItemViewControl.xaml.cs:813-820 | the selection is the first entry whose value is the target when the target is set and listed, otherwise the first entry |
| ComboLists.FirstWithValue | FFXIV_TexTools/Views/Item/ItemViewControl.xaml.cs:815 | selecting by value picks the first entry with that value |
| ComboLists.SelectedValue | FFXIV_TexTools/Views/Item/ItemViewControl.xaml.cs:813-820 | the value a dropdown shows is the target when the target is set and listed, and the first entry's value otherwise |
| ComboLists.WatermarkCount | FFXIV_TexTools/Views/Item/ItemViewControl.xaml.cs:565-581 | the count is at most the number of entries, and zero exactly for an empty list or one whose first entry is blank |
| ComboLists.WatermarkCountSpec | FFXIV_TexTools/Views/Item/ItemViewControl.xaml.cs:565-581 | the watermark count is 0 when the first key is blank or there are none, otherwise the listed keys plus one for a trailing `"--"` |
| ComboLists.Watermark | FFXIV_TexTools/Views/Item/ItemViewControl.xaml.cs:565-615 | the watermark starts with the singular word for a count of one and the plural otherwise, then `" ("`, and ends with `")"` |
| ComboLists.WatermarkReadBack | FFXIV_TexTools/Views/Item/ItemViewControl.xaml.cs:565-615 | the watermark is the singular word for exactly one entry and the plural otherwise, followed by the count in parentheses, which parses back |
| ItemView.PromptOrderSpec | FFXIV_TexTools/Views/Item/ItemViewControl.xaml.cs:953-967 | panels are asked in model, material, texture order, each only when unsaved and gated by the triggering dropdown; the texture dropdown asks none |
| ItemView.Picked | FFXIV_TexTools/Views/Item/ItemViewControl.xaml.cs:953-967 | picking panels in the fixed order gives strictly increasing ranks, and each panel is present exactly when picked |
| ItemView.AskedPrefix | FFXIV_TexTools/Views/Item/ItemViewControl.xaml.cs:953-967 | the panels asked are a prefix of the order, and every one before the last accepted |
| ItemView.AskedAccepted | FFXIV_TexTools/Views/Item/ItemViewControl.xaml.cs:953-967 | the panels asked all accept iff every panel in the order would, and then the whole order is asked |
| ItemView.AskedLast | FFXIV_TexTools/Views/Item/ItemViewControl.xaml.cs:953-967 | the panels asked all accept iff none was asked or the last one asked accepted |
| ItemView.AskedCons | FFXIV_TexTools/Views/Item/ItemViewControl.xaml.cs:953-967 | a refusal by the first panel asks no further panel; an acceptance goes on with the rest |
| ItemView.AskedStep | FFXIV_TexTools/Views/Item/ItemViewControl.xaml.cs:953-967 | one guarded prompt moves exactly one panel from the still-to-ask part to the asked part, or none when it is not asked |
| ItemView.AddMissingMaterials | FFXIV_TexTools/Views/Item/ItemViewControl.xaml.cs:668-674 | the add-if-absent loop computes the material insertion |
| ItemView.AddTexturePaths | FFXIV_TexTools/Views/Item/ItemViewControl.xaml.cs:760-763 | the `HashSet.Add` loop computes the set union in order |
| ItemView.FillMaterialTextures | FFXIV_TexTools/Views/Item/ItemViewControl.xaml.cs:751-764 | the material loop with its `break` fills textures up to the first blank material |
| ItemView.ResolveStage | FFXIV_TexTools/Views/Item/ItemViewControl.xaml.cs:663-691 | the first material loop computes the resolution stage |
| ItemView.OrphanLoop | FFXIV_TexTools/Views/Item/ItemViewControl.xaml.cs:694-727 | the orphan loop, stopping at the first throwing add, computes the orphan stage |
| ItemView.FillBlankLoop | FFXIV_TexTools/Views/Item/ItemViewControl.xaml.cs:729-736 | the last loop computes the blank fill |
| ItemView.NextTarget | FFXIV_TexTools/Views/Item/ItemViewControl.xaml.cs:1098-1118 | for a texture, a material or a model the next target is the first file of its dropdown unless that is the removed file; then it is the first file of the level above, and for a model nothing; an unknown kind gives nothing |
| ItemView.ItemViewControl.constructor | FFXIV_TexTools/Views/Item/ItemViewControl.xaml.cs:213-263 | a new view has no tree, no root, no target, empty dropdowns and no flags set |
| ItemView.ItemViewControl.GetModels | FFXIV_TexTools/Views/Item/ItemViewControl.xaml.cs:620-641 | the model loop sets the tree to the model level, or leaves the partial tree when a repeated path throws |
| ItemView.ItemViewControl.GetMaterials | FFXIV_TexTools/Views/Item/ItemViewControl.xaml.cs:648-737 | the three loops set the tree to the material level, keeping unique keys |
| ItemView.ItemViewControl.GetTextures | FFXIV_TexTools/Views/Item/ItemViewControl.xaml.cs:745-772 | the nested loops set the tree to the texture level |
| ItemView.ItemViewControl.AddModels | FFXIV_TexTools/Views/Item/ItemViewControl.xaml.cs:778-821 | the model dropdown becomes the list of the keys, and its value is the target model when it is listed, otherwise the first entry |
| ItemView.ItemViewControl.AddMaterials | FFXIV_TexTools/Views/Item/ItemViewControl.xaml.cs:827-861 | the same for the material dropdown and the target material |
| ItemView.ItemViewControl.AddTextures | FFXIV_TexTools/Views/Item/ItemViewControl.xaml.cs:867-925 | the same for the texture dropdown and the target texture |
| ItemView.ItemViewControl.RebuildComboBoxes | FFXIV_TexTools/Views/Item/ItemViewControl.xaml.cs:515-528 | the stages run in order; on success no level is empty, the model dropdown lists the model keys and shows the target model or its first entry; a throw leaves the dropdown and its value as they were |
| ItemView.ItemViewControl.DispatchRebuild | FFXIV_TexTools/Views/Item/ItemViewControl.xaml.cs:274-290 | the target becomes the keys of the visible panel's file, then the tree is rebuilt; on success no level is empty and the model dropdown lists the model keys and shows the target model or its first entry; on a throw the dropdown and its value stay |
| ItemView.ItemViewControl.HandleUnsaveConfirmation | FFXIV_TexTools/Views/Item/ItemViewControl.xaml.cs:931-1001 | false with no prompt while cancelling; true with no prompt when nothing was deselected; otherwise prompts in order up to the first refusal; acceptance clears exactly the prompted flags; a refusal clears none and restores the triggering dropdown |
| ItemView.AskPanels | FFXIV_TexTools/Views/Item/ItemViewControl.xaml.cs:948-967 | the three guarded prompts ask exactly the panels in that order up to a refusal |
| ItemView.UnsaveDecision | FFXIV_TexTools/Views/Item/ItemViewControl.xaml.cs:931-1001 | the change may go on exactly when no cancellation is under way and every panel asked accepted; nothing is asked while cancelling or when nothing was deselected |
| ItemView.DecideUnsave | FFXIV_TexTools/Views/Item/ItemViewControl.xaml.cs:948-967 | the prompts ask exactly the panels of the order up to the first refusal, and the result is whether all of them accepted |
| ItemView.ItemViewControl.ApplyDecision | FFXIV_TexTools/Views/Item/ItemViewControl.xaml.cs:969-1000 | a go-ahead clears exactly the flags of the panels asked and keeps the dropdown values; a refusal keeps every flag and puts the triggering dropdown back on the entry it left |
| ItemView.ItemViewControl.RemoveFile | FFXIV_TexTools/Views/Item/ItemViewControl.xaml.cs:1043-1071 | returns true iff the path occurs; removes the first entry holding it; keeps keys unique; changes nothing otherwise |
| ItemView.ItemViewControl.SafeRemoveFile | FFXIV_TexTools/Views/Item/ItemViewControl.xaml.cs:1078-1123 | a blank or still existing file changes nothing; otherwise the result is whether it occurred; on removal the target is the keys of the next file and the model dropdown is rebuilt and shows the target model or its first entry |
| ItemView.ItemViewControl.RemoveAndRetarget | FFXIV_TexTools/Views/Item/ItemViewControl.xaml.cs:1093-1122 | the removal reports whether the file occurred and otherwise changes nothing; after a removal the target is the keys of the next file and the model dropdown lists the remaining models and shows the target model or its first entry |
| ItemView.ItemViewControl.SafeAddFile | FFXIV_TexTools/Views/Item/ItemViewControl.xaml.cs:1125-1162 | a blank model key changes nothing; otherwise the keys become an entry and no entry is lost; only when something was added are the target and the model dropdown set, and the dropdown then shows the target model or its first entry |
| ItemView.ItemViewControl.ConfirmChange | FFXIV_TexTools/Views/Item/ItemViewControl.xaml.cs:1174-1177 | the confirmation a handler asks for goes on exactly as `UnsaveDecision` decides; a go-ahead clears the flags of the panels asked and keeps every dropdown value; a refusal keeps the flags and puts only the triggering dropdown back on the entry it left |
| ItemView.ItemViewControl.ModelChanged | FFXIV_TexTools/Views/Item/ItemViewControl.xaml.cs:1164-1212 | no selection changes nothing; the confirmation decides a refusal, after which only the model dropdown goes back to the entry it left; a vanished file is removed, the target moves to the next file and the model dropdown is rebuilt; otherwise the material dropdown lists the model's materials and shows the target material or its first entry, and the panel shows only for a model-only unlocked target; the flags of the panels asked are cleared |
| ItemView.ItemViewControl.ModelSelected | FFXIV_TexTools/Views/Item/ItemViewControl.xaml.cs:1180-1211 | after the confirmation: the file is removed exactly when it is not blank, no longer exists and occurs in the tree, and then the target and the model dropdown follow the removal; otherwise the material dropdown is listed and the panel decision made |
| ItemView.ItemViewControl.MaterialChanged | FFXIV_TexTools/Views/Item/ItemViewControl.xaml.cs:1214-1270 | the same one level down: a refusal restores only the material dropdown; a vanished file is removed as for a model; otherwise the texture dropdown lists the material's textures under the selected model and shows the target texture or its first entry |
| ItemView.ItemViewControl.MaterialSelected | FFXIV_TexTools/Views/Item/ItemViewControl.xaml.cs:1229-1269 | the same after the confirmation for a material under the selected model |
| ItemView.ItemViewControl.TextureChanged | FFXIV_TexTools/Views/Item/ItemViewControl.xaml.cs:1272-1311 | the same for the texture dropdown: a refusal restores only it; a vanished file is removed; a handler that runs to its end clears the target, and the panel shows for an unlocked texture target |
| ItemView.ItemViewControl.TextureSelected | FFXIV_TexTools/Views/Item/ItemViewControl.xaml.cs:1287-1310 | the same after the confirmation for a texture; when it stays, the target is cleared |
| ItemView.ItemViewControl.FileChanged | FFXIV_TexTools/Views/Item/ItemViewControl.xaml.cs:292-324 | a rebuild is asked only for a loaded tree, a non-blank path and the same root; always for such a path missing from the tree; never for one present when `"!"` is not a model key |
| Viewport.Shift | FFXIV_TexTools/ViewModels/Viewport3DViewModel.cs:131-134 | every index of a part is raised by the same offset |
| Viewport.BuffersSnoc | FFXIV_TexTools/ViewModels/Viewport3DViewModel.cs:109-127 | adding one vertex appends its position, normal, texture coordinates, colour, tangent and binormal to the six buffers |
| Viewport.Geometry | FFXIV_TexTools/ViewModels/Viewport3DViewModel.cs:109-137 | the six vertex collections of the merged mesh have one entry per vertex of the parts, and its index collection is the merged indices |
| Viewport.GeometrySizes | FFXIV_TexTools/ViewModels/Viewport3DViewModel.cs:109-137 | the vertex buffers hold the sum of the parts' vertex counts, the index buffer the sum of their index counts |
| Viewport.AllVerticesPrefix | FFXIV_TexTools/ViewModels/Viewport3DViewModel.cs:109-127 | the vertices of the earlier parts come first, in order |
| Viewport.VertexAt | FFXIV_TexTools/ViewModels/Viewport3DViewModel.cs:109-127 | vertex `x` of part `k` sits after all vertices of earlier parts |
| Viewport.MergedIndicesPrefix | FFXIV_TexTools/ViewModels/Viewport3DViewModel.cs:129-136 | the indices of the earlier parts come first, in order |
| Viewport.IndexAt | FFXIV_TexTools/ViewModels/Viewport3DViewModel.cs:129-137 | index `j` of part `k` sits after all earlier parts' indices and is raised by the earlier parts' vertex count |
| Viewport.MergedIndexNamesSameVertex | FFXIV_TexTools/ViewModels/Viewport3DViewModel.cs:109-137 | an index valid in its part names the same vertex in the merged buffers |
| Viewport.FirstPartUnshifted | FFXIV_TexTools/ViewModels/Viewport3DViewModel.cs:99-107 | offsets are local to the group: the first part's indices are copied unchanged |
| Viewport.GetMeshGeometry | FFXIV_TexTools/ViewModels/Viewport3DViewModel.cs:85-140 | the nested loops build exactly the merged geometry of the group's parts |
| Viewport.Viewport3DViewModel.VisibleModels | FFXIV_TexTools/ViewModels/Viewport3DViewModel.cs:418-437 | the "all" label turns every model on; otherwise exactly the model at the parsed index renders, none for an index out of range; a label that does not parse changes no flag |
| Viewport.Viewport3DViewModel.ActiveShapes | FFXIV_TexTools/ViewModels/Viewport3DViewModel.cs:825-830 | the getter hands out the list's current contents in order, as a value that later changes do not reach |
| Viewport.Viewport3DViewModel.AddShape | FFXIV_TexTools/ViewModels/Viewport3DViewModel.cs:832-836 | the shape is appended |
| Viewport.Viewport3DViewModel.RemoveShape | FFXIV_TexTools/ViewModels/Viewport3DViewModel.cs:838-842 | the first occurrence of the shape is dropped |
| Viewport.Viewport3DViewModel.SetShapes | FFXIV_TexTools/ViewModels/Viewport3DViewModel.cs:844-848 | the list is replaced as a whole |
| ViewHelpers.GetUserRace | FFXIV_TexTools/Views/ViewHelpers.cs:141-185 | race and body are four-character ids, and the body is `0101` exactly for a Xaela setting |
| ViewHelpers.GetUserRaceSpec | FFXIV_TexTools/Views/ViewHelpers.cs:141-185 | the mapping is total; the body is `0101` iff the setting is Xaela; for a named race gender 0 gives the male code; any other setting gives `0201` |
| ViewHelpers.RaceCodesShared | FFXIV_TexTools/Views/ViewHelpers.cs:146-182 | Raen and Xaela share race codes and differ in the body; a Midlander setting with another gender falls through to the default |
| ViewHelpers.LastSlash | FFXIV_TexTools/Views/ViewHelpers.cs:48 | finds the last `/` of a text, or none |
| ViewHelpers.LastSlashBefore | FFXIV_TexTools/Views/ViewHelpers.cs:48 | the slash before the total is the last one |
| ViewHelpers.SuffixReadBack | FFXIV_TexTools/Views/ViewHelpers.cs:43-49 | after the counter is appended, the text before it is intact and both counts read back from it |
| ViewHelpers.ProgressMessage | FFXIV_TexTools/Views/ViewHelpers.cs:33-55 | the report text starts with the localised message or the stand-by text, and something follows it exactly when the total is positive |
| ViewHelpers.ProgressMessageSpec | FFXIV_TexTools/Views/ViewHelpers.cs:33-55 | the report text is the localised message, or the stand-by text for an empty one, followed by the counter exactly when the total is positive |
| ViewHelpers.ProgressController.ReportProgress | FFXIV_TexTools/Views/ViewHelpers.cs:29-59 | the dialog shows that text and is indeterminate exactly when the total is not positive |
| ManipulationEditor.EditorFor | FFXIV_TexTools/Views/ModPack/Wizard/ManipulationEditorWindow.xaml.cs:93-114 | no editor without a selection; otherwise an editor for the selection, of the type the table gives, or the unknown-type editor |
| ManipulationEditor.Listing | FFXIV_TexTools/Views/ModPack/Wizard/ManipulationEditorWindow.xaml.cs:73-77 | one row per manipulation, in order, with the manipulation as value |
| ManipulationEditor.FirstOrNone | FFXIV_TexTools/Views/ModPack/Wizard/ManipulationEditorWindow.xaml.cs:79 | `FirstOrDefault`: the first element, none for an empty list |
| ManipulationEditor.SelectionAfterRemove | FFXIV_TexTools/Views/ModPack/Wizard/ManipulationEditorWindow.xaml.cs:82-86 | after a removal the selection is the first remaining element |
| ManipulationEditor.ManipulationEditorWindow.constructor | FFXIV_TexTools/Views/ModPack/Wizard/ManipulationEditorWindow.xaml.cs:58-69 | a missing list becomes an empty one, then the list is shown and its first element selected |
| ManipulationEditor.ManipulationEditorWindow.RebuildList | FFXIV_TexTools/Views/ModPack/Wizard/ManipulationEditorWindow.xaml.cs:71-80 | the display mirrors the option's list and selects its first element or none |
| ManipulationEditor.ManipulationEditorWindow.RemoveSelected | FFXIV_TexTools/Views/ModPack/Wizard/ManipulationEditorWindow.xaml.cs:82-86 | the first occurrence of the selection leaves the option's list, which is shown again; on a list without repetitions exactly the selection is gone |
| ManipulationEditor.ManipulationEditorWindow.ManipulationChanged | FFXIV_TexTools/Views/ModPack/Wizard/ManipulationEditorWindow.xaml.cs:93-114 | the editor box shows the editor for the selection, and is cleared without one |

## Left out

- Asynchronous dispatch, the debounced rebuild and the WPF event cascade are not modelled. Each change handler is modelled on its own, and "request a rebuild" is the result of `FileChanged`. A dropdown whose list is reassigned fires the next handler in the source; the model does not chain them.
- The source's `async void` handlers and `DispatchRebuildComboBoxes` catch every exception. The model shows the exceptions the tree code raises itself (a repeated `Dictionary.Add`, `First()` on an empty dictionary) as an `ok == false` outcome, and a few others as preconditions; what the swallowing then leaves on screen is not modelled.
- Failures of the root's resolvers and of the file lookups are not modelled: `GetModelFiles` (ItemViewControl.xaml.cs:630), `GetVariantShiftedMaterials` (682), `GetOrphanMaterials` (694), `GetTexturePathsFromMtrlPath` (759) and `tx.FileExists` (1086) are total functions or parameters here. In the source `Files` is replaced by a new empty dictionary (622) before any of them runs, so such a throw leaves an empty tree (from `GetModelFiles`) or a partly built one (from the later stages), never the previous tree.
- Decimal.FormatInt: writes `-` for a negative value. `Int32.ToString()` uses the current culture's negative sign, which may differ; only non-negative values, which is what the view formats in practice, come out the same in every culture.
- Display names (race display names, base-name stripping, "DX9 - " prefixes, `GetNiceName`), `LoadInternalFile`, `ShowPanel` and its brushes, enabling flags and watermark rendering are left out. Dropdown entries carry only their values.
- `UpdateModel`, `NormalizePixelData`, lighting, transparency and cull mode in the viewport are left out. Vertex payloads are opaque, and a vertex colour stays as its four integers instead of being divided by 255 into floats.
- The progress ratio sent to `SetProgress` is a double and is left out. The `.L()` localisation is a function parameter.
- `Activator.CreateInstance` of the editor control and `DialogResult` are left out. The model records which editor type is chosen for which manipulation.
- After a `Dictionary.Remove`, .NET may reuse the freed slot for a later `Add`, which changes enumeration order. The model always appends.
- The race setting is reduced to the four values it is compared with plus every other value. `XivRaces.GetXivRace` is kept as the race code string.
- ItemView.ItemViewControl.SafeRemoveFile: requires that the `First()` calls on the dropdown lists succeed (`FirstsAvailable`). In the source an empty list throws after the file has already been removed.
- ItemView.ItemViewControl.RemoveAndRetarget: requires `FirstsAvailable` for the same reason as `SafeRemoveFile`, whose second half it is.
- ItemView.ItemViewControl.SafeAddFile: requires a material key whenever a texture key is given. The source throws on the null material key.
- ItemView.ItemViewControl.GetMaterials: requires a tree. In the source `GetModels` always sets one first.
- ItemView.ItemViewControl.GetTextures: requires a tree, for the same reason.
- ItemView.ItemViewControl.RemoveFile: requires a tree. Its only caller runs after a rebuild.
- ItemView.ItemViewControl.ModelChanged: assumes a built tree, as every handler does. With none, the source's lookups would throw and be swallowed.
- ItemView.ItemViewControl.TextureChanged: the target is reset only when the handler runs to its end. Its early returns skip the reset, so the target is not cleared after every selection.
- ItemView.ItemViewControl.FileChanged: when `"!"` is itself a model key, a path that occurs in the tree may still ask for a rebuild. The contract says nothing about that case.
- Viewport.GetMeshGeometry: `vertCount + vertexId` is 32-bit arithmetic in the source. The model uses unbounded integers, so a wrap-around past 2^31 is not captured.
- Viewport.Viewport3DViewModel.VisibleModels: a null label is not modelled, and the "all" label is a parameter.
- ManipulationEditor.ManipulationEditorWindow.RemoveSelected: `List.Remove(null)` with no selection is modelled as removing nothing, because the list is assumed to hold no null entries.
- `int.Parse` is modelled for the invariant culture's signs and white space. Culture-specific signs are not captured, and neither are the trailing NUL characters newer .NET versions accept.
