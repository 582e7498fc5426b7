# FilesTreeIco folder-structure model

FilesTreeIco (目录图标工具) is a small Windows desktop tool in `main.py`. You define a tree of folders in a
JSON configuration, `{"folders": {<name>: {<sub-name>: {...}, "_icon": <image path>}}}`, and edit it in a
tree widget whose single top item is the synthetic root `根目录`. The tool then materialises the tree on
disk, giving each folder a `desktop.ini` that points at an icon file. This project models the in-memory
logic of that tool in Dafny and proves properties about it:

- `JsonValue`: configuration documents as insertion-ordered mappings (Python dicts) whose values are
  mappings or strings. It defines `get`, `d[k] = v`, `del`, and the `_`-prefix filter.
- `TreeWidget`: the tree widget as a forest of labelled items, with an item id being the positions
  from the top level down. It covers reading labels, inserting a leaf at the end, and deleting an item
  with its subtree.
- `Structure`: `_build_tree` (document to widget, with reserved keys below the top level skipped) and
  `_get_folder_structure` (widget to document). The second includes its behaviours that splice
  `根目录` items and let the last duplicate win.
- `IconWalk`: the walk of `_apply_icon`, as a pure function over key paths. A missing key gets `{}`.
  A value that is not a mapping detaches the walk into a fresh `{}`. At the end, `_icon` is set or
  deleted.
- `Editor`: class `ConfigEditor`, whose fields are `current_file`, `folder_structure`, the widget's
  items and the saved configuration files. Its methods are the editor actions: load, new, add,
  delete, delete configuration, set/clear icon, auto-save, create folders. Dialog answers, the
  preview-image load and the success of file writes and removals are parameters.
- `Materializer`: `create_folders` as a loop over a `Disk` object (the existing directories, and the
  directories `os.makedirs` cannot create), proved against a pure preorder `Plan`. It also models the
  icon file name (`splitext(basename(p))[0] + ".ico"`) and the `desktop.ini` text.

## Model

| member | source | states |
|---|---|---|
| Editor.ConfigEditor.constructor | main.py:24-27 | A new editor has no current file, an empty structure and an empty widget, and it satisfies `Valid()`: the widget is empty or holds just `根目录`, and the structure and every file are dicts at every depth. |
| Editor.ConfigEditor.GetItemPath | main.py:262-268 | Walking up from the item and putting each label at the front yields exactly the labels from the top level down to the item. |
| TreeWidget.PathLabelsAt | main.py:262-268 | The path has one label per level, and position k holds the label of the item's ancestor at depth k+1; the item's own label comes last. |
| TreeWidget.ItemPathFromRoot | main.py:244-246 | Under the synthetic root, every item's path starts with `根目录`, so `path[1:]` is the path below the root. |
| Editor.Saved | main.py:382-391 | Auto-save writes the document to the current file only when there is a non-empty file name and the write succeeds; every other file is untouched, and without a file or on a failed write nothing changes. |
| Editor.ConfigEditor.AutoSave | main.py:382-391 | The saved files become `Saved(...)` of the current state; the file name, the structure and the widget are unchanged. The editor invariant `Valid()` is kept. |
| Editor.TreeFolders | main.py:313-316 | A missing `folders` builds as `{}`; a mapping builds as itself; a string makes the build raise (result `None`) and nothing else does. |
| Editor.TreeView | main.py:310-316 | After an update, the widget holds exactly one root item `根目录` whose children are `_build_tree` of the folders, or no children when building raised. |
| Editor.ConfigEditor.UpdateTree | main.py:310-316 | The widget becomes `TreeView(structure)`; `ok` is false exactly when `folders` is a string; nothing else changes. The editor invariant `Valid()` is kept. |
| Editor.ConfigEditor.LoadConfigFile | main.py:300-308 | A missing file changes nothing. An existing one becomes the structure and the current file, and the widget is rebuilt from it. The editor invariant `Valid()` is kept. |
| Editor.Listing | main.py:286-291 | The definition of the names the configuration list shows, the saved files ending in `.json`; stated by `Editor.NewConfigListed` and `Editor.DeleteUnlists`. |
| Editor.NewConfigListed | main.py:404-406 | After a new configuration is written, the list read back by `_load_configs` holds its suffixed name; after a failed write the list is unchanged. |
| Editor.DeleteUnlists | main.py:453-454 | After a removal, the list read back by `_load_configs` lacks the removed name and keeps every other `.json` name. |
| Editor.WithJsonSuffix | main.py:397-398 | The saved name always ends in `.json`. A name already ending in it is kept; otherwise `.json` is appended. |
| Editor.WithJsonSuffixIdempotent | main.py:397-398 | Normalising the name a second time changes nothing. |
| Editor.ConfigEditor.NewConfig | main.py:393-407 | A cancelled or empty answer changes nothing. Otherwise the current file is the suffixed name (listed when written), the structure is `{"folders": {"新文件夹": {}}}`, it is saved, and the widget shows it. The editor invariant `Valid()` is kept. |
| Editor.NewDocumentTree | main.py:399-407 | A new configuration shows the root holding the one empty folder `新文件夹`. |
| Editor.ConfigEditor.AddSubfolder | main.py:355-371 | Without a selection, or without a non-empty name, nothing changes. Otherwise a leaf is appended to the selected item's children, the structure is rebuilt from the whole widget, and it is saved. The editor invariant `Valid()` is kept. |
| TreeWidget.InsertChild | main.py:362 | The new leaf becomes the last child of the item, the item keeps its label, and the other top-level items are unchanged. |
| TreeWidget.InsertChildNew | main.py:362 | An insert adds exactly one id: every item of the new widget was there before or is the new leaf, the last child of the parent. |
| TreeWidget.InsertChildFrame | main.py:362 | After an insert every item keeps its id and its label, and every item that is not the parent or one of its ancestors is unchanged, with everything under it. |
| Editor.ConfigEditor.DeleteFolder | main.py:373-380 | Without a selection, or with an item labelled `根目录`, nothing changes. Otherwise the item goes with its subtree, the structure is rebuilt from the widget, and it is saved. The editor invariant `Valid()` is kept. |
| TreeWidget.RemoveAt | main.py:377 | The item and everything under it leave its parent's children, and the other children keep their order. A top-level item is cut out of the top level; below it, the other top-level items are unchanged. |
| TreeWidget.RemoveAtNoNewIds | main.py:377 | A delete adds no id outside the parent's subtree: every such item of the new widget was there before. |
| TreeWidget.RemoveAtFrame | main.py:377 | Every item outside the parent's subtree keeps its id and its label, and every such item that is not an ancestor of the parent is unchanged, with everything under it. |
| Editor.DeleteKeepsRoot | main.py:376-377 | Deleting any item of a widget holding the root leaves exactly the root at the top level. |
| Editor.ReaddedFolderIsEmpty | main.py:409-426 | Deleting a folder under the root and adding one with the same name stores the new one as an empty mapping; the old subfolders do not come back. |
| Editor.ConfigEditor.DeleteConfig | main.py:443-462 | A confirmed, successful removal drops the file, which is then not listed. The editor is reset to no file, `{}` and an empty widget only when the file was the current one. In every other case nothing changes. The editor invariant `Valid()` is kept. |
| Editor.ConfigEditor.SetFolderIcon | main.py:73-77 | Without a selection, or on an item labelled `根目录`, nothing changes and no icon is applied. Otherwise the chosen icon is applied as `ApplyIcon` states, along a key path with at least one name, so `_icon` is never written directly into `folders`. The editor invariant `Valid()` is kept. |
| Editor.ConfigEditor.ApplyIcon | main.py:214-260 | The structure becomes `IconUpdate` of the old structure along `path[1:]` and is saved. When the preview image fails or `folders` is a string in a way that raises, the exception is reported and nothing changes. The editor invariant `Valid()` is kept. |
| Editor.ConfigEditor.WalkAndSet | main.py:245-253 | The in-place loop through the aliased `current` mapping leaves `folders` equal to the pure `Walk` of the old folders. |
| IconWalk.Walk | main.py:245-253 | The pure definition of the walk; its properties are stated by `IconWalk.WalkStoresIcon`, `WalkClearsIcon`, `WalkDetached`, `WalkFrame`, `WalkLevelFrame`, `WalkWellFormed`, `WalkIdempotent` and `WalkClearAfterSet`, and `Editor.ConfigEditor.WalkAndSet` is proved equal to it. |
| IconWalk.IconUpdate | main.py:216-253 | The definition of the whole icon change on the document, with the detached default for a missing `folders` and the raise for a string; stated by `IconWalk.IconStoredIff`, `IconUpdateWellFormed` and `IconUpdateIdempotent`, and used by `Editor.ConfigEditor.ApplyIcon`. |
| IconWalk.IconUpdateWellFormed | main.py:216-253 | Setting or clearing an icon keeps the document a dict at every depth. |
| IconWalk.IconUpdateIdempotent | main.py:214-256 | Applying the same icon change to the document a second time gives the same document, so two identical `_apply_icon` calls store what one stores. |
| IconWalk.EnsureFacts | main.py:247-248 | A missing key gets `{}`, an existing value is kept, and every other key reads as before. |
| IconWalk.WalkFromEmpty | main.py:245-253 | From an empty mapping, the walk creates one `{}` per path key, with the icon alone in the innermost one. |
| IconWalk.WalkStoresIcon | main.py:245-253 | When every value on the path is a mapping, the mapping the path reaches afterwards holds `_icon` set to the new path. |
| IconWalk.WalkClearsIcon | main.py:222-232 | When every value on the path is a mapping, the mapping at its end has no `_icon` after clearing. |
| IconWalk.WalkDetached | main.py:249-251 | When a value on the path is not a mapping, the structure afterwards still reaches no mapping at the path, so nothing is set or removed there. |
| IconWalk.WalkFrame | main.py:245-253 | Every entry the walk does not write, in every nested mapping, reads afterwards as before. |
| IconWalk.WalkLevelFrame | main.py:245-253 | At its own level, the walk writes only the first key of the path (or `_icon`). |
| IconWalk.WalkWellFormed | main.py:245-253 | The walk keeps keys unique at every level. |
| IconWalk.WalkIdempotent | main.py:214-253 | Applying the same icon change twice equals applying it once. |
| IconWalk.WalkClearAfterSet | main.py:214-253 | Clearing after setting an icon equals clearing alone. |
| IconWalk.IconStoredIff | main.py:245-253 | After a set, the item's mapping holds the new `_icon` if and only if `folders` is a mapping and the path was open in it. |
| Structure.BuildTree | main.py:318-346 | One item per entry, in mapping order, each labelled with its key. |
| Structure.NodeOf | main.py:320-346 | The definition of the item one entry becomes; stated by `Structure.BuildTreeAt`, `BuildTreeSkipsReserved` and `BuildAfterRebuild`. |
| Structure.BuildTreeLabels | main.py:320 | The top-level labels are exactly the keys of `folders`, reserved or not. |
| Structure.BuildTreeSkipsReserved | main.py:342-346 | Below the top level, no item is made for a key starting with `_`. |
| Structure.RebuildFoldersOnly | main.py:409-426 | The document read from the widget holds only mappings, with unique keys at every depth, so no icon path (a string under `_icon`) survives. |
| Structure.Rebuild | main.py:409-426 | The definition of `_get_folder_structure`; stated by `Structure.RebuildFoldersOnly`, `RebuildKeys`, `RebuildKeyOrder`, `RebuildLastWins`, `AddedLeafIsEmpty`, `RootSplice`, `NestedRootLabel` and `RebuildAfterBuild`. |
| Editor.RebuiltDocument | main.py:370 | The definition of `{"folders": self._get_folder_structure('')}` (also main.py:379); stated by `Editor.RebuiltWellFormed`, `RebuildDropsIcons` and `ReloadRebuild`. |
| Editor.RebuiltWellFormed | main.py:370 | The rebuilt document is a dict at every depth. |
| Editor.RebuildDropsIcons | main.py:409-426 | After any rebuild, no mapping reachable in the document has a string under `_icon`. |
| Structure.RebuildKeys | main.py:413-425 | With no child labelled `根目录`, the keys read from the widget are exactly the children's labels. |
| Structure.RebuildKeyOrder | main.py:413-425 | With distinct labels and no `根目录`, the keys come out in the children's order. |
| Structure.RebuildLastWins | main.py:419-425 | Among same-named siblings, the last one's subtree is stored, provided no `根目录` child follows it. |
| Structure.AddedLeafIsEmpty | main.py:421-425 | A child added at the end reads back as `{}`, whatever an earlier sibling of that name held. |
| Structure.RootSplice | main.py:416-418 | The root item is spliced through: the document read from the top level is the one read from the root's children. |
| Structure.NestedRootLabel | main.py:416-418 | A subfolder named `根目录` replaces its earlier siblings by its own children. |
| Structure.BuildAfterRebuild | main.py:318-346 | Reading a tidy widget and building it again gives the same items. |
| Structure.RebuildAfterBuild | main.py:409-426 | Building a clean document into the widget and reading it back gives the same document. |
| Editor.ReloadRebuild | main.py:409-426 | Loading a clean document and rebuilding it as `{"folders": ...}` gives the document back. |
| JsonValue.PutOverwrite | main.py:423 | A later write to a key wins, and the key keeps its first position. |
| JsonValue.PutLookup | main.py:423 | After `d[k] = v`, `d[k]` is `v` and every other key reads as before. |
| JsonValue.PutKeys | main.py:423 | A write keeps the key order, appends only a new key, and keeps keys unique. |
| JsonValue.DeleteLookup | main.py:231-232 | After `del d[k]`, `k` is gone and every other key reads as before. |
| JsonValue.VisibleMembers | main.py:344 | The filter keeps exactly the entries whose key does not start with `_`. |
| JsonValue.VisibleLookup | main.py:344 | After the filter, a key reads as before unless it is reserved. |
| Editor.ConfigEditor.CreateFoldersAction | main.py:428-441 | Without a current file, or with an empty widget, nothing happens. Otherwise the root item's children are read back and materialised under `.`, with the result and the disk given by `Plan`. |
| Materializer.Disk.MakeDirs | main.py:481-483 | `os.makedirs` succeeds exactly for a directory it can create, and adds just that directory. |
| Materializer.CreateFolders | main.py:470-548 | The directories created or already present are `Plan(base, folders)`, and the disk gains exactly those. |
| Materializer.Plan | main.py:470-548 | The definition of the traversal `create_folders` performs, `Plan` with `Step` (one entry: nothing for a reserved key or a directory that cannot be created, else the directory and the plan of its folders); stated by `Materializer.PlanReaches`, `PlanFolders`, `PlanUnderBase`, `PlanParentFirst`, `PlanAvoidsBlocked`, `PlanAppend` and `RerunChangesNothing`, and `Materializer.CreateFolders` is proved equal to it. |
| Materializer.PlanReaches | main.py:472-548 | Every folder of the mapping, at every depth, is created or already present unless it or a folder above it cannot be created. |
| Materializer.PlanFolders | main.py:472-548 | Conversely, every directory created or already present is the base followed by the names of a folder of the mapping. |
| Materializer.PlanUnderBase | main.py:472-478 | Every directory created or already present extends the base by folder names that never start with `_`. |
| Materializer.PlanParentFirst | main.py:544-548 | Preorder: every directory comes after its parent. |
| Materializer.PlanAvoidsBlocked | main.py:481-492 | A directory that cannot be created is never in the result, and neither is anything below it. |
| Materializer.PlanAppend | main.py:472 | Siblings are processed in mapping order. |
| Materializer.PlanTopLevel | main.py:472-483 | When nothing fails, every non-reserved top-level folder is created or already present. |
| Materializer.RerunChangesNothing | main.py:481-483 | A second run finds the same directories already present and leaves the disk as the first run left it. |
| Materializer.ProjectsScenario | main.py:470-548 | `{"Projects": {"_icon": ..., "2024": {}}}` makes `Projects`, then `Projects/2024`, and nothing for `_icon`. |
| Materializer.Basename | main.py:502 | The basename never contains a path separator. |
| Materializer.BasenameAfterSep | main.py:502 | The name after the last `\` or `/` is the basename when no drive prefix is in the way. |
| Materializer.SplitParts | main.py:503 | Stem plus extension is the file name, and the extension is empty or a single-dot suffix after a stem that is not only dots. |
| Materializer.StemOfExt | main.py:503 | The text up to the last dot is the stem when what precedes the dot is not only dots. |
| Materializer.IconNameShape | main.py:501-503 | The icon file name ends in `.ico` and has no separator. |
| Materializer.IconName | main.py:501-503 | The definition `splitext(basename(p))[0] + ".ico"`; stated by `Materializer.IconNameShape`, `IconNameOfIco`, `IconNameIdempotent` and `StarIcon`. |
| Materializer.IconNameOfIco | main.py:501-503 | A plain `.ico` file name is its own icon name. |
| Materializer.IconNameIdempotent | main.py:501-503 | Naming the icon of an icon name changes nothing. |
| Materializer.StarIcon | main.py:501-503 | `icons/star.png` becomes `star.ico`. |
| Materializer.DesktopIniNamesIcon | main.py:518-519 | The `desktop.ini` text reads back as the icon name it was written for. |
| Materializer.DesktopIni | main.py:519 | The definition of the `desktop.ini` text; stated by `Materializer.DesktopIniNamesIcon`, `IniIconInverse` and `StarIni`. |
| Materializer.IniIconInverse | main.py:518-519 | Any text that reads back as an icon name is the text written for it, so writing and reading are inverse. |
| Materializer.StarIni | main.py:518-519 | For `star.ico`, the text is `[.ShellClassInfo]`, a newline, then `IconResource=.\star.ico,0`. |

## Left out

- The Tkinter interface is not modelled: layout, menus, the icon picker, the preview cache, the
  expand/select/see calls after an insert, and message boxes. Dialog answers, confirmations and
  selections are method parameters.
- Image handling with PIL is not modelled: thumbnails, `PhotoImage` and ICO conversion. A failed
  preview load in `_apply_icon` is the `previewOk` parameter. In `_build_tree` a failed preview only
  loses the picture, so it does not appear at all.
- JSON text is not modelled: parsing, `json.dump` formatting and encodings. Saved files are a map from
  name to document, each taken to be a dict at every depth, as `json.load` of an object gives. A
  parse error or a non-object document is not modelled.
- Writes and removals are parameters (`writeOk`, `removeOk`). A failed write or removal changes no
  file.
- Editor.Saved: only a write that fails at `open` is modelled. `open(..., 'w')` truncates the file
  before `json.dump` writes it, so a failure during the dump leaves an empty or partial file, which
  the model does not capture.
- `os.listdir` order is not modelled. The configuration list is the set of `.json` names.
- `os.path.relpath` is not modelled. The icon path passed to `ApplyIcon` is taken as already relative.
- The shell work of `create_folders` is not modelled because it is external I/O: the temporary icon
  file under `图标`, copying it, deleting an old `desktop.ini`, the `attrib` calls, the icon-cache and
  registry commands, and the ANSI encoding and newline translation of `desktop.ini`. Written in
  text mode on Windows, each `\n` of its text becomes `\r\n` on disk; `Materializer.DesktopIni` and
  `Materializer.StarIni` give the string passed to `write`, not the bytes on disk. `init_icon_dir` and the debug `print`
  output are not modelled either.
- Materializer.CreateFolders: it models the intended traversal, not two defects of the code as
  written, which abort the whole run.
  - Lines 494-498 read `_icon` again from the saved file, as `data['folders'][folder_name]['_icon']`,
    outside any `try`. That raises for every folder without a top-level `_icon`.
  - Line 548 calls `create_folders` without its third argument.
  - The model takes the mapping being materialised as authoritative and recurses with the same
    arguments.
  - The icon steps of a folder are not modelled beyond its `IconName` and `DesktopIni` text.
- Materializer.IconName: it names the icon after `basename(icon_path)` and keeps the `os.path.join`
  with the base directory out. The join does not change the last component of a path that is not
  empty and does not end in a separator.
- Editor.ConfigEditor.ApplyIcon: it models `_apply_icon` alone, which takes any item, without the
  guard of its only caller. `Editor.ConfigEditor.SetFolderIcon` adds that guard (main.py:76) and the
  call made when an icon is chosen (main.py:142-143); the icon dialog itself is not modelled.
- Structure.BuildTree: the editor never applies an icon to the root item, or to any item labelled
  `根目录` (main.py:76, `Editor.ConfigEditor.SetFolderIcon`), so a top-level `_icon` can only come
  from a configuration written by hand. The top level is not filtered, so after a reload it shows
  as an item `_icon`. The next add or delete rebuilds it as an empty top-level `_icon` mapping, which
  `create_folders` then skips as reserved.
- Materializer.Basename: UNC prefixes (`\\server\share`) are not treated specially.
- Materializer.IconNameIdempotent and Materializer.IconNameOfIco: they require a stem with a
  character other than a dot, because a stem of dots only has no extension (`icons/` names `.ico`,
  and `.ico` names `.ico.ico`). They also require that the stem does not begin like a drive (`X:`),
  because `basename` would strip such a prefix.
- Folder names are taken as single path components: `os.path.join(base, name)` appends the name.
  A name holding a `\` or `/`, a drive or absolute name, `..` or the empty name is not modelled, and
  neither is the case-insensitive matching of Windows names. `Materializer.PlanUnderBase` and
  `Materializer.PlanFolders` are statements about these name sequences.
- Materializer.Disk.MakeDirs: it assumes every missing parent directory can be created, which holds
  for the preorder traversal, where the parent was created first. Other reasons `os.makedirs` fails
  are all folded into the set of directories it cannot create.
- Icons do not survive an edit. Every add or delete rebuilds the structure from the widget, and the
  widget does not carry `_icon`, so all icons are dropped (`Editor.RebuildDropsIcons`).
- `_get_folder_structure` splices an item labelled `根目录` at every depth, not only at the root.
  The model follows the code (`Structure.NestedRootLabel`).
