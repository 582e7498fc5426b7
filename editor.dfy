/**
 * `ConfigEditorGUI`, without its widgets: the fields `current_file` and `folder_structure`,
 * the tree widget's items, and the configuration files in the working directory, each held as
 * the document `json.dump` last wrote to it. What the user types or confirms in a dialog, and
 * whether a write, a removal or an image load succeeds, arrive as parameters.
 */
module Editor {
  import opened Wrappers
  import opened JsonValue
  import opened TreeWidget
  import opened Structure
  import opened IconWalk
  import Materializer

  /** The folder a new configuration starts with. */
  const NewFolderName: string := "新文件夹"

  /** The document a new configuration starts with: `{"folders": {"新文件夹": {}}}`. */
  const NewDocument: Entries := [Entry(FoldersKey, Obj([Entry(NewFolderName, Obj([]))]))]

  /** The file name suffix of a configuration. */
  const JsonSuffix: string := ".json"

  predicate EndsWithJson(name: string) {
    |name| >= |JsonSuffix| && name[|name| - |JsonSuffix|..] == JsonSuffix
  }

  /** The name a new configuration is saved under: `.json` is appended unless already there. */
  function WithJsonSuffix(name: string): (r: string)
    ensures EndsWithJson(r)
    ensures EndsWithJson(name) ==> r == name
    ensures !EndsWithJson(name) ==> r == name + JsonSuffix
  {
    if EndsWithJson(name) then name
    else
      assert (name + JsonSuffix)[|name|..] == JsonSuffix;
      name + JsonSuffix
  }

  /** The suffix normalisation changes nothing the second time. */
  lemma {:induction false} WithJsonSuffixIdempotent(name: string)
    ensures WithJsonSuffix(WithJsonSuffix(name)) == WithJsonSuffix(name)
  {
  }

  /** The names the configuration list shows: the files ending in `.json`. */
  function Listing(files: map<string, Entries>): set<string>
  {
    set n | n in files && EndsWithJson(n)
  }

  /** A new configuration that was written is listed under its suffixed name; a failed write
      lists nothing new. */
  lemma {:induction false} NewConfigListed(files: map<string, Entries>, name: string, doc: Entries)
    requires name != ""
    ensures WithJsonSuffix(name) in Listing(Saved(files, Some(WithJsonSuffix(name)), doc, true))
    ensures Listing(Saved(files, Some(WithJsonSuffix(name)), doc, false)) == Listing(files)
  {
    assert HasFile(Some(WithJsonSuffix(name)));
  }

  /** A removed configuration is no longer listed, and the rest of the list stays. */
  lemma {:induction false} DeleteUnlists(files: map<string, Entries>, name: string)
    ensures Listing(files - {name}) == Listing(files) - {name}
  {
  }

  /** `if not self.current_file`: no file, or the empty name, which Python counts as false. */
  predicate HasFile(current: Option<string>) {
    current.Some? && current.value != ""
  }

  /** The files after `_auto_save`: the document is written to the current file when there is one
      and the write succeeds; otherwise nothing is written. */
  function Saved(files: map<string, Entries>, current: Option<string>, doc: Entries, writeOk: bool): (r: map<string, Entries>)
    ensures HasFile(current) && writeOk ==> r.Keys == files.Keys + {current.value} && r[current.value] == doc
    ensures HasFile(current) && writeOk ==> forall n :: n in files && n != current.value ==> r[n] == files[n]
    ensures !(HasFile(current) && writeOk) ==> r == files
  {
    if HasFile(current) && writeOk then files[current.value := doc] else files
  }

  /** `self.folder_structure.get('folders', {})` as `_build_tree` iterates it: `None` when it is a
      string, whose `.items()` raises. */
  function TreeFolders(doc: Entries): (r: Option<Entries>)
    ensures r.None? <==> Lookup(doc, FoldersKey).Some? && Lookup(doc, FoldersKey).value.Str?
    ensures Lookup(doc, FoldersKey).None? ==> r == Some([])
    ensures Lookup(doc, FoldersKey).Some? && Lookup(doc, FoldersKey).value.Obj? ==> r == Some(Lookup(doc, FoldersKey).value.entries)
  {
    match Lookup(doc, FoldersKey)
    case None => Some([])
    case Some(Obj(f)) => Some(f)
    case Some(Str(_)) => None
  }

  /** The widget after `_update_tree`: one root item `根目录` holding the tree of the folders, or
      holding nothing when building raised. */
  function TreeView(doc: Entries): (f: Forest)
    ensures |f| == 1 && f[0].text == RootLabel
    ensures TreeFolders(doc).Some? ==> f[0].children == BuildTree(TreeFolders(doc).value)
    ensures TreeFolders(doc).None? ==> f[0].children == []
  {
    [Node(RootLabel, match TreeFolders(doc) case Some(fs) => BuildTree(fs) case None => [])]
  }

  /** `{"folders": self._get_folder_structure('')}`: the document rebuilt from the whole widget. */
  function RebuiltDocument(f: Forest): Entries {
    [Entry(FoldersKey, Obj(Rebuild(f)))]
  }

  class ConfigEditor {
    /** `self.current_file`. */
    var currentFile: Option<string>
    /** `self.folder_structure`. */
    var structure: Entries
    /** The items of `self.tree`. */
    var tree: Forest
    /** The files of the working directory that the editor reads and writes, by name. */
    var files: map<string, Entries>

    /** What every action keeps: the widget is empty or holds just the root item `根目录`, and the
        structure and every saved file are dicts at every depth. */
    ghost predicate Valid()
      reads this
    {
      && (tree == [] || (|tree| == 1 && tree[0].text == RootLabel))
      && WellFormed(structure)
      && forall n :: n in files ==> WellFormed(files[n])
    }

    /** `__init__`: no file, an empty structure, an empty widget. */
    constructor (existing: map<string, Entries>)
      requires forall n :: n in existing ==> WellFormed(existing[n])
      ensures Valid()
      ensures currentFile == None && structure == [] && tree == [] && files == existing
    {
      currentFile := None;
      structure := [];
      tree := [];
      files := existing;
    }

    /** `_get_item_path`: the labels from the top-level item down to `item`, collected by walking up
        through the parents and inserting each label at the front. */
    method GetItemPath(item: ItemId) returns (path: seq<string>)
      requires ValidId(tree, item)
      ensures path == PathLabels(tree, item)
    {
      path := [];
      var id := item;
      while id != []
        invariant id != [] ==> ValidId(tree, id)
        invariant PathLabels(tree, item) == (if id == [] then [] else PathLabels(tree, id)) + path
        decreases |id|
      {
        PathStep(tree, item, id, path);
        path := [LabelAt(tree, id)] + path;
        id := id[..|id| - 1];
      }
    }

    /** `_auto_save`: writes the structure to the current file, if there is one. A failed write is
        reported to the user and changes nothing. */
    method AutoSave(writeOk: bool)
      requires Valid()
      modifies this
      ensures Valid()
      ensures files == Saved(old(files), currentFile, structure, writeOk)
      ensures currentFile == old(currentFile) && structure == old(structure) && tree == old(tree)
    {
      if !HasFile(currentFile) {
        return;
      }
      if writeOk {
        files := files[currentFile.value := structure];
      }
    }

    /** `_update_tree`: the widget is cleared and rebuilt from the structure; `ok` is false when
        the build raised because `folders` is a string. */
    method UpdateTree() returns (ok: bool)
      requires Valid()
      modifies this
      ensures Valid()
      ensures ok == TreeFolders(structure).Some?
      ensures tree == TreeView(structure)
      ensures currentFile == old(currentFile) && structure == old(structure) && files == old(files)
    {
      var folders := TreeFolders(structure);
      if folders.None? {
        tree := [Node(RootLabel, [])];
        return false;
      }
      tree := [Node(RootLabel, BuildTree(folders.value))];
      ok := true;
    }

    /** `_load_config_file`: a missing file is reported and changes nothing; otherwise its document
        becomes the structure, the file becomes current and the widget is rebuilt. */
    method LoadConfigFile(filename: string) returns (ok: bool)
      requires Valid()
      modifies this
      ensures Valid()
      ensures filename !in old(files) ==>
        !ok && currentFile == old(currentFile) && structure == old(structure) && tree == old(tree)
      ensures filename in old(files) ==>
        structure == old(files)[filename] && currentFile == Some(filename) &&
        tree == TreeView(structure) && ok == TreeFolders(structure).Some?
      ensures files == old(files)
    {
      if filename !in files {
        return false;
      }
      structure := files[filename];
      currentFile := Some(filename);
      ok := UpdateTree();
    }

    /** `_new_config`: a cancelled or empty answer does nothing; otherwise the configuration
        `{"folders": {"新文件夹": {}}}` is created under the answer with `.json` appended when it is
        missing, saved, and shown. */
    method NewConfig(answer: Option<string>, writeOk: bool)
      requires Valid()
      modifies this
      ensures Valid()
      ensures answer.None? || answer.value == "" ==>
        currentFile == old(currentFile) && structure == old(structure) && tree == old(tree) && files == old(files)
      ensures answer.Some? && answer.value != "" ==>
        currentFile == Some(WithJsonSuffix(answer.value)) && structure == NewDocument &&
        files == Saved(old(files), currentFile, NewDocument, writeOk) && tree == TreeView(NewDocument)
      ensures answer.Some? && answer.value != "" && writeOk ==> WithJsonSuffix(answer.value) in Listing(files)
    {
      if answer.None? || answer.value == "" {
        return;
      }
      var filename := WithJsonSuffix(answer.value);
      structure := NewDocument;
      NewDocumentWellFormed();
      currentFile := Some(filename);
      AutoSave(writeOk);
      var _ := UpdateTree();
      NewConfigListed(old(files), answer.value, NewDocument);
    }

    /** `_add_subfolder`: with an item selected and a non-empty name, a new leaf goes at the end of
        the item's children, and the structure is rebuilt from the whole widget and saved. */
    method AddSubfolder(selected: Option<ItemId>, answer: Option<string>, writeOk: bool)
      requires Valid() && (selected.Some? ==> ValidId(tree, selected.value))
      modifies this
      ensures Valid()
      ensures selected.None? || answer.None? || answer.value == "" ==>
        currentFile == old(currentFile) && structure == old(structure) && tree == old(tree) && files == old(files)
      ensures selected.Some? && answer.Some? && answer.value != "" ==>
        tree == InsertChild(old(tree), selected.value, answer.value) &&
        structure == RebuiltDocument(tree) &&
        files == Saved(old(files), currentFile, structure, writeOk)
      ensures currentFile == old(currentFile)
    {
      if selected.None? || answer.None? || answer.value == "" {
        return;
      }
      tree := InsertChild(tree, selected.value, answer.value);
      structure := RebuiltDocument(tree);
      RebuiltWellFormed(tree);
      AutoSave(writeOk);
    }

    /** `_delete_folder`: an item labelled `根目录` is never deleted; any other selected item goes
        with everything under it, and the structure is rebuilt from the widget and saved. */
    method DeleteFolder(selected: Option<ItemId>, writeOk: bool)
      requires Valid() && (selected.Some? ==> ValidId(tree, selected.value))
      modifies this
      ensures Valid()
      ensures selected.None? || LabelAt(old(tree), selected.value) == RootLabel ==>
        currentFile == old(currentFile) && structure == old(structure) && tree == old(tree) && files == old(files)
      ensures selected.Some? && LabelAt(old(tree), selected.value) != RootLabel ==>
        tree == RemoveAt(old(tree), selected.value) &&
        structure == RebuiltDocument(tree) &&
        files == Saved(old(files), currentFile, structure, writeOk)
      ensures currentFile == old(currentFile)
    {
      if selected.None? || LabelAt(tree, selected.value) == RootLabel {
        return;
      }
      tree := RemoveAt(tree, selected.value);
      structure := RebuiltDocument(tree);
      RebuiltWellFormed(tree);
      AutoSave(writeOk);
    }

    /** `_delete_config`: with a file selected and the deletion confirmed, the file is removed; when
        it was the current one the editor is reset to no file, an empty structure and an empty
        widget. A failed removal is reported and changes nothing. */
    method DeleteConfig(selected: Option<string>, confirmed: bool, removeOk: bool)
      requires Valid()
      modifies this
      ensures Valid()
      ensures selected.None? || !confirmed || selected.value !in old(files) || !removeOk ==>
        currentFile == old(currentFile) && structure == old(structure) && tree == old(tree) && files == old(files)
      ensures selected.Some? && confirmed && selected.value in old(files) && removeOk ==>
        files == old(files) - {selected.value} &&
        (old(currentFile) == Some(selected.value) ==> currentFile == None && structure == [] && tree == []) &&
        (old(currentFile) != Some(selected.value) ==>
          currentFile == old(currentFile) && structure == old(structure) && tree == old(tree))
      ensures selected.Some? && confirmed && removeOk ==> selected.value !in Listing(files)
    {
      if selected.None? || !confirmed {
        return;
      }
      var filename := selected.value;
      if filename !in files || !removeOk {
        return;
      }
      files := files - {filename};
      if currentFile == Some(filename) {
        currentFile := None;
        structure := [];
        tree := [];
      }
    }

    /** `_apply_icon`: the path of the item (without the root label) is walked in the structure
        and `_icon` is set to `icon` or, for `None`, deleted if present; then the structure is
        saved. `ok` is false when an exception was reported instead: the icon image could not be
        loaded for the preview, or `folders` is a string. Without `folders` the walk runs in the
        detached `{}` that `get('folders', {})` returns, so the structure stays as it is. The model
        is proved to do what `IconUpdate` describes. */
    method ApplyIcon(item: ItemId, icon: Option<string>, previewOk: bool, writeOk: bool) returns (ok: bool)
      requires Valid() && ValidId(tree, item)
      modifies this
      ensures Valid()
      ensures var r := IconUpdate(old(structure), PathLabels(old(tree), item)[1..], icon);
        && ok == ((icon.None? || previewOk) && r.Some?)
        && (ok ==> structure == r.value && files == Saved(old(files), currentFile, structure, writeOk))
        && (!ok ==> structure == old(structure) && files == old(files))
      ensures tree == old(tree) && currentFile == old(currentFile)
    {
      if icon.Some? && !previewOk {
        return false;
      }
      var path := GetItemPath(item);
      PathLabelsAt(tree, item, 0);
      var keys := path[1..];
      IconUpdateWellFormed(structure, keys, icon);
      var folders := Lookup(structure, FoldersKey);
      if folders.Some? && folders.value.Str? && !(keys == [] && icon.None?) {
        return false;
      }
      if folders.Some? && folders.value.Obj? {
        WalkAndSet(keys, icon);
      }
      ok := true;
      AutoSave(writeOk);
    }

    /** `_set_folder_icon` with the choice made in its icon dialog: without a selection, or on an
        item labelled `根目录`, nothing happens; otherwise the chosen icon (or none) is applied to
        the selected item. The key path it applies the icon along is never empty, so the editor
        never writes an `_icon` directly into `folders`. */
    method SetFolderIcon(selected: Option<ItemId>, icon: Option<string>, previewOk: bool, writeOk: bool)
      returns (ok: bool)
      requires Valid() && (selected.Some? ==> ValidId(tree, selected.value))
      modifies this
      ensures Valid()
      ensures selected.None? || LabelAt(old(tree), selected.value) == RootLabel ==>
        !ok && structure == old(structure) && files == old(files)
      ensures selected.Some? && LabelAt(old(tree), selected.value) != RootLabel ==>
        |PathLabels(old(tree), selected.value)| >= 2 &&
        (var r := IconUpdate(old(structure), PathLabels(old(tree), selected.value)[1..], icon);
         && ok == ((icon.None? || previewOk) && r.Some?)
         && (ok ==> structure == r.value && files == Saved(old(files), currentFile, structure, writeOk))
         && (!ok ==> structure == old(structure) && files == old(files)))
      ensures tree == old(tree) && currentFile == old(currentFile)
    {
      if selected.None? || LabelAt(tree, selected.value) == RootLabel {
        return false;
      }
      BelowRootKeys(tree, selected.value);
      ok := ApplyIcon(selected.value, icon, previewOk, writeOk);
    }

    /** The loop of `_apply_icon` over `path[1:]` from `folder_structure['folders']`, through a
        reference to the mapping reached: each missing key is given `{}`, and after a value that
        is not a mapping the walk goes on in a detached `{}`. At the end `_icon` is set, or deleted
        if present. */
    method WalkAndSet(keys: seq<string>, icon: Option<string>)
      requires Lookup(structure, FoldersKey).Some? && Lookup(structure, FoldersKey).value.Obj?
      modifies this
      ensures structure == Put(old(structure), FoldersKey,
                               Obj(Walk(old(Lookup(structure, FoldersKey).value.entries), keys, icon)))
      ensures tree == old(tree) && currentFile == old(currentFile) && files == old(files)
    {
      var attached := true;
      var cur: Ref := [FoldersKey];
      assert [FoldersKey][1..] == [] && keys[0..] == keys;
      ghost var goal := Put(structure, FoldersKey, Obj(Walk(Lookup(structure, FoldersKey).value.entries, keys, icon)));
      var i := 0;
      while i < |keys|
        invariant 0 <= i <= |keys|
        invariant tree == old(tree) && currentFile == old(currentFile) && files == old(files)
        invariant attached ==> DictAt(structure, cur).Some?
        invariant attached ==>
          ReplaceAt(structure, cur, Walk(DictAt(structure, cur).value, keys[i..], icon)) == goal
        invariant !attached ==> structure == goal
      {
        if attached {
          ghost var s0 := structure;
          var d := DictAt(structure, cur).value;
          var k := keys[i];
          WalkDescend(s0, cur, keys, i, icon);
          if k !in Keys(d) {
            structure := ReplaceAt(structure, cur, Put(d, k, Obj([])));
          } else {
            ReplaceSame(s0, cur);
          }
          assert structure == ReplaceAt(s0, cur, Ensure(d, k));
          var v := Lookup(DictAt(structure, cur).value, k);
          if v.Some? && v.value.Obj? {
            assert DictAt(structure, cur + [k]) == Some(v.value.entries);
            cur := cur + [k];
          } else {
            assert DictAt(structure, cur + [k]).None?;
            attached := false;
          }
        }
        i := i + 1;
      }
      if attached {
        var d := DictAt(structure, cur).value;
        assert keys[i..] == [];
        match icon {
          case Some(p) =>
            structure := ReplaceAt(structure, cur, Put(d, IconKey, Str(p)));
          case None =>
            if IconKey in Keys(d) {
              structure := ReplaceAt(structure, cur, Delete(d, IconKey));
            } else {
              DeleteLookup(d, IconKey, IconKey);
              ReplaceSame(structure, cur);
            }
        }
      }
    }

    /** `_create_folders`: without a current file nothing happens; with an empty widget the missing
        root is reported; otherwise the structure is rebuilt from the root item's children and
        materialised under `'.'`. The result is the directories the run created or found. */
    method CreateFoldersAction(disk: Materializer.Disk) returns (done: Option<seq<Materializer.DirPath>>)
      modifies disk
      ensures done.None? <==> !HasFile(currentFile) || tree == []
      ensures done.None? ==> disk.dirs == old(disk.dirs)
      ensures done.Some? ==>
        done.value == Materializer.Plan([], Rebuild(tree[0].children), old(disk.failing - disk.dirs)) &&
        disk.dirs == old(disk.dirs) + Materializer.Members(done.value)
    {
      if !HasFile(currentFile) || tree == [] {
        return None;
      }
      var folders := Rebuild(tree[0].children);
      var created := Materializer.CreateFolders(disk, [], folders);
      done := Some(created);
    }
  }

  /** A new configuration shows the root holding one empty folder `新文件夹`. */
  lemma {:induction false} NewDocumentTree()
    ensures TreeView(NewDocument) == [Node(RootLabel, [Node(NewFolderName, [])])]
  {
    var f := [Entry(NewFolderName, Obj([]))];
    assert Lookup(NewDocument, FoldersKey) == Some(Obj(f));
    assert TreeFolders(NewDocument) == Some(f);
    assert Subfolders(Obj([])) == [];
    assert NodeOf(f[0]) == Node(NewFolderName, []);
    BuildTreeAt(f);
    assert BuildTree(f) == [Node(NewFolderName, [])];
  }

  /** Rebuilding after loading gives the document back: a document whose folders are a well-formed
      mapping of mappings, without reserved keys below the top level and without `根目录`, has
      the same folders after `_update_tree` and a rebuild as before. */
  lemma {:induction false} ReloadRebuild(f: Entries)
    requires Clean(f, false)
    ensures RebuiltDocument(TreeView([Entry(FoldersKey, Obj(f))])) == [Entry(FoldersKey, Obj(f))]
  {
    var doc := [Entry(FoldersKey, Obj(f))];
    assert Lookup(doc, FoldersKey) == Some(Obj(f));
    assert TreeView(doc) == [Node(RootLabel, BuildTree(f))];
    RootSplice(BuildTree(f));
    RebuildAfterBuild(f, false);
    assert Rebuild(TreeView(doc)) == f;
  }

  /** After any rebuild no icon path is stored anywhere: every value reachable in the rebuilt
      structure is a mapping, so `_icon` never holds a string. */
  lemma {:induction false} RebuildDropsIcons(f: Forest, ref: Ref)
    requires DictAt(RebuiltDocument(f), ref).Some?
    ensures var d := DictAt(RebuiltDocument(f), ref).value;
      Lookup(d, IconKey).None? || Lookup(d, IconKey).value.Obj?
  {
    RebuildFoldersOnly(f);
    var doc := RebuiltDocument(f);
    assert forall e :: e in doc ==> e.val.Obj? && FoldersOnly(e.val.entries);
    FoldersOnlyBelow(doc, ref);
    var d := DictAt(doc, ref).value;
    if Lookup(d, IconKey).Some? {
      LookupFound(d, IconKey);
    }
  }

  lemma {:induction false} FoldersOnlyBelow(es: Entries, ref: Ref)
    requires forall e :: e in es ==> e.val.Obj? && FoldersOnly(e.val.entries)
    requires DictAt(es, ref).Some?
    ensures forall e :: e in DictAt(es, ref).value ==> e.val.Obj?
    decreases |ref|
  {
    if ref != [] {
      LookupFound(es, ref[0]);
      var sub := Lookup(es, ref[0]).value.entries;
      assert FoldersOnly(sub);
      FoldersOnlyBelow(sub, ref[1..]);
    }
  }

  /** Deleting a folder and adding one with the same name under the root does not bring the deleted
      folder's children back: the re-added folder is stored as an empty mapping. */
  lemma {:induction false} ReaddedFolderIsEmpty(cs: seq<Node>, j: nat)
    requires j < |cs| && cs[j].text != RootLabel
    ensures
      var t := InsertChild(RemoveAt([Node(RootLabel, cs)], [0, j]), [0], cs[j].text);
      Lookup(Rebuild(t), cs[j].text) == Some(Obj([]))
  {
    var t0 := [Node(RootLabel, cs)];
    assert ValidId(t0, [0, j]);
    var t1 := RemoveAt(t0, [0, j]);
    assert [0, j][..1] == [0];
    var rest := cs[..j] + cs[j + 1..];
    assert t1 == [Node(RootLabel, rest)];
    var t := InsertChild(t1, [0], cs[j].text);
    assert t == [Node(RootLabel, rest + [Node(cs[j].text, [])])];
    RootSplice(rest + [Node(cs[j].text, [])]);
    AddedLeafIsEmpty(rest, cs[j].text);
  }

  /** `_delete_folder` on a widget holding the root keeps the root: only items below it can go. */
  lemma {:induction false} DeleteKeepsRoot(cs: seq<Node>, id: ItemId)
    requires ValidId([Node(RootLabel, cs)], id) && LabelAt([Node(RootLabel, cs)], id) != RootLabel
    ensures var r := RemoveAt([Node(RootLabel, cs)], id); |r| == 1 && r[0].text == RootLabel
  {
  }

  /** The document a new configuration starts with is a dict at every depth. */
  lemma {:induction false} NewDocumentWellFormed()
    ensures WellFormed(NewDocument)
  {
    var inner := [Entry(NewFolderName, Obj([]))];
    assert WellFormed([]);
    assert forall e :: e in inner && e.val.Obj? ==> e.val.entries == [];
    assert WellFormed(inner);
    assert forall e :: e in NewDocument && e.val.Obj? ==> e.val.entries == inner;
  }

  /** The document rebuilt from the widget is a dict at every depth. */
  lemma {:induction false} RebuiltWellFormed(f: Forest)
    ensures WellFormed(RebuiltDocument(f))
  {
    RebuildFoldersOnly(f);
    FoldersOnlyWellFormed(Rebuild(f));
    assert forall e :: e in RebuiltDocument(f) && e.val.Obj? ==> e.val.entries == Rebuild(f);
  }

  /** In a widget holding just the root, an item not labelled `根目录` lies below the root, so
      its path has the root label and at least one label under it. */
  lemma {:induction false} BelowRootKeys(tree: Forest, item: ItemId)
    requires tree == [] || (|tree| == 1 && tree[0].text == RootLabel)
    requires ValidId(tree, item) && LabelAt(tree, item) != RootLabel
    ensures |PathLabels(tree, item)| >= 2
  {
    assert tree == [Node(RootLabel, tree[0].children)];
    ItemPathFromRoot(tree[0].children, item);
  }
}
