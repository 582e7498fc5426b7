/**
 * The two conversions between the stored folder structure and the tree widget:
 * `_build_tree`, which fills the widget from a mapping, and `_get_folder_structure`,
 * which reads a mapping back out of the widget after every add or delete.
 */
module Structure {
  import opened Wrappers
  import opened JsonValue
  import opened TreeWidget

  /** The folders under a structure value: the non-reserved entries of a mapping; nothing under a string. */
  function Subfolders(v: Val): (r: Entries)
    ensures Size(r) < SizeOf(v)
  {
    if v.Obj? then Visible(v.entries) else []
  }

  /** `_build_tree(parent, folders)`: one item per entry of `folders`, in mapping order. The
      keys of `folders` itself are not filtered; below it only non-reserved keys become items. */
  function BuildTree(es: Entries): (r: Forest)
    ensures |r| == |es|
    ensures forall i :: 0 <= i < |es| ==> r[i].text == es[i].key
    decreases Size(es), 1
  {
    if es == [] then [] else [NodeOf(es[0])] + BuildTree(es[1..])
  }

  /** The item `_build_tree` inserts for one entry, with the items for its subfolders below it. */
  function NodeOf(e: Entry): Node
    decreases SizeOf(e.val), 0
  {
    Node(e.key, BuildTree(Subfolders(e.val)))
  }

  /** `_get_folder_structure(node)` over the children of `node`: each child becomes a key whose
      value is the mapping read from its own children. A duplicate label writes its key again,
      and a child labelled `根目录` (at any depth) replaces everything read so far by its own
      children's mapping. */
  function Rebuild(cs: Forest): Entries
    decreases cs
  {
    if cs == [] then []
    else
      var c := cs[|cs| - 1];
      if c.text == RootLabel then Rebuild(c.children)
      else Put(Rebuild(cs[..|cs| - 1]), c.text, Obj(Rebuild(c.children)))
  }

  /** Nothing but folders, at every depth: every value is a mapping, keys are unique. A
      structure like this carries no `_icon` path. */
  ghost predicate FoldersOnly(es: Entries) {
    && UniqueKeys(es)
    && forall e :: e in es ==> e.val.Obj? && FoldersOnly(e.val.entries)
  }

  /** A structure of folders only is a dict at every depth. */
  lemma {:induction false} FoldersOnlyWellFormed(es: Entries)
    requires FoldersOnly(es)
    ensures WellFormed(es)
    decreases Size(es)
  {
    forall e | e in es && e.val.Obj?
      ensures WellFormed(e.val.entries)
    {
      SizeOfMember(es, e);
      FoldersOnlyWellFormed(e.val.entries);
    }
  }

  /** No label at any depth of the forest is reserved. */
  ghost predicate NoReservedLabels(f: Forest) {
    forall n :: n in f ==> !Reserved(n.text) && NoReservedLabels(n.children)
  }

  /** A forest the widget can round-trip: sibling labels are distinct, none is `根目录`, and
      none below the top level is reserved. */
  ghost predicate Tidy(f: Forest, nested: bool) {
    && (forall i, j :: 0 <= i < j < |f| ==> f[i].text != f[j].text)
    && forall n :: n in f ==> n.text != RootLabel && (nested ==> !Reserved(n.text)) && Tidy(n.children, true)
  }

  /** A structure the widget can round-trip: every value is a mapping, keys are unique and
      never `根目录`, and none below the top level is reserved. */
  ghost predicate Clean(es: Entries, nested: bool) {
    && UniqueKeys(es)
    && forall e :: e in es ==>
         e.key != RootLabel && (nested ==> !Reserved(e.key)) && e.val.Obj? && Clean(e.val.entries, true)
  }

  /** Each item `_build_tree` makes is the item for the entry at the same position. */
  lemma {:induction false} BuildTreeAt(es: Entries)
    ensures forall i :: 0 <= i < |es| ==> BuildTree(es)[i] == NodeOf(es[i])
  {
    if es != [] {
      BuildTreeAt(es[1..]);
    }
  }

  lemma {:induction false} BuildTreeSnoc(a: Entries, e: Entry)
    ensures BuildTree(a + [e]) == BuildTree(a) + [NodeOf(e)]
  {
    BuildTreeAt(a + [e]);
    BuildTreeAt(a);
    assert forall i :: 0 <= i < |a| ==> (a + [e])[i] == a[i];
  }

  /** The top level of the widget shows the keys of the mapping, in order, reserved or not. */
  lemma {:induction false} BuildTreeLabels(es: Entries)
    ensures Labels(BuildTree(es)) == Keys(es)
  {
    var f := BuildTree(es);
    LabelsAt(f);
    assert forall i :: 0 <= i < |es| ==> Labels(f)[i] == Keys(es)[i];
  }

  lemma {:induction false} LabelsAt(f: Forest)
    ensures forall i :: 0 <= i < |f| ==> Labels(f)[i] == f[i].text
  {
    if f != [] {
      LabelsAt(f[1..]);
    }
  }

  /** The labels of a forest are the labels of all but its last child, then the last label. */
  lemma {:induction false} LabelsSnoc(f: Forest)
    requires f != []
    ensures Labels(f) == Labels(f[..|f| - 1]) + [f[|f| - 1].text]
  {
    var init := f[..|f| - 1];
    LabelsAt(f);
    LabelsAt(init);
    var r := Labels(init) + [f[|f| - 1].text];
    forall i | 0 <= i < |f| ensures Labels(f)[i] == r[i] {
      if i < |init| {
        assert init[i] == f[i];
      }
    }
  }

  lemma {:induction false} BuildTreeVisible(es: Entries)
    requires forall e :: e in es ==> !Reserved(e.key)
    ensures NoReservedLabels(BuildTree(es))
    decreases Size(es)
  {
    var f := BuildTree(es);
    BuildTreeAt(es);
    forall n | n in f ensures !Reserved(n.text) && NoReservedLabels(n.children) {
      var i :| 0 <= i < |f| && f[i] == n;
      var v := es[i].val;
      VisibleMembers(if v.Obj? then v.entries else []);
      SizeOfMember(es, es[i]);
      BuildTreeVisible(Subfolders(v));
    }
  }

  /** Below the top level, `_build_tree` never makes an item for a reserved key. */
  lemma {:induction false} BuildTreeSkipsReserved(es: Entries)
    ensures forall n :: n in BuildTree(es) ==> NoReservedLabels(n.children)
  {
    var f := BuildTree(es);
    BuildTreeAt(es);
    forall n | n in f ensures NoReservedLabels(n.children) {
      var i :| 0 <= i < |f| && f[i] == n;
      var v := es[i].val;
      VisibleMembers(if v.Obj? then v.entries else []);
      BuildTreeVisible(Subfolders(v));
    }
  }

  lemma {:induction false} RebuildSnoc(cs: Forest, c: Node)
    ensures Rebuild(cs + [c]) ==
      if c.text == RootLabel then Rebuild(c.children) else Put(Rebuild(cs), c.text, Obj(Rebuild(c.children)))
  {
    assert (cs + [c])[..|cs|] == cs;
  }

  /** The mapping read from the widget holds only folders, at every depth, with unique keys:
      any `_icon` entry the structure held before is gone. */
  lemma {:induction false} RebuildFoldersOnly(cs: Forest)
    ensures FoldersOnly(Rebuild(cs))
  {
    if cs != [] {
      var c := cs[|cs| - 1];
      RebuildFoldersOnly(c.children);
      if c.text != RootLabel {
        var acc := Rebuild(cs[..|cs| - 1]);
        RebuildFoldersOnly(cs[..|cs| - 1]);
        PutKeys(acc, c.text, Obj(Rebuild(c.children)));
        PutMembers(acc, c.text, Obj(Rebuild(c.children)));
      }
    }
  }

  /** Unless a child is labelled `根目录`, the keys read from the widget are exactly the labels of
      the children. */
  lemma {:induction false} RebuildKeys(cs: Forest)
    requires forall i :: 0 <= i < |cs| ==> cs[i].text != RootLabel
    ensures forall k :: k in Keys(Rebuild(cs)) <==> k in Labels(cs)
  {
    if cs != [] {
      var init, c := cs[..|cs| - 1], cs[|cs| - 1];
      forall i | 0 <= i < |init| ensures init[i].text != RootLabel {
        assert init[i] == cs[i];
      }
      RebuildKeys(init);
      assert Rebuild(cs) == Put(Rebuild(init), c.text, Obj(Rebuild(c.children)));
      PutKeys(Rebuild(init), c.text, Obj(Rebuild(c.children)));
      LabelsSnoc(cs);
    }
  }

  /** With distinct labels and no `根目录` among them, the keys come out in the children's order. */
  lemma {:induction false} RebuildKeyOrder(cs: Forest)
    requires forall i :: 0 <= i < |cs| ==> cs[i].text != RootLabel
    requires forall i, j :: 0 <= i < j < |cs| ==> cs[i].text != cs[j].text
    ensures Keys(Rebuild(cs)) == Labels(cs)
  {
    if cs != [] {
      var init, c := cs[..|cs| - 1], cs[|cs| - 1];
      LabelsAt(cs);
      LabelsAt(init);
      forall i | 0 <= i < |init| ensures init[i] == cs[i] && Labels(init)[i] != c.text { }
      forall i, j | 0 <= i < j < |init| ensures init[i].text != init[j].text {
        assert init[i] == cs[i] && init[j] == cs[j];
      }
      RebuildKeyOrder(init);
      assert c.text !in Labels(init);
      assert Rebuild(cs) == Put(Rebuild(init), c.text, Obj(Rebuild(c.children)));
      PutKeys(Rebuild(init), c.text, Obj(Rebuild(c.children)));
      LabelsSnoc(cs);
    }
  }

  /** Among siblings with the same label, the later one wins: the key maps to the mapping read
      from the last such child, provided no `根目录` child follows it. */
  lemma {:induction false} RebuildLastWins(cs: Forest, j: nat)
    requires j < |cs| && cs[j].text != RootLabel
    requires forall i :: j < i < |cs| ==> cs[i].text != cs[j].text && cs[i].text != RootLabel
    ensures Lookup(Rebuild(cs), cs[j].text) == Some(Obj(Rebuild(cs[j].children)))
  {
    var init, c := cs[..|cs| - 1], cs[|cs| - 1];
    PutLookup(Rebuild(init), c.text, Obj(Rebuild(c.children)), cs[j].text);
    if j < |cs| - 1 {
      RebuildLastWins(init, j);
    }
  }

  /** A child added at the end reads back as an empty mapping, whatever an earlier sibling of the
      same name held: a deleted and re-added folder does not get its old subfolders back. */
  lemma {:induction false} AddedLeafIsEmpty(cs: Forest, name: string)
    requires name != RootLabel
    ensures Lookup(Rebuild(cs + [Node(name, [])]), name) == Some(Obj([]))
  {
    RebuildLastWins(cs + [Node(name, [])], |cs|);
  }

  /** The synthetic root is spliced through: the mapping read from the widget's top level is the
      one read from the root's children. */
  lemma {:induction false} RootSplice(cs: Forest)
    ensures Rebuild([Node(RootLabel, cs)]) == Rebuild(cs)
  {
    RebuildSnoc([], Node(RootLabel, cs));
  }

  /** The same splicing happens below the root: a subfolder named `根目录` makes its parent's earlier
      children disappear from the mapping, and its own children take their place. */
  lemma {:induction false} NestedRootLabel(a: string, x: string, y: string)
    requires a != RootLabel && x != RootLabel && y != RootLabel
    ensures Rebuild([Node(a, [Node(x, []), Node(RootLabel, [Node(y, [])])])])
         == [Entry(a, Obj([Entry(y, Obj([]))]))]
  {
    RebuildSnoc([Node(x, [])], Node(RootLabel, [Node(y, [])]));
    RebuildSnoc([], Node(y, []));
    RebuildSnoc([], Node(a, [Node(x, []), Node(RootLabel, [Node(y, [])])]));
  }

  /** Reading a tidy widget back and filling the widget again gives the same forest. */
  lemma {:induction false} BuildAfterRebuild(cs: Forest, nested: bool)
    requires Tidy(cs, nested)
    ensures BuildTree(Rebuild(cs)) == cs
  {
    if cs != [] {
      var init, c := cs[..|cs| - 1], cs[|cs| - 1];
      assert cs == init + [c];
      assert c in cs;
      TidyInit(cs, nested);
      BuildAfterRebuild(init, nested);
      BuildAfterRebuild(c.children, true);
      var a, sub := Rebuild(init), Rebuild(c.children);
      PutAbsent(a, c.text, Obj(sub));
      RebuildUnreserved(c.children);
      VisibleNoReserved(sub);
      assert NodeOf(Entry(c.text, Obj(sub))) == c;
      BuildTreeSnoc(a, Entry(c.text, Obj(sub)));
    }
  }

  /** Dropping the last child keeps a forest tidy, and the dropped label is not among the keys
      read from the rest. */
  lemma {:induction false} TidyInit(cs: Forest, nested: bool)
    requires Tidy(cs, nested) && cs != []
    ensures Tidy(cs[..|cs| - 1], nested)
    ensures cs[|cs| - 1].text !in Keys(Rebuild(cs[..|cs| - 1]))
  {
    var init, c := cs[..|cs| - 1], cs[|cs| - 1];
    TidyPrefix(cs, nested);
    LabelsAt(init);
    forall i | 0 <= i < |init| ensures init[i].text != RootLabel && Labels(init)[i] != c.text {
      assert init[i] == cs[i] && cs[i] in cs;
    }
    RebuildKeys(init);
  }

  lemma {:induction false} TidyPrefix(cs: Forest, nested: bool)
    requires Tidy(cs, nested) && cs != []
    ensures Tidy(cs[..|cs| - 1], nested)
  {
    var init := cs[..|cs| - 1];
    forall n | n in init ensures n in cs { }
    forall i, j | 0 <= i < j < |init| ensures init[i].text != init[j].text {
      assert init[i] == cs[i] && init[j] == cs[j];
    }
  }

  /** The keys read from a forest whose labels are not reserved are not reserved. */
  lemma {:induction false} RebuildUnreserved(cs: Forest)
    requires Tidy(cs, true)
    ensures forall e :: e in Rebuild(cs) ==> !Reserved(e.key)
  {
    var sub := Rebuild(cs);
    RebuildKeys(cs);
    LabelsAt(cs);
    forall e | e in sub ensures !Reserved(e.key) {
      MemberKey(sub, e);
      var i :| 0 <= i < |cs| && Labels(cs)[i] == e.key;
      assert cs[i] in cs;
    }
  }

  /** Filling the widget from a clean structure and reading it back gives the same structure. */
  lemma {:induction false} RebuildAfterBuild(es: Entries, nested: bool)
    requires Clean(es, nested)
    ensures Rebuild(BuildTree(es)) == es
    decreases es
  {
    if es != [] {
      var init, e := es[..|es| - 1], es[|es| - 1];
      assert es == init + [e];
      assert e in es;
      CleanInit(es, nested);
      RebuildAfterBuild(init, nested);
      var sub := e.val.entries;
      RebuildAfterBuild(sub, true);
      VisibleNoReserved(sub);
      BuildTreeSnoc(init, e);
      RebuildSnoc(BuildTree(init), NodeOf(e));
      PutAbsent(init, e.key, Obj(sub));
    }
  }

  /** Dropping the last entry keeps a structure clean, and the dropped key is not among the rest. */
  lemma {:induction false} CleanInit(es: Entries, nested: bool)
    requires Clean(es, nested) && es != []
    ensures Clean(es[..|es| - 1], nested)
    ensures es[|es| - 1].key !in Keys(es[..|es| - 1])
  {
    var init := es[..|es| - 1];
    UniqueKeysIndex(es);
    UniqueKeysIndex(init);
    forall x | x in init ensures x in es { }
    assert forall i :: 0 <= i < |init| ==> Keys(init)[i] != es[|es| - 1].key;
  }
}
