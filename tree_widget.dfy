/**
 * The editor's tree widget, taken apart from Tkinter: a forest of labelled nodes. The
 * widget's own top level (the parent `''`) normally holds one synthetic root labelled
 * `根目录`. A widget item is identified by the positions leading to it from the top level,
 * so the parent of an item is its id without the last position, and the empty id plays
 * the part of `''`.
 */
module TreeWidget {

  /** The label of the synthetic root item. */
  const RootLabel: string := "根目录"

  datatype Node = Node(text: string, children: seq<Node>)

  type Forest = seq<Node>

  /** The positions from the top level down to an item; `[]` is the widget's `''`. */
  type ItemId = seq<nat>

  /** `id` names an item of `f`. */
  predicate ValidId(f: Forest, id: ItemId) {
    |id| > 0 && id[0] < |f| && (|id| == 1 || ValidId(f[id[0]].children, id[1..]))
  }

  /** The item that `id` names. */
  function NodeAt(f: Forest, id: ItemId): Node
    requires ValidId(f, id)
  {
    if |id| == 1 then f[id[0]] else NodeAt(f[id[0]].children, id[1..])
  }

  /** `tree.item(id)['text']`. */
  function LabelAt(f: Forest, id: ItemId): string
    requires ValidId(f, id)
  {
    NodeAt(f, id).text
  }

  /** The labels of the top-level items of a forest, in order. */
  function Labels(f: Forest): (ls: seq<string>)
    ensures |ls| == |f|
  {
    if f == [] then [] else [f[0].text] + Labels(f[1..])
  }

  /** The labels met on the way from the top level down to `id`, outermost first:
      the reference that the upward walk of `_get_item_path` is proved against. */
  function PathLabels(f: Forest, id: ItemId): seq<string>
    requires ValidId(f, id)
  {
    [f[id[0]].text] + (if |id| == 1 then [] else PathLabels(f[id[0]].children, id[1..]))
  }

  /** Every ancestor of an item is an item. */
  lemma {:induction false} AncestorValid(f: Forest, id: ItemId, k: nat)
    requires ValidId(f, id) && 1 <= k <= |id|
    ensures ValidId(f, id[..k])
  {
    if k > 1 {
      AncestorValid(f[id[0]].children, id[1..], k - 1);
      assert id[..k][1..] == id[1..][..k - 1];
    }
  }

  /** The path has one label per level, and its `k`-th label is the label of the
      ancestor at depth `k`: the item's own label comes last. */
  lemma {:induction false} PathLabelsAt(f: Forest, id: ItemId, k: nat)
    requires ValidId(f, id) && k < |id|
    ensures |PathLabels(f, id)| == |id|
    ensures ValidId(f, id[..k + 1]) && PathLabels(f, id)[k] == LabelAt(f, id[..k + 1])
  {
    AncestorValid(f, id, k + 1);
    if |id| > 1 {
      PathLabelsAt(f[id[0]].children, id[1..], if k == 0 then 0 else k - 1);
      if k > 0 {
        assert id[..k + 1][1..] == id[1..][..k];
      }
    }
  }

  /** Seen from the item upward: the path of an item below the top level is its parent's path
      followed by its own label. */
  lemma {:induction false} PathLabelsSnoc(f: Forest, id: ItemId)
    requires ValidId(f, id)
    ensures |id| > 1 ==> ValidId(f, id[..|id| - 1])
    ensures PathLabels(f, id) == (if |id| == 1 then [] else PathLabels(f, id[..|id| - 1])) + [LabelAt(f, id)]
  {
    if |id| > 2 {
      AncestorValid(f, id, |id| - 1);
      PathLabelsSnoc(f[id[0]].children, id[1..]);
      assert id[..|id| - 1][1..] == id[1..][..|id[1..]| - 1];
    } else if |id| == 2 {
      AncestorValid(f, id, 1);
      assert id[..1] == [id[0]] && |id[1..]| == 1;
      assert NodeAt(f, id) == NodeAt(f[id[0]].children, id[1..]) == f[id[0]].children[id[1]];
    }
  }

  /** One step up from `id` while collecting the path of `item`: the label of `id` moves from the
      labels still to collect to the front of the labels collected. */
  lemma {:induction false} PathStep(f: Forest, item: ItemId, id: ItemId, path: seq<string>)
    requires ValidId(f, item) && ValidId(f, id) && PathLabels(f, item) == PathLabels(f, id) + path
    ensures |id| > 1 ==> ValidId(f, id[..|id| - 1])
    ensures PathLabels(f, item) ==
      (if |id| == 1 then [] else PathLabels(f, id[..|id| - 1])) + ([LabelAt(f, id)] + path)
  {
    PathLabelsSnoc(f, id);
    ghost var above := if |id| == 1 then [] else PathLabels(f, id[..|id| - 1]);
    ghost var here := [LabelAt(f, id)];
    assert PathLabels(f, item) == (above + here) + path;
    assert (above + here) + path == above + (here + path);
  }

  /** The path of an item under the synthetic root starts with the root label and has
      one label for the root and one per level below it. */
  lemma {:induction false} ItemPathFromRoot(cs: seq<Node>, id: ItemId)
    requires ValidId([Node(RootLabel, cs)], id)
    ensures |PathLabels([Node(RootLabel, cs)], id)| == |id|
    ensures PathLabels([Node(RootLabel, cs)], id)[0] == RootLabel
    ensures PathLabels([Node(RootLabel, cs)], id)[|id| - 1] == LabelAt([Node(RootLabel, cs)], id)
  {
    PathLabelsAt([Node(RootLabel, cs)], id, |id| - 1);
    assert id[..|id|] == id;
  }

  /** `tree.insert(id, 'end', text=name)`: a new leaf becomes the last child of `id`;
      every other item stays where it was. */
  function InsertChild(f: Forest, id: ItemId, name: string): (r: Forest)
    requires ValidId(f, id)
    ensures |r| == |f| && ValidId(r, id)
    ensures NodeAt(r, id) == Node(NodeAt(f, id).text, NodeAt(f, id).children + [Node(name, [])])
    ensures r[id[0]].text == f[id[0]].text
    ensures forall i :: 0 <= i < |f| && i != id[0] ==> r[i] == f[i]
  {
    var n := f[id[0]];
    if |id| == 1 then f[id[0] := Node(n.text, n.children + [Node(name, [])])]
    else f[id[0] := Node(n.text, InsertChild(n.children, id[1..], name))]
  }

  /** `tree.delete(id)`: the item and everything under it disappear from its parent's
      children; the other children keep their order. */
  function RemoveAt(f: Forest, id: ItemId): (r: Forest)
    requires ValidId(f, id)
    ensures |id| == 1 ==> r == f[..id[0]] + f[id[0] + 1..]
    ensures |id| > 1 ==> |r| == |f| && r[id[0]].text == f[id[0]].text
    ensures |id| > 1 ==> forall i :: 0 <= i < |f| && i != id[0] ==> r[i] == f[i]
    ensures |id| > 1 ==> ValidId(r, id[..|id| - 1]) && ValidId(f, id[..|id| - 1])
    ensures |id| > 1 ==> id[|id| - 1] < |NodeAt(f, id[..|id| - 1]).children|
    ensures |id| > 1 ==>
      var p, j := NodeAt(f, id[..|id| - 1]), id[|id| - 1];
      NodeAt(r, id[..|id| - 1]) == Node(p.text, p.children[..j] + p.children[j + 1..])
  {
    var n := f[id[0]];
    if |id| == 1 then f[..id[0]] + f[id[0] + 1..]
    else
      ParentHasChild(f, id);
      var r := f[id[0] := Node(n.text, RemoveAt(n.children, id[1..]))];
      assert id[..|id| - 1][1..] == id[1..][..|id[1..]| - 1];
      r
  }

  /** `a` is `b` or one of its ancestors. */
  predicate IsPrefix(a: ItemId, b: ItemId) {
    |a| <= |b| && b[..|a|] == a
  }

  /** Nothing else moves on an insert: every item keeps its id and its label, and every item that
      is not `id` or one of its ancestors is unchanged, with everything under it. */
  lemma {:induction false} InsertChildFrame(f: Forest, id: ItemId, name: string, j: ItemId)
    requires ValidId(f, id) && ValidId(f, j)
    ensures ValidId(InsertChild(f, id, name), j)
    ensures LabelAt(InsertChild(f, id, name), j) == LabelAt(f, j)
    ensures !IsPrefix(j, id) ==> NodeAt(InsertChild(f, id, name), j) == NodeAt(f, j)
  {
    var r := InsertChild(f, id, name);
    var n := f[id[0]];
    if j[0] != id[0] {
      assert r[j[0]] == f[j[0]];
    } else if |j| > 1 {
      var j' := j[1..];
      if |id| == 1 {
        var cs := n.children + [Node(name, [])];
        assert r[id[0]] == Node(n.text, cs);
        assert cs[j'[0]] == n.children[j'[0]];
        assert ValidId(cs, j') && NodeAt(cs, j') == NodeAt(n.children, j');
        assert NodeAt(r, j) == NodeAt(cs, j') && NodeAt(f, j) == NodeAt(n.children, j');
      } else {
        assert r[id[0]] == Node(n.text, InsertChild(n.children, id[1..], name));
        InsertChildFrame(n.children, id[1..], name, j');
        PrefixCons(j, id);
      }
    }
  }

  /** Nothing outside the parent's subtree moves on a delete: every such item keeps its id and its
      label, and every one that is not an ancestor of the parent is unchanged, with everything under
      it. Inside the parent, its new children are what `RemoveAt` states. */
  lemma {:induction false} RemoveAtFrame(f: Forest, id: ItemId, j: ItemId)
    requires ValidId(f, id) && ValidId(f, j) && |id| > 1 && !IsPrefix(id[..|id| - 1], j)
    ensures ValidId(RemoveAt(f, id), j)
    ensures LabelAt(RemoveAt(f, id), j) == LabelAt(f, j)
    ensures !IsPrefix(j, id[..|id| - 1]) ==> NodeAt(RemoveAt(f, id), j) == NodeAt(f, j)
  {
    var r := RemoveAt(f, id);
    var n := f[id[0]];
    var up := id[..|id| - 1];
    if j[0] != id[0] {
      assert r[j[0]] == f[j[0]];
    } else if |j| > 1 {
      var j' := j[1..];
      assert j[..1] == [j[0]] && id[..1] == [id[0]];
      if |id| == 2 {
        assert false;
      }
      assert r[id[0]] == Node(n.text, RemoveAt(n.children, id[1..]));
      var up' := id[1..][..|id[1..]| - 1];
      assert up' == up[1..];
      assert up == [j[0]] + up';
      PrefixCons(up, j);
      RemoveAtFrame(n.children, id[1..], j');
      PrefixCons(j, up);
    }
  }

  /** An insert adds exactly one id: every item of the new widget was there before, or is the
      new leaf, the last child of `id`. */
  lemma {:induction false} InsertChildNew(f: Forest, id: ItemId, name: string, j: ItemId)
    requires ValidId(f, id) && ValidId(InsertChild(f, id, name), j)
    ensures ValidId(f, j) || j == id + [|NodeAt(f, id).children|]
  {
    var r := InsertChild(f, id, name);
    var n := f[id[0]];
    if j[0] != id[0] {
      assert r[j[0]] == f[j[0]];
    } else if |j| > 1 {
      var j' := j[1..];
      if |id| == 1 {
        var cs := n.children + [Node(name, [])];
        assert r[id[0]] == Node(n.text, cs);
        assert ValidId(cs, j');
        if j'[0] < |n.children| {
          assert cs[j'[0]] == n.children[j'[0]];
          assert ValidId(n.children, j');
        } else {
          assert cs[j'[0]] == Node(name, []) && j'[0] == |n.children|;
          LeafId(cs, j');
          assert j == [j[0]] + j' && NodeAt(f, id) == n;
        }
      } else {
        assert r[id[0]] == Node(n.text, InsertChild(n.children, id[1..], name));
        InsertChildNew(n.children, id[1..], name, j');
        assert id == [id[0]] + id[1..] && j == [j[0]] + j';
      }
    }
  }

  /** The only id that starts at a leaf is the leaf's own. */
  lemma {:induction false} LeafId(f: Forest, j: ItemId)
    requires ValidId(f, j) && f[j[0]].children == []
    ensures |j| == 1
  {
  }

  /** A delete adds no id outside the parent's subtree: every such item of the new widget was
      there before. Inside the parent, its children are what `RemoveAt` states. */
  lemma {:induction false} RemoveAtNoNewIds(f: Forest, id: ItemId, j: ItemId)
    requires ValidId(f, id) && |id| > 1 && ValidId(RemoveAt(f, id), j) && !IsPrefix(id[..|id| - 1], j)
    ensures ValidId(f, j)
  {
    var r := RemoveAt(f, id);
    var n := f[id[0]];
    var up := id[..|id| - 1];
    if j[0] != id[0] {
      assert r[j[0]] == f[j[0]];
    } else if |j| > 1 {
      var j' := j[1..];
      assert j[..1] == [j[0]] && id[..1] == [id[0]];
      if |id| == 2 {
        assert false;
      }
      assert r[id[0]] == Node(n.text, RemoveAt(n.children, id[1..]));
      var up' := id[1..][..|id[1..]| - 1];
      assert up' == up[1..];
      assert up == [j[0]] + up';
      PrefixCons(up, j);
      RemoveAtNoNewIds(n.children, id[1..], j');
    }
  }

  /** Two ids that start at the same position: one is a prefix of the other exactly when it is so
      after that position. */
  lemma {:induction false} PrefixCons(a: ItemId, b: ItemId)
    requires |a| > 0 && |b| > 0 && a[0] == b[0]
    ensures IsPrefix(a, b) <==> IsPrefix(a[1..], b[1..])
  {
    if IsPrefix(a, b) {
      assert b[1..][..|a| - 1] == b[..|a|][1..];
    }
    if IsPrefix(a[1..], b[1..]) {
      assert b[..|a|] == [b[0]] + b[1..][..|a| - 1];
      assert a == [a[0]] + a[1..];
    }
  }

  /** The last position of an item's id is a position among its parent's children. */
  lemma {:induction false} ParentHasChild(f: Forest, id: ItemId)
    requires ValidId(f, id) && |id| > 1
    ensures ValidId(f, id[..|id| - 1])
    ensures id[|id| - 1] < |NodeAt(f, id[..|id| - 1]).children|
  {
    AncestorValid(f, id, |id| - 1);
    if |id| > 2 {
      ParentHasChild(f[id[0]].children, id[1..]);
      assert id[..|id| - 1][1..] == id[1..][..|id[1..]| - 1];
    }
  }
}
