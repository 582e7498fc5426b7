/**
 * `create_folders`: turning the folder structure into directories. A directory is named by
 * the folder names leading to it from the base directory of the run (`[]` is `'.'`). Each folder
 * name is taken as a single path component, so `os.path.join(base, name)` appends it. The directories that exist form an abstract
 * set, and the ones whose creation would fail (permissions, invalid names) are a fixed set the
 * operating system decides. `Plan` is the reference the recursive loop is proved against.
 */
module Materializer {
  import opened Wrappers
  import opened JsonValue
  import opened Structure

  /** A directory, as the folder names leading to it from the base directory. */
  type DirPath = seq<string>

  /** The directories `create_folders(base, es)` finds already present or creates, in the
      order it processes them, when the directories in `blocked` cannot be created: a key starting
      with `_` is skipped, a directory that cannot be created is skipped with its whole subtree, and
      the folders of a created one are processed right after it, before its next sibling. */
  function Plan(base: DirPath, es: Entries, blocked: set<DirPath>): seq<DirPath>
    decreases Size(es), 1
  {
    if es == [] then [] else Step(base, es[0], blocked) + Plan(base, es[1..], blocked)
  }

  /** What `create_folders` does for one entry: nothing for a reserved key or a directory that
      cannot be created, otherwise the directory followed by the plan of its own folders. */
  function Step(base: DirPath, e: Entry, blocked: set<DirPath>): seq<DirPath>
    decreases SizeOf(e.val), 0
  {
    if Reserved(e.key) || base + [e.key] in blocked then []
    else [base + [e.key]] + Plan(base + [e.key], Subfolders(e.val), blocked)
  }

  /** The directories of a sequence, as a set. */
  function Members(ps: seq<DirPath>): set<DirPath> {
    set p | p in ps
  }

  /** The file system, as far as the traversal sees it. */
  class Disk {
    /** The directories that exist. */
    var dirs: set<DirPath>
    /** The directories `os.makedirs` cannot create. */
    const failing: set<DirPath>

    constructor (existing: set<DirPath>, cannotCreate: set<DirPath>)
      ensures dirs == existing && failing == cannotCreate
    {
      dirs := existing;
      failing := cannotCreate;
    }

    /** `os.path.exists(p)`. */
    function Exists(p: DirPath): bool
      reads this
    {
      p in dirs
    }

    /** `os.makedirs(p)` on a directory that does not exist yet: either it is created or it raises. */
    method MakeDirs(p: DirPath) returns (ok: bool)
      modifies this
      ensures ok == (p !in failing)
      ensures dirs == if ok then old(dirs) + {p} else old(dirs)
    {
      if p in failing {
        ok := false;
      } else {
        dirs := dirs + {p};
        ok := true;
      }
    }
  }

  /** `create_folders(base, es)`: the loop over the mapping, skipping reserved keys and folders
      whose `os.makedirs` raises, and the recursion into the non-reserved entries of each folder
      that exists. The directories that cannot be created are `failing - dirs`, which the run does
      not change. It returns the directories it created or found, which are exactly `Plan`, and the
      disk afterwards holds those directories too. */
  method CreateFolders(disk: Disk, base: DirPath, es: Entries) returns (done: seq<DirPath>)
    modifies disk
    ensures done == Plan(base, es, old(disk.failing - disk.dirs))
    ensures disk.dirs == old(disk.dirs) + Members(done)
    ensures disk.failing - disk.dirs == old(disk.failing - disk.dirs)
    decreases Size(es)
  {
    ghost var blocked := disk.failing - disk.dirs;
    done := [];
    var i := 0;
    while i < |es|
      invariant 0 <= i <= |es|
      invariant disk.failing - disk.dirs == blocked
      invariant done == Plan(base, es[..i], blocked)
      invariant disk.dirs == old(disk.dirs) + Members(done)
      decreases |es| - i
    {
      var e := es[i];
      PlanPrefix(base, es, i, blocked);
      ghost var step := Step(base, e, blocked);
      ghost var before := done;
      if !Reserved(e.key) {
        var p := base + [e.key];
        ghost var dirs0 := disk.dirs;
        var ok := true;
        if !disk.Exists(p) {
          ok := disk.MakeDirs(p);
        }
        if ok {
          Reached(disk.failing, dirs0, disk.dirs, p);
          ghost var dirs1 := disk.dirs;
          SizeOfMember(es, e);
          var sub := CreateFolders(disk, p, Subfolders(e.val));
          DirsStep(old(disk.dirs), done, p, sub, dirs0, dirs1, disk.dirs);
          assert step == [p] + sub;
          done := done + ([p] + sub);
        }
      }
      assert done == before + step;
      i := i + 1;
    }
    assert es[..|es|] == es;
  }


  /** One step of the loop: the plan of the first `i + 1` entries. */
  lemma {:induction false} PlanPrefix(base: DirPath, es: Entries, i: nat, blocked: set<DirPath>)
    requires i < |es|
    ensures Plan(base, es[..i + 1], blocked) == Plan(base, es[..i], blocked) + Step(base, es[i], blocked)
  {
    assert es[..i + 1] == es[..i] + [es[i]];
    PlanAppend(base, es[..i], [es[i]], blocked);
    assert [es[i]][1..] == [];
  }

  /** After `os.path.exists` or a successful `os.makedirs`, the directory is there, and the set
      of directories that cannot be created is the same as before. */
  lemma {:induction false} Reached(failing: set<DirPath>, dirs0: set<DirPath>, dirs1: set<DirPath>, p: DirPath)
    requires (dirs1 == dirs0 && p in dirs0) || (dirs1 == dirs0 + {p} && p !in failing)
    ensures p !in failing - dirs0 && p in dirs1
    ensures failing - dirs1 == failing - dirs0
  {
  }

  /** The directories on disk after one created folder and its subtree. */
  lemma {:induction false} DirsStep(start: set<DirPath>, before: seq<DirPath>, p: DirPath, sub: seq<DirPath>,
                 dirs0: set<DirPath>, dirs1: set<DirPath>, dirs2: set<DirPath>)
    requires dirs0 == start + Members(before)
    requires p in dirs1 && (dirs1 == dirs0 || dirs1 == dirs0 + {p})
    requires dirs2 == dirs1 + Members(sub)
    ensures dirs2 == start + Members(before + ([p] + sub))
  {
    MembersAppend(before, [p] + sub);
    MembersAppend([p], sub);
    assert Members([p]) == {p};
  }

  lemma {:induction false} MembersAppend(a: seq<DirPath>, b: seq<DirPath>)
    ensures Members(a + b) == Members(a) + Members(b)
  {
  }

  /** Every directory of the plan lies strictly below the base, and every name on the way down
      from the base is a folder name, never a key starting with `_`. */
  ghost predicate UnderBase(base: DirPath, ps: seq<DirPath>) {
    forall j :: 0 <= j < |ps| ==>
      |ps[j]| > |base| && ps[j][..|base|] == base &&
      forall k :: |base| <= k < |ps[j]| ==> !Reserved(ps[j][k])
  }

  /** Preorder: a directory comes after its parent, unless its parent is the base itself. */
  ghost predicate ParentFirst(base: DirPath, ps: seq<DirPath>) {
    forall j :: 0 <= j < |ps| && |ps[j]| > 0 ==> ps[j][..|ps[j]| - 1] == base || ps[j][..|ps[j]| - 1] in ps[..j]
  }

  /** No directory of the plan is blocked or lies below a blocked directory. */
  ghost predicate AvoidsBlocked(base: DirPath, ps: seq<DirPath>, blocked: set<DirPath>) {
    forall j, k :: 0 <= j < |ps| && |base| < k <= |ps[j]| ==> ps[j][..k] !in blocked
  }

  lemma {:induction false} UnderBaseConcat(base: DirPath, a: seq<DirPath>, b: seq<DirPath>)
    requires UnderBase(base, a) && UnderBase(base, b)
    ensures UnderBase(base, a + b)
  {
    forall j | 0 <= j < |a + b|
      ensures (a + b)[j] == (if j < |a| then a[j] else b[j - |a|])
    {
    }
  }

  lemma {:induction false} UnderBaseCons(base: DirPath, k: string, ps: seq<DirPath>)
    requires !Reserved(k) && UnderBase(base + [k], ps)
    ensures UnderBase(base, [base + [k]] + ps)
  {
    var p := base + [k];
    var r := [p] + ps;
    forall j | 0 <= j < |r|
      ensures |r[j]| > |base| && r[j][..|base|] == base
      ensures forall i :: |base| <= i < |r[j]| ==> !Reserved(r[j][i])
    {
      if j > 0 {
        var x := ps[j - 1];
        assert x[..|p|] == p;
        assert x[..|base|] == x[..|p|][..|base|];
        forall i | |base| <= i < |x|
          ensures !Reserved(x[i])
        {
          if i == |base| {
            assert x[i] == x[..|p|][i];
          }
        }
      }
    }
  }

  /** Every directory the traversal creates or finds lies below the base, along folder names. */
  lemma {:induction false} PlanUnderBase(base: DirPath, es: Entries, blocked: set<DirPath>)
    ensures UnderBase(base, Plan(base, es, blocked))
    decreases Size(es)
  {
    if es != [] {
      PlanUnderBase(base, es[1..], blocked);
      if !Reserved(es[0].key) {
        var p := base + [es[0].key];
        if p !in blocked {
          PlanUnderBase(p, Subfolders(es[0].val), blocked);
          UnderBaseCons(base, es[0].key, Plan(p, Subfolders(es[0].val), blocked));
          UnderBaseConcat(base, [p] + Plan(p, Subfolders(es[0].val), blocked), Plan(base, es[1..], blocked));
        } else {
          assert Plan(base, es, blocked) == Plan(base, es[1..], blocked);
        }
      }
    }
  }

  lemma {:induction false} ParentFirstConcat(base: DirPath, a: seq<DirPath>, b: seq<DirPath>)
    requires ParentFirst(base, a) && ParentFirst(base, b)
    ensures ParentFirst(base, a + b)
  {
    var r := a + b;
    forall j | 0 <= j < |r| && |r[j]| > 0
      ensures r[j][..|r[j]| - 1] == base || r[j][..|r[j]| - 1] in r[..j]
    {
      if j < |a| {
        assert r[..j] == a[..j];
      } else {
        var jb := j - |a|;
        assert r[j] == b[jb];
        assert forall x :: x in b[..jb] ==> x in r[..j] by {
          assert r[..j] == a + b[..jb];
        }
      }
    }
  }

  lemma {:induction false} ParentFirstCons(base: DirPath, k: string, ps: seq<DirPath>)
    requires ParentFirst(base + [k], ps)
    ensures ParentFirst(base, [base + [k]] + ps)
  {
    var p := base + [k];
    var r := [p] + ps;
    assert p[..|p| - 1] == base;
    forall j | 0 < j < |r| && |r[j]| > 0
      ensures r[j][..|r[j]| - 1] == base || r[j][..|r[j]| - 1] in r[..j]
    {
      assert r[j] == ps[j - 1];
      assert r[..j] == [p] + ps[..j - 1];
      assert p in r[..j];
    }
  }

  /** The traversal is a preorder: each directory is created after its parent. */
  lemma {:induction false} PlanParentFirst(base: DirPath, es: Entries, blocked: set<DirPath>)
    ensures ParentFirst(base, Plan(base, es, blocked))
    decreases Size(es)
  {
    if es != [] {
      var step := Step(base, es[0], blocked);
      var rest := Plan(base, es[1..], blocked);
      assert Plan(base, es, blocked) == step + rest;
      PlanParentFirst(base, es[1..], blocked);
      var p := base + [es[0].key];
      if Reserved(es[0].key) || p in blocked {
        assert step + rest == rest;
      } else {
        PlanParentFirst(p, Subfolders(es[0].val), blocked);
        ParentFirstCons(base, es[0].key, Plan(p, Subfolders(es[0].val), blocked));
        ParentFirstConcat(base, step, rest);
      }
    }
  }

  lemma {:induction false} AvoidsBlockedConcat(base: DirPath, a: seq<DirPath>, b: seq<DirPath>, blocked: set<DirPath>)
    requires AvoidsBlocked(base, a, blocked) && AvoidsBlocked(base, b, blocked)
    ensures AvoidsBlocked(base, a + b, blocked)
  {
    forall j | 0 <= j < |a + b|
      ensures (a + b)[j] == (if j < |a| then a[j] else b[j - |a|])
    {
    }
  }

  lemma {:induction false} AvoidsBlockedCons(base: DirPath, k: string, ps: seq<DirPath>, blocked: set<DirPath>)
    requires base + [k] !in blocked && UnderBase(base + [k], ps) && AvoidsBlocked(base + [k], ps, blocked)
    ensures AvoidsBlocked(base, [base + [k]] + ps, blocked)
  {
    var p := base + [k];
    var r := [p] + ps;
    forall j, i | 0 <= j < |r| && |base| < i <= |r[j]|
      ensures r[j][..i] !in blocked
    {
      if j == 0 {
        assert i == |p| && p[..i] == p;
      } else {
        var x := ps[j - 1];
        if i == |p| {
          assert x[..i] == p;
        }
      }
    }
  }

  /** A directory that cannot be created is never in the plan, and neither is anything below it:
      the failed folder's subtree is skipped. */
  lemma {:induction false} PlanAvoidsBlocked(base: DirPath, es: Entries, blocked: set<DirPath>)
    ensures AvoidsBlocked(base, Plan(base, es, blocked), blocked)
    decreases Size(es)
  {
    if es != [] {
      PlanAvoidsBlocked(base, es[1..], blocked);
      if !Reserved(es[0].key) {
        var p := base + [es[0].key];
        if p !in blocked {
          var sub := Plan(p, Subfolders(es[0].val), blocked);
          PlanAvoidsBlocked(p, Subfolders(es[0].val), blocked);
          PlanUnderBase(p, Subfolders(es[0].val), blocked);
          AvoidsBlockedCons(base, es[0].key, sub, blocked);
          AvoidsBlockedConcat(base, [p] + sub, Plan(base, es[1..], blocked), blocked);
        } else {
          assert Plan(base, es, blocked) == Plan(base, es[1..], blocked);
        }
      }
    }
  }

  /** Siblings are processed in the order of the mapping: the plan of a mapping is the plan of its
      first entries followed by the plan of the rest. */
  lemma {:induction false} PlanAppend(base: DirPath, a: Entries, b: Entries, blocked: set<DirPath>)
    ensures Plan(base, a + b, blocked) == Plan(base, a, blocked) + Plan(base, b, blocked)
    decreases |a|
  {
    if a != [] {
      assert (a + b)[..1] == a[..1] && (a + b)[1..] == a[1..] + b;
      PlanCons(base, a + b, blocked);
      PlanCons(base, a, blocked);
      PlanAppend(base, a[1..], b, blocked);
    } else {
      assert a + b == b;
    }
  }

  /** The plan of a mapping is the plan of its first entry followed by the plan of the rest. */
  lemma {:induction false} PlanCons(base: DirPath, es: Entries, blocked: set<DirPath>)
    requires es != []
    ensures Plan(base, es, blocked) == Plan(base, es[..1], blocked) + Plan(base, es[1..], blocked)
  {
    var one := es[..1];
    assert one[0] == es[0] && one[1..] == [];
    assert Plan(base, one[1..], blocked) == [];
  }

  /** When nothing fails, every top-level folder of the mapping is created or found. */
  lemma {:induction false} PlanTopLevel(base: DirPath, es: Entries, k: string)
    requires k in Keys(es) && !Reserved(k)
    ensures base + [k] in Plan(base, es, {})
    decreases Size(es)
  {
    if es[0].key != k {
      PlanTopLevel(base, es[1..], k);
    }
  }

  /** `path` names a folder of the mapping: its first name is a non-reserved key of `es`, and the
      rest of it names a folder among that key's subfolders. */
  predicate FolderPath(es: Entries, path: seq<string>)
    decreases Size(es)
  {
    path != [] && es != [] &&
    ((es[0].key == path[0] && !Reserved(path[0]) &&
      (|path| == 1 || FolderPath(Subfolders(es[0].val), path[1..])))
     || FolderPath(es[1..], path))
  }

  /** No directory on the way from the base down to `base + path` is one that cannot be created. */
  predicate Unblocked(base: DirPath, path: seq<string>, blocked: set<DirPath>) {
    forall k :: 1 <= k <= |path| ==> base + path[..k] !in blocked
  }

  /** The traversal creates or finds every folder of the mapping, at every depth, unless it or a
      folder above it cannot be created. */
  lemma {:induction false} PlanReaches(base: DirPath, es: Entries, path: seq<string>, blocked: set<DirPath>)
    requires FolderPath(es, path) && Unblocked(base, path, blocked)
    ensures base + path in Plan(base, es, blocked)
    decreases Size(es)
  {
    var e := es[0];
    if e.key == path[0] && !Reserved(path[0]) && (|path| == 1 || FolderPath(Subfolders(e.val), path[1..])) {
      var p := base + [e.key];
      UnblockedStep(base, path, blocked);
      assert Plan(base, es, blocked) == ([p] + Plan(p, Subfolders(e.val), blocked)) + Plan(base, es[1..], blocked);
      if |path| > 1 {
        SizeOfMember(es, e);
        PlanReaches(p, Subfolders(e.val), path[1..], blocked);
      } else {
        assert path == [e.key];
      }
    } else {
      PlanReaches(base, es[1..], path, blocked);
    }
  }

  /** One level down an unblocked path: its first directory is not blocked, and the rest of the
      path is unblocked below it. */
  lemma {:induction false} UnblockedStep(base: DirPath, path: seq<string>, blocked: set<DirPath>)
    requires path != [] && Unblocked(base, path, blocked)
    ensures base + [path[0]] !in blocked && Unblocked(base + [path[0]], path[1..], blocked)
    ensures base + path == (base + [path[0]]) + path[1..]
  {
    assert path[..1] == [path[0]];
    forall k | 1 <= k <= |path[1..]|
      ensures (base + [path[0]]) + path[1..][..k] !in blocked
    {
      assert (base + [path[0]]) + path[1..][..k] == base + path[..k + 1];
    }
  }

  /** Conversely, every directory the traversal creates or finds is a folder of the mapping. */
  lemma {:induction false} PlanFolders(base: DirPath, es: Entries, blocked: set<DirPath>, q: DirPath)
    requires q in Plan(base, es, blocked)
    ensures |q| > |base| && q[..|base|] == base && FolderPath(es, q[|base|..])
    decreases Size(es)
  {
    var e := es[0];
    var p := base + [e.key];
    if q in Plan(base, es[1..], blocked) {
      PlanFolders(base, es[1..], blocked, q);
    } else if q == p {
      assert q[|base|..] == [e.key];
    } else {
      var sub := Subfolders(e.val);
      assert q in Plan(p, sub, blocked);
      SizeOfMember(es, e);
      PlanFolders(p, sub, blocked, q);
      var path := q[|base|..];
      assert q[..|base|] == q[..|p|][..|base|];
      assert path[0] == q[|base|] == q[..|p|][|base|] == e.key;
      assert path[1..] == q[|p|..];
    }
  }

  /** Idempotent materialisation: after a run, the directories that cannot be created are the
      same ones, so a second run on the same mapping finds the same directories in the same
      order and leaves the directories as the first run left them. */
  lemma {:induction false} RerunChangesNothing(dirs: set<DirPath>, failing: set<DirPath>, base: DirPath, es: Entries)
    ensures
      var first := Plan(base, es, failing - dirs);
      var after := dirs + Members(first);
      failing - after == failing - dirs &&
      Plan(base, es, failing - after) == first &&
      after + Members(Plan(base, es, failing - after)) == after
  {
    var first := Plan(base, es, failing - dirs);
    PlanAvoidsBlocked(base, es, failing - dirs);
    PlanUnderBase(base, es, failing - dirs);
    forall p | p in first
      ensures p !in failing - dirs
    {
      var j :| 0 <= j < |first| && first[j] == p;
      assert p[..|p|] == p;
    }
  }

  /** The example configuration `{"folders": {"Projects": {"_icon": "icons/star.png", "2024": {}}}}`
      makes `Projects` and then `Projects/2024`, and nothing for the icon key. */
  lemma {:induction false} ProjectsScenario()
    ensures Plan([], [Entry("Projects", Obj([Entry(IconKey, Str("icons/star.png")), Entry("2024", Obj([]))]))], {})
         == [["Projects"], ["Projects", "2024"]]
  {
    var year := [Entry("2024", Obj([]))];
    var inner := [Entry(IconKey, Str("icons/star.png"))] + year;
    var es := [Entry("Projects", Obj(inner))];
    assert Reserved(IconKey);
    assert !Reserved("Projects") && !Reserved("2024");
    assert Subfolders(Obj(inner)) == year by {
      assert inner[1..] == year && inner[0].key == IconKey;
      assert Visible(inner) == Visible(year);
      assert year[0].key == "2024" && year[1..] == [];
      assert Visible(year) == [year[0]] + Visible([]);
    }
    assert Subfolders(Obj([])) == [];
    var p, q := [] + ["Projects"], ["Projects"] + ["2024"];
    assert Plan(q, [], {}) == [];
    assert Plan(p, year, {}) == [q] by {
      assert year[1..] == [] && year[0].key == "2024";
      assert p + [year[0].key] == q;
      assert Plan(p, year, {}) == ([q] + Plan(q, Subfolders(year[0].val), {})) + Plan(p, [], {});
    }
    assert es[1..] == [];
    assert Plan([], es, {}) == [p] + [q];
    assert inner == [Entry(IconKey, Str("icons/star.png")), Entry("2024", Obj([]))];
    assert p == ["Projects"] && q == ["Projects", "2024"];
    assert [p] + [q] == [["Projects"], ["Projects", "2024"]];
  }

  /** A path separator on Windows. */
  predicate IsSep(c: char) {
    c == '\\' || c == '/'
  }

  /** A name without separators. */
  predicate SepFree(s: string) {
    forall i :: 0 <= i < |s| ==> !IsSep(s[i])
  }

  /** `os.path.basename` on Windows paths: what follows the last `\` or `/`, after a drive
      prefix such as `C:`. */
  function Basename(p: string): (r: string)
    ensures SepFree(r)
  {
    AfterLastSep(if |p| >= 2 && p[1] == ':' then p[2..] else p)
  }

  /** The longest suffix of `s` without a separator. */
  function AfterLastSep(s: string): (r: string)
    ensures SepFree(r)
    ensures |r| <= |s| && r == s[|s| - |r|..]
    ensures |r| < |s| ==> IsSep(s[|s| - |r| - 1])
  {
    if s == [] then []
    else if IsSep(s[|s| - 1]) then []
    else
      var init := s[..|s| - 1];
      var t := AfterLastSep(init);
      var r := t + [s[|s| - 1]];
      assert s[|s| - |r|..] == init[|init| - |t|..] + [s[|s| - 1]];
      assert |r| < |s| ==> s[|s| - |r| - 1] == init[|init| - |t| - 1];
      r
  }

  /** What follows the last separator is the last component. */
  lemma {:induction false} AfterSep(a: string, c: char, b: string)
    requires IsSep(c) && SepFree(b)
    ensures AfterLastSep(a + [c] + b) == b
    decreases |b|
  {
    var s := a + [c] + b;
    if b != [] {
      var b' := b[..|b| - 1];
      assert s[..|s| - 1] == a + [c] + b';
      AfterSep(a, c, b');
      assert b == b' + [b[|b| - 1]];
    }
  }

  /** A name without separators is its own last component. */
  lemma {:induction false} NoSep(b: string)
    requires SepFree(b)
    ensures AfterLastSep(b) == b
  {
  }

  /** The position of the last `.` in a file name, if any. */
  function LastDot(f: string): (r: Option<nat>)
    ensures r.Some? ==> r.value < |f| && f[r.value] == '.' && forall i :: r.value < i < |f| ==> f[i] != '.'
    ensures r.None? ==> '.' !in f
  {
    if f == [] then None
    else if f[|f| - 1] == '.' then Some(|f| - 1)
    else
      var r := LastDot(f[..|f| - 1]);
      assert f == f[..|f| - 1] + [f[|f| - 1]];
      r
  }

  /** The dot in front of a dot-free tail is the last one. */
  lemma {:induction false} DotBefore(a: string, b: string)
    requires '.' !in b
    ensures LastDot(a + "." + b) == Some(|a|)
  {
    var s := a + "." + b;
    assert s[|a|] == '.';
    assert forall d :: |a| < d < |s| ==> s[d] == b[d - |a| - 1];
    assert forall d :: |a| < d < |s| ==> s[d] != '.';
  }

  /** A name made only of dots (or empty). */
  predicate AllDots(s: string) {
    forall i :: 0 <= i < |s| ==> s[i] == '.'
  }

  /** `os.path.splitext(f)[0]` for a file name without separators: the name up to its last dot,
      unless everything before that dot is dots, as in `.hidden`, which has no extension. */
  function Stem(f: string): string
  {
    match LastDot(f)
    case Some(d) => if AllDots(f[..d]) then f else f[..d]
    case None => f
  }

  /** `os.path.splitext(f)[1]`: the extension that `Stem` leaves out. */
  function Extension(f: string): string
  {
    match LastDot(f)
    case Some(d) => if AllDots(f[..d]) then [] else f[d..]
    case None => []
  }

  /** The stem and the extension together make the file name, and the extension is either empty
      or a dot followed by no further dot, after a stem that is not only dots. */
  lemma {:induction false} SplitParts(f: string)
    ensures f == Stem(f) + Extension(f)
    ensures Extension(f) == [] || (Extension(f)[0] == '.' && '.' !in Extension(f)[1..] && !AllDots(Stem(f)))
  {
    match LastDot(f) {
      case Some(d) =>
        assert f == f[..d] + f[d..];
        assert f[d..][1..] == f[d + 1..];
      case None =>
    }
  }

  /** The stem is a prefix of the name. */
  lemma {:induction false} StemPrefix(f: string)
    ensures |Stem(f)| <= |f| && Stem(f) == f[..|Stem(f)|]
  {
  }

  /** The name of the icon file written into a folder for the image at `iconPath`:
      `os.path.splitext(os.path.basename(icon_path))[0] + '.ico'`. Joining the base directory in
      front of the configured path leaves its last component unchanged, so it is left out here. */
  function IconName(iconPath: string): string
  {
    Stem(Basename(iconPath)) + ".ico"
  }

  /** The icon file name ends with `.ico` and names a file inside the folder, never a path. */
  lemma {:induction false} IconNameShape(iconPath: string)
    ensures var n := IconName(iconPath);
      |n| >= 4 && n[|n| - 4..] == ".ico" && SepFree(n)
  {
    var b := Basename(iconPath);
    StemPrefix(b);
    PrefixSepFree(b, |Stem(b)|);
    IcoSepFree(Stem(b));
    IcoEnding(Stem(b));
  }

  /** A prefix of a name without separators has none either. */
  lemma {:induction false} PrefixSepFree(b: string, k: nat)
    requires SepFree(b) && k <= |b|
    ensures SepFree(b[..k])
  {
  }

  lemma {:induction false} IcoEnding(s: string)
    ensures var n := s + ".ico"; |n| >= 4 && n[|n| - 4..] == ".ico"
  {
    var n := s + ".ico";
    assert n[|n| - 4..] == ".ico";
  }

  /** A file name ending in `.ico` is named after its own stem when that stem has a character
      other than a dot, no separator, and does not begin like a drive (`X:`). */
  lemma {:induction false} IconNameOfIco(s: string)
    requires !AllDots(s) && SepFree(s) && (|s| < 2 || s[1] != ':')
    ensures IconName(s + ".ico") == s + ".ico"
  {
    var n := s + ".ico";
    IcoSepFree(s);
    assert |n| >= 2 ==> n[1] != ':' by {
      if |s| >= 2 {
        assert n[1] == s[1];
      } else {
        assert n[1] == '.';
      }
    }
    PlainBasename(n);
    StemOfIco(s);
  }

  lemma {:induction false} IcoSepFree(s: string)
    requires SepFree(s)
    ensures SepFree(s + ".ico")
  {
    var n := s + ".ico";
    assert forall i :: 0 <= i < |n| ==> n[i] == if i < |s| then s[i] else ".ico"[i - |s|];
  }

  /** A name with no separator and no drive prefix is its own basename. */
  lemma {:induction false} PlainBasename(n: string)
    requires SepFree(n) && (|n| >= 2 ==> n[1] != ':')
    ensures Basename(n) == n
  {
    NoSep(n);
  }

  /** `.ico` is the extension of a name ending in it, after a stem that is not only dots. */
  lemma {:induction false} StemOfIco(s: string)
    requires !AllDots(s)
    ensures Stem(s + ".ico") == s
  {
    assert s + ".ico" == s + "." + "ico";
    StemOfExt(s, "ico");
  }

  /** Running the naming on its own output changes nothing, for every image whose stem has a
      character other than a dot and does not begin like a drive (`X:`). */
  lemma {:induction false} IconNameIdempotent(iconPath: string)
    requires !AllDots(Stem(Basename(iconPath)))
    requires var s := Stem(Basename(iconPath)); |s| < 2 || s[1] != ':'
    ensures IconName(IconName(iconPath)) == IconName(iconPath)
  {
    var b := Basename(iconPath);
    var s := Stem(b);
    StemPrefix(b);
    assert SepFree(s) by {
      assert forall i :: 0 <= i < |s| ==> s[i] == b[i];
    }
    IconNameOfIco(s);
  }

  /** The leading text of the `desktop.ini` file, up to the icon name. */
  const IniHead: string := "[.ShellClassInfo]\nIconResource=.\\"

  /** The trailing text: icon index 0. */
  const IniTail: string := ",0"

  /** The `desktop.ini` text written for the icon file `iconName`. */
  function DesktopIni(iconName: string): string
  {
    IniHead + iconName + IniTail
  }

  /** Reading the icon file name back from a `desktop.ini` text of that shape. */
  function IniIcon(text: string): Option<string>
  {
    if |text| >= |IniHead| + |IniTail| && text[..|IniHead|] == IniHead && text[|text| - |IniTail|..] == IniTail
    then Some(text[|IniHead|..|text| - |IniTail|])
    else None
  }

  /** The `desktop.ini` text names exactly the icon file it was written for. */
  lemma {:induction false} DesktopIniNamesIcon(iconName: string)
    ensures IniIcon(DesktopIni(iconName)) == Some(iconName)
  {
    var t := DesktopIni(iconName);
    assert t[..|IniHead|] == IniHead;
    assert t[|t| - |IniTail|..] == IniTail;
    assert t[|IniHead|..|t| - |IniTail|] == iconName;
  }

  /** Reading back succeeds only on the text written for the name read: the two are inverse. */
  lemma {:induction false} IniIconInverse(text: string)
    ensures IniIcon(text).Some? ==> DesktopIni(IniIcon(text).value) == text
  {
    if IniIcon(text).Some? {
      assert text == text[..|IniHead|] + text[|IniHead|..|text| - |IniTail|] + text[|text| - |IniTail|..];
    }
  }

  /** The name after the last separator is the basename, when no drive prefix is in the way. */
  lemma {:induction false} BasenameAfterSep(dir: string, sep: char, f: string)
    requires IsSep(sep) && SepFree(f) && (|dir| < 2 || dir[1] != ':') && (|dir| == 0 && |f| > 0 ==> f[0] != ':')
    ensures Basename(dir + [sep] + f) == f
  {
    var p := dir + [sep] + f;
    assert |p| >= 2 ==> p[1] == if |dir| >= 2 then dir[1] else if |dir| == 1 then sep else f[0];
    AfterSep(dir, sep, f);
  }

  /** The text after the last dot is the extension, after a stem that is not only dots. */
  lemma {:induction false} StemOfExt(stem: string, ext: string)
    requires !AllDots(stem) && '.' !in ext
    ensures Stem(stem + "." + ext) == stem
  {
    DotBefore(stem, ext);
    assert (stem + "." + ext)[..|stem|] == stem;
  }

  /** The example configuration's icon `icons/star.png` becomes `star.ico`. */
  lemma {:induction false} StarIcon(iconPath: string)
    requires iconPath == "icons/star.png"
    ensures IconName(iconPath) == "star.ico"
  {
    StarPathParts(iconPath);
    BasenameAfterSep("icons", '/', "star.png");
    StemOfExt("star", "png");
  }

  /** The example icon path is the directory `icons`, a `/` and the file `star.png`, whose stem is
      `star` and whose extension is `png`. */
  lemma {:induction false} StarPathParts(iconPath: string)
    requires iconPath == "icons/star.png"
    ensures iconPath == "icons" + ['/'] + "star.png"
    ensures "star.png" == "star" + "." + "png"
    ensures SepFree("star.png") && !AllDots("star") && '.' !in "png"
  {
    assert "star"[0] != '.';
  }

  /** The `desktop.ini` text of the example configuration's folder: `[.ShellClassInfo]`, then
      `IconResource=.\star.ico,0`. */
  lemma {:induction false} StarIni()
    ensures DesktopIni("star.ico") == "[.ShellClassInfo]\nIconResource=.\\star.ico,0"
  {
  }
}
