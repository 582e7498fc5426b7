/**
 * What `_apply_icon` does to the stored structure. The source walks the nested dicts in
 * place, holding a reference `current` to the dict it has reached. Here a reference is the
 * sequence of keys that leads to that dict from the top of `folder_structure`, and writing
 * through it is `ReplaceAt`. `Walk` is the recursive reference the in-place loop of
 * `ConfigEditor.WalkAndSet` is proved against.
 */
module IconWalk {
  import opened Wrappers
  import opened JsonValue

  /** A reference to a mapping nested in the structure: the keys leading to it. */
  type Ref = seq<string>

  /** The mapping `ref` reaches, when every value on the way is a mapping. */
  function DictAt(es: Entries, ref: Ref): Option<Entries>
    decreases |ref|
  {
    if ref == [] then Some(es)
    else
      match Lookup(es, ref[0])
      case Some(Obj(sub)) => DictAt(sub, ref[1..])
      case _ => None
  }

  /** The structure after the mapping at `ref` has been changed, in place, into `nd`. */
  function ReplaceAt(es: Entries, ref: Ref, nd: Entries): Entries
    requires DictAt(es, ref).Some?
    decreases |ref|
  {
    if ref == [] then nd
    else Put(es, ref[0], Obj(ReplaceAt(Lookup(es, ref[0]).value.entries, ref[1..], nd)))
  }

  /** The last step of `_apply_icon`: store the icon path, or delete `_icon` when there is one. */
  function SetIcon(d: Entries, icon: Option<string>): Entries
  {
    match icon
    case Some(p) => Put(d, IconKey, Str(p))
    case None => Delete(d, IconKey)
  }

  /** The step that gives a missing key of the path an empty mapping. */
  function Ensure(d: Entries, k: string): Entries
  {
    if k in Keys(d) then d else Put(d, k, Obj([]))
  }

  /** The walk from mapping `d` along `keys`: a missing key is first given `{}`; when the value
      reached is not a mapping the walk goes on in a detached `{}`, so nothing further is stored. */
  function Walk(d: Entries, keys: seq<string>, icon: Option<string>): Entries
    decreases |keys|
  {
    if keys == [] then SetIcon(d, icon)
    else
      var d1 := Ensure(d, keys[0]);
      match Lookup(d1, keys[0])
      case Some(Obj(sub)) => Put(d1, keys[0], Obj(Walk(sub, keys[1..], icon)))
      case _ => d1
  }

  /** `_apply_icon` on `folder_structure` along the path below the root (`path[1:]`). `None` is the
      exception the source raises before changing anything: `folders` is a string and the walk
      indexes into it or assigns to it. A missing `folders` is the detached default `{}`. */
  function IconUpdate(fs: Entries, keys: seq<string>, icon: Option<string>): Option<Entries>
  {
    match Lookup(fs, FoldersKey)
    case None => Some(fs)
    case Some(Obj(f)) => Some(Put(fs, FoldersKey, Obj(Walk(f, keys, icon))))
    case Some(Str(_)) => if keys == [] && icon.None? then Some(fs) else None
  }

  /** Every value on the path that already exists is a mapping, so the walk never detaches. */
  predicate PathOpen(d: Entries, keys: seq<string>)
    decreases |keys|
  {
    keys == [] ||
    match Lookup(d, keys[0])
    case None => true
    case Some(Obj(sub)) => PathOpen(sub, keys[1..])
    case Some(Str(_)) => false
  }

  /** The structure made up only of the path, one new mapping per key, and the icon at its end. */
  function Chain(keys: seq<string>, p: string): Entries
    decreases |keys|
  {
    if keys == [] then [Entry(IconKey, Str(p))] else [Entry(keys[0], Obj(Chain(keys[1..], p)))]
  }

  /** `(q, k)` names an entry the walk writes: a key of the path at its own level, or `_icon` at the end. */
  predicate OnPath(keys: seq<string>, q: Ref, k: string) {
    |q| <= |keys| && q == keys[..|q|] && k == (if |q| < |keys| then keys[|q|] else IconKey)
  }

  /** After the step the key is present: an existing value is kept, a missing one becomes `{}`,
      and the other keys read as before. */
  lemma {:induction false} EnsureFacts(d: Entries, k: string)
    ensures Lookup(Ensure(d, k), k).Some?
    ensures Lookup(d, k).Some? ==> Ensure(d, k) == d
    ensures Lookup(d, k).None? ==> Lookup(Ensure(d, k), k) == Some(Obj([]))
    ensures forall k' :: k' != k ==> Lookup(Ensure(d, k), k') == Lookup(d, k')
    ensures WellFormed(d) ==> WellFormed(Ensure(d, k))
  {
    LookupFound(d, k);
    PutLookup(d, k, Obj([]), k);
    forall k' | k' != k
      ensures Lookup(Ensure(d, k), k') == Lookup(d, k')
    {
      PutLookup(d, k, Obj([]), k');
    }
    if WellFormed(d) && k !in Keys(d) {
      assert WellFormed(Obj([]).entries);
      PutWellFormed(d, k, Obj([]));
    }
  }

  /** From an empty mapping the walk creates one empty mapping per key of the path, and the icon
      ends up alone in the innermost one. */
  lemma {:induction false} WalkFromEmpty(keys: seq<string>, p: string)
    ensures Walk([], keys, Some(p)) == Chain(keys, p)
    decreases |keys|
  {
    if keys != [] {
      WalkFromEmpty(keys[1..], p);
    }
  }

  /** When every value on the path is a mapping, the mapping the path reaches afterwards holds
      `_icon` with the new path. */
  lemma {:induction false} WalkStoresIcon(d: Entries, keys: seq<string>, p: string)
    requires PathOpen(d, keys)
    ensures DictAt(Walk(d, keys, Some(p)), keys).Some?
    ensures Lookup(DictAt(Walk(d, keys, Some(p)), keys).value, IconKey) == Some(Str(p))
    decreases |keys|
  {
    if keys == [] {
      PutLookup(d, IconKey, Str(p), IconKey);
    } else {
      var k := keys[0];
      var d1 := Ensure(d, k);
      EnsureFacts(d, k);
      var sub := Lookup(d1, k).value.entries;
      WalkStoresIcon(sub, keys[1..], p);
      PutLookup(d1, k, Obj(Walk(sub, keys[1..], Some(p))), k);
    }
  }

  /** When every value on the path is a mapping, the mapping the path reaches afterwards has no
      `_icon` after clearing. */
  lemma {:induction false} WalkClearsIcon(d: Entries, keys: seq<string>)
    requires PathOpen(d, keys) && WellFormed(d)
    ensures DictAt(Walk(d, keys, None), keys).Some?
    ensures Lookup(DictAt(Walk(d, keys, None), keys).value, IconKey) == None
    decreases |keys|
  {
    if keys == [] {
      DeleteLookup(d, IconKey, IconKey);
    } else {
      var k := keys[0];
      var d1 := Ensure(d, k);
      EnsureFacts(d, k);
      LookupWellFormed(d1, k);
      var sub := Lookup(d1, k).value.entries;
      WalkClearsIcon(sub, keys[1..]);
      PutLookup(d1, k, Obj(Walk(sub, keys[1..], None)), k);
    }
  }

  /** When a value on the path is not a mapping, the walk detaches there: afterwards the path
      still does not reach a mapping, so no icon is stored or removed at its end. */
  lemma {:induction false} WalkDetached(d: Entries, keys: seq<string>, icon: Option<string>)
    requires !PathOpen(d, keys)
    ensures DictAt(Walk(d, keys, icon), keys) == None
    decreases |keys|
  {
    var k := keys[0];
    EnsureFacts(d, k);
    var v := Lookup(d, k).value;
    if v.Obj? {
      WalkDetached(v.entries, keys[1..], icon);
      PutLookup(d, k, Obj(Walk(v.entries, keys[1..], icon)), k);
    }
  }

  /** The entry `k` of the mapping at `q` is not one the walk writes, and `q` does not lead
      through the `_icon` entry that the walk overwrites at the end of the path. */
  predicate Untouched(keys: seq<string>, q: Ref, k: string) {
    && !OnPath(keys, q, k)
    && !(|keys| < |q| && q[..|keys|] == keys && q[|keys|] == IconKey)
  }

  /** Nothing else changes: every entry the walk does not write, in every mapping, reads
      afterwards as it did before. */
  lemma {:induction false} WalkFrame(d: Entries, keys: seq<string>, icon: Option<string>, q: Ref, k: string)
    requires DictAt(d, q).Some? && Untouched(keys, q, k)
    ensures DictAt(Walk(d, keys, icon), q).Some?
    ensures Lookup(DictAt(Walk(d, keys, icon), q).value, k) == Lookup(DictAt(d, q).value, k)
    decreases |q|
  {
    if keys == [] {
      if q == [] {
        WalkLevelFrame(d, keys, icon, k);
      } else {
        assert q[..0] == keys;
        WalkLevelFrame(d, keys, icon, q[0]);
      }
    } else if q == [] {
      WalkLevelFrame(d, keys, icon, k);
    } else if q[0] != keys[0] {
      WalkLevelFrame(d, keys, icon, q[0]);
    } else {
      var a := keys[0];
      EnsureFacts(d, a);
      var sub := Lookup(d, a).value.entries;
      PutLookup(d, a, Obj(Walk(sub, keys[1..], icon)), a);
      UntouchedBelow(keys, q, k);
      WalkFrame(sub, keys[1..], icon, q[1..], k);
    }
  }

  /** One level down, an untouched entry is still untouched. */
  lemma {:induction false} UntouchedBelow(keys: seq<string>, q: Ref, k: string)
    requires keys != [] && q != [] && q[0] == keys[0] && Untouched(keys, q, k)
    ensures Untouched(keys[1..], q[1..], k)
  {
    assert q == [q[0]] + q[1..];
    assert keys == [keys[0]] + keys[1..];
    if |q[1..]| <= |keys[1..]| && q[1..] == keys[1..][..|q[1..]|] {
      assert keys[..|q|] == [keys[0]] + keys[1..][..|q| - 1];
    }
    if |keys[1..]| < |q[1..]| && q[1..][..|keys[1..]|] == keys[1..] {
      assert q[..|keys|] == [q[0]] + q[1..][..|keys| - 1];
    }
  }

  /** At its own level the walk writes only the first key of the path (or `_icon`); every other key
      reads as before. */
  lemma {:induction false} WalkLevelFrame(d: Entries, keys: seq<string>, icon: Option<string>, k: string)
    requires k != (if keys == [] then IconKey else keys[0])
    ensures Lookup(Walk(d, keys, icon), k) == Lookup(d, k)
  {
    if keys == [] {
      match icon {
        case Some(p) => PutLookup(d, IconKey, Str(p), k);
        case None => DeleteLookup(d, IconKey, k);
      }
    } else {
      var a := keys[0];
      var d1 := Ensure(d, a);
      EnsureFacts(d, a);
      match Lookup(d1, a) {
        case Some(Obj(sub)) => PutLookup(d1, a, Obj(Walk(sub, keys[1..], icon)), k);
        case _ =>
      }
    }
  }

  /** The walk keeps every mapping a dict: keys stay unique at every level. */
  lemma {:induction false} WalkWellFormed(d: Entries, keys: seq<string>, icon: Option<string>)
    requires WellFormed(d)
    ensures WellFormed(Walk(d, keys, icon))
    decreases |keys|
  {
    if keys == [] {
      match icon {
        case Some(p) => PutWellFormed(d, IconKey, Str(p));
        case None => DeleteWellFormed(d, IconKey);
      }
    } else {
      var k := keys[0];
      var d1 := Ensure(d, k);
      EnsureFacts(d, k);
      match Lookup(d1, k) {
        case Some(Obj(sub)) =>
          LookupWellFormed(d1, k);
          WalkWellFormed(sub, keys[1..], icon);
          PutWellFormed(d1, k, Obj(Walk(sub, keys[1..], icon)));
        case _ =>
      }
    }
  }

  /** Applying the same icon change twice gives the same structure as applying it once;
      in particular clearing twice is clearing once. */
  lemma {:induction false} WalkIdempotent(d: Entries, keys: seq<string>, icon: Option<string>)
    requires WellFormed(d)
    ensures Walk(Walk(d, keys, icon), keys, icon) == Walk(d, keys, icon)
    decreases |keys|
  {
    if keys == [] {
      match icon {
        case Some(p) => PutTwice(d, IconKey, Str(p));
        case None => DeleteTwice(d, IconKey);
      }
    } else {
      var k := keys[0];
      var d1 := Ensure(d, k);
      EnsureFacts(d, k);
      match Lookup(d1, k) {
        case Some(Obj(sub)) =>
          var w := Walk(sub, keys[1..], icon);
          var w1 := Put(d1, k, Obj(w));
          PutLookup(d1, k, Obj(w), k);
          EnsureFacts(w1, k);
          LookupWellFormed(d1, k);
          WalkIdempotent(sub, keys[1..], icon);
          PutTwice(d1, k, Obj(w));
        case Some(Str(_)) =>
          EnsureFacts(d1, k);
      }
    }
  }

  /** Clearing undoes setting: clearing after setting an icon gives what clearing alone gives. */
  lemma {:induction false} WalkClearAfterSet(d: Entries, keys: seq<string>, p: string)
    requires WellFormed(d)
    ensures Walk(Walk(d, keys, Some(p)), keys, None) == Walk(d, keys, None)
    decreases |keys|
  {
    if keys == [] {
      DeleteAfterPut(d, IconKey, Str(p));
    } else {
      var k := keys[0];
      var d1 := Ensure(d, k);
      EnsureFacts(d, k);
      match Lookup(d1, k) {
        case Some(Obj(sub)) =>
          var w := Walk(sub, keys[1..], Some(p));
          var w1 := Put(d1, k, Obj(w));
          PutLookup(d1, k, Obj(w), k);
          EnsureFacts(w1, k);
          LookupWellFormed(d1, k);
          WalkClearAfterSet(sub, keys[1..], p);
          PutOverwrite(d1, k, Obj(w), Obj(Walk(sub, keys[1..], None)));
        case Some(Str(_)) =>
          EnsureFacts(d1, k);
      }
    }
  }

  /** After setting an icon, the item's mapping holds `_icon` with the new path exactly when
      `folders` is a mapping and every value on the path is a mapping; otherwise the walk ran in a
      detached `{}` and the stored structure has no mapping at the item's path. */
  lemma {:induction false} IconStoredIff(fs: Entries, keys: seq<string>, p: string)
    requires IconUpdate(fs, keys, Some(p)).Some?
    ensures
      var r := IconUpdate(fs, keys, Some(p)).value;
      (DictAt(r, [FoldersKey] + keys).Some? && Lookup(DictAt(r, [FoldersKey] + keys).value, IconKey) == Some(Str(p)))
      <==> (Lookup(fs, FoldersKey).Some? && Lookup(fs, FoldersKey).value.Obj? &&
            PathOpen(Lookup(fs, FoldersKey).value.entries, keys))
  {
    var r := IconUpdate(fs, keys, Some(p)).value;
    var path := [FoldersKey] + keys;
    assert path[0] == FoldersKey && path[1..] == keys;
    match Lookup(fs, FoldersKey) {
      case None =>
      case Some(Obj(f)) =>
        var w := Walk(f, keys, Some(p));
        PutLookup(fs, FoldersKey, Obj(w), FoldersKey);
        if PathOpen(f, keys) {
          WalkStoresIcon(f, keys, p);
        } else {
          WalkDetached(f, keys, Some(p));
        }
    }
  }

  /** Setting or clearing an icon keeps the structure a dict at every depth. */
  lemma {:induction false} IconUpdateWellFormed(fs: Entries, keys: seq<string>, icon: Option<string>)
    requires WellFormed(fs)
    ensures IconUpdate(fs, keys, icon).Some? ==> WellFormed(IconUpdate(fs, keys, icon).value)
  {
    match Lookup(fs, FoldersKey) {
      case None =>
      case Some(Obj(f)) =>
        LookupWellFormed(fs, FoldersKey);
        WalkWellFormed(f, keys, icon);
        PutWellFormed(fs, FoldersKey, Obj(Walk(f, keys, icon)));
      case Some(Str(_)) =>
    }
  }

  /** Applying the same icon change to the structure a second time changes nothing more. */
  lemma {:induction false} IconUpdateIdempotent(fs: Entries, keys: seq<string>, icon: Option<string>)
    requires WellFormed(fs) && IconUpdate(fs, keys, icon).Some?
    ensures IconUpdate(IconUpdate(fs, keys, icon).value, keys, icon) == IconUpdate(fs, keys, icon)
  {
    match Lookup(fs, FoldersKey) {
      case None =>
      case Some(Obj(f)) =>
        var w := Walk(f, keys, icon);
        var r := Put(fs, FoldersKey, Obj(w));
        PutLookup(fs, FoldersKey, Obj(w), FoldersKey);
        assert Lookup(r, FoldersKey) == Some(Obj(w));
        LookupWellFormed(fs, FoldersKey);
        WalkIdempotent(f, keys, icon);
        PutTwice(fs, FoldersKey, Obj(w));
      case Some(Str(_)) =>
    }
  }

  /** One level of the walk at `cur`: after giving the next key its `{}` if it is missing, either
      the walk goes on in the mapping at `cur + [k]`, and finishing it there finishes the walk at
      `cur`, or the value reached is not a mapping and the walk at `cur` is already finished. */
  lemma {:induction false} WalkDescend(s: Entries, cur: Ref, keys: seq<string>, i: nat, icon: Option<string>)
    requires DictAt(s, cur).Some? && i < |keys|
    ensures var d := DictAt(s, cur).value;
      var s1 := ReplaceAt(s, cur, Ensure(d, keys[i]));
      && DictAt(s1, cur) == Some(Ensure(d, keys[i]))
      && DictAt(s1, cur + [keys[i]]) == (match Lookup(Ensure(d, keys[i]), keys[i])
                                         case Some(Obj(sub)) => Some(sub)
                                         case _ => None)
      && (DictAt(s1, cur + [keys[i]]).Some? ==>
            ReplaceAt(s1, cur + [keys[i]], Walk(DictAt(s1, cur + [keys[i]]).value, keys[i + 1..], icon))
            == ReplaceAt(s, cur, Walk(d, keys[i..], icon)))
      && (DictAt(s1, cur + [keys[i]]).None? ==> s1 == ReplaceAt(s, cur, Walk(d, keys[i..], icon)))
  {
    var d := DictAt(s, cur).value;
    var k := keys[i];
    var d1 := Ensure(d, k);
    var s1 := ReplaceAt(s, cur, d1);
    DictAtReplace(s, cur, d1);
    assert keys[i..][0] == k && keys[i..][1..] == keys[i + 1..];
    DictAtSnoc(s1, cur, k);
    if DictAt(s1, cur + [k]).Some? {
      var w := Walk(DictAt(s1, cur + [k]).value, keys[i + 1..], icon);
      ReplaceDeeper(s1, cur, k, w);
      ReplaceTwice(s, cur, d1, Put(d1, k, Obj(w)));
    }
  }

  /** Reading the mapping one key below a reference. */
  lemma {:induction false} DictAtSnoc(es: Entries, ref: Ref, k: string)
    requires DictAt(es, ref).Some?
    ensures DictAt(es, ref + [k]) ==
      match Lookup(DictAt(es, ref).value, k)
      case Some(Obj(sub)) => Some(sub)
      case _ => None
    decreases |ref|
  {
    if ref != [] {
      assert (ref + [k])[0] == ref[0] && (ref + [k])[1..] == ref[1..] + [k];
      DictAtSnoc(Lookup(es, ref[0]).value.entries, ref[1..], k);
    }
  }

  /** After a write through a reference, the reference reaches what was written. */
  lemma {:induction false} DictAtReplace(es: Entries, ref: Ref, nd: Entries)
    requires DictAt(es, ref).Some?
    ensures DictAt(ReplaceAt(es, ref, nd), ref) == Some(nd)
    decreases |ref|
  {
    if ref != [] {
      var sub := Lookup(es, ref[0]).value.entries;
      DictAtReplace(sub, ref[1..], nd);
      PutLookup(es, ref[0], Obj(ReplaceAt(sub, ref[1..], nd)), ref[0]);
    }
  }

  /** A second write through the same reference overrides the first. */
  lemma {:induction false} ReplaceTwice(es: Entries, ref: Ref, a: Entries, b: Entries)
    requires DictAt(es, ref).Some?
    ensures DictAt(ReplaceAt(es, ref, a), ref).Some?
    ensures ReplaceAt(ReplaceAt(es, ref, a), ref, b) == ReplaceAt(es, ref, b)
    decreases |ref|
  {
    DictAtReplace(es, ref, a);
    if ref != [] {
      var sub := Lookup(es, ref[0]).value.entries;
      var e1 := ReplaceAt(es, ref, a);
      PutLookup(es, ref[0], Obj(ReplaceAt(sub, ref[1..], a)), ref[0]);
      ReplaceTwice(sub, ref[1..], a, b);
      PutOverwrite(es, ref[0], Obj(ReplaceAt(sub, ref[1..], a)), Obj(ReplaceAt(ReplaceAt(sub, ref[1..], a), ref[1..], b)));
    }
  }

  /** Writing back what a reference already reaches changes nothing. */
  lemma {:induction false} ReplaceSame(es: Entries, ref: Ref)
    requires DictAt(es, ref).Some?
    ensures ReplaceAt(es, ref, DictAt(es, ref).value) == es
    decreases |ref|
  {
    if ref != [] {
      var sub := Lookup(es, ref[0]).value.entries;
      ReplaceSame(sub, ref[1..]);
      PutExisting(es, ref[0], Obj(sub));
    }
  }

  /** A write one key below a reference is a write of the updated mapping at the reference. */
  lemma {:induction false} ReplaceDeeper(es: Entries, ref: Ref, k: string, w: Entries)
    requires DictAt(es, ref + [k]).Some?
    ensures DictAt(es, ref).Some?
    ensures ReplaceAt(es, ref + [k], w) == ReplaceAt(es, ref, Put(DictAt(es, ref).value, k, Obj(w)))
    decreases |ref|
  {
    assert (ref + [k])[0] == (if ref == [] then k else ref[0]);
    assert (ref + [k])[1..] == (if ref == [] then [] else ref[1..] + [k]);
    if ref != [] {
      var sub := Lookup(es, ref[0]).value.entries;
      ReplaceDeeper(sub, ref[1..], k, w);
    } else {
      assert [k][1..] == [];
    }
  }
}
