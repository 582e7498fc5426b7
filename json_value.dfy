/**
 * The JSON values the folder-structure editor keeps in memory. A Python dict keeps
 * insertion order, so a mapping is a sequence of entries, and the dict operations
 * the editor uses (`d.get(k)`, `d[k] = v`, `del d[k]`, `k in d`, the `_`-key filter)
 * are functions over that sequence.
 */
module JsonValue {
  import opened Wrappers

  /** A value in the structure: a mapping (dict) or a string (the `_icon` path). Every
      other JSON value (number, boolean, null or array) behaves like a string here: it is
      simply "not a dict". */
  datatype Val = Obj(entries: seq<Entry>) | Str(text: string)

  /** One key of a mapping and its value. */
  datatype Entry = Entry(key: string, val: Val)

  /** An insertion-ordered mapping. */
  type Entries = seq<Entry>

  /** The metadata key holding a folder's icon path. */
  const IconKey: string := "_icon"

  /** The top-level key of a configuration document. */
  const FoldersKey: string := "folders"

  /** A key starting with `_` is metadata, never a folder name. */
  predicate Reserved(k: string) {
    |k| > 0 && k[0] == '_'
  }

  /** The keys of a mapping, in insertion order. */
  function Keys(es: Entries): (ks: seq<string>)
    ensures |ks| == |es|
    ensures forall i :: 0 <= i < |es| ==> ks[i] == es[i].key
  {
    if es == [] then [] else [es[0].key] + Keys(es[1..])
  }

  /** A dict never holds a key twice. */
  predicate UniqueKeys(es: Entries) {
    es == [] || (es[0].key !in Keys(es[1..]) && UniqueKeys(es[1..]))
  }

  /** Unique keys at every level of nesting: what a Python dict (and so every structure) is. */
  ghost predicate WellFormed(es: Entries) {
    && UniqueKeys(es)
    && forall e :: e in es && e.val.Obj? ==> WellFormed(e.val.entries)
  }

  /** `d.get(k)`: the value stored under `k`, if any (the first such entry). */
  function Lookup(es: Entries, k: string): Option<Val>
  {
    if es == [] then None
    else if es[0].key == k then Some(es[0].val)
    else Lookup(es[1..], k)
  }

  /** `d[k] = v`: an existing key keeps its position and takes the new value;
      a new key is appended at the end. */
  function Put(es: Entries, k: string, v: Val): Entries
  {
    if es == [] then [Entry(k, v)]
    else if es[0].key == k then [Entry(k, v)] + es[1..]
    else [es[0]] + Put(es[1..], k, v)
  }

  /** `del d[k]`: drops the entry for `k`, keeping the order of the others. */
  function Delete(es: Entries, k: string): Entries
  {
    if es == [] then []
    else if es[0].key == k then es[1..]
    else [es[0]] + Delete(es[1..], k)
  }

  /** `{k: v for k, v in d.items() if not k.startswith('_')}`: the folder entries of a mapping. */
  function Visible(es: Entries): (r: Entries)
    ensures Size(r) <= Size(es)
  {
    if es == [] then []
    else if Reserved(es[0].key) then Visible(es[1..])
    else [es[0]] + Visible(es[1..])
  }

  /** A measure for recursion through nested mappings: the number of values at all depths. */
  function Size(es: Entries): nat
  {
    if es == [] then 0 else SizeOf(es[0].val) + Size(es[1..])
  }

  function SizeOf(v: Val): (n: nat)
    ensures n >= 1
  {
    match v
    case Obj(es) => 1 + Size(es)
    case Str(_) => 1
  }

  /** A mapping nested in `es` is smaller than `es`. */
  lemma {:induction false} SizeOfMember(es: Entries, e: Entry)
    requires e in es
    ensures SizeOf(e.val) <= Size(es)
  {
    if es[0] != e {
      SizeOfMember(es[1..], e);
    }
  }

  /** `k in d` exactly when `d.get(k)` finds a value, and what it finds is stored under `k`. */
  lemma {:induction false} LookupFound(es: Entries, k: string)
    ensures Lookup(es, k).None? <==> k !in Keys(es)
    ensures Lookup(es, k).Some? ==> Entry(k, Lookup(es, k).value) in es
  {
    if es != [] {
      LookupFound(es[1..], k);
      assert Keys(es) == [es[0].key] + Keys(es[1..]);
    }
  }

  /** In a mapping with unique keys, an entry stored under `k` is what `d.get(k)` finds. */
  lemma {:induction false} LookupMember(es: Entries, e: Entry)
    requires UniqueKeys(es) && e in es
    ensures Lookup(es, e.key) == Some(e.val)
  {
    if es[0] != e {
      LookupMember(es[1..], e);
      assert e in es[1..];
      if es[0].key == e.key {
        MemberKey(es[1..], e);
      }
    }
  }

  lemma {:induction false} MemberKey(es: Entries, e: Entry)
    requires e in es
    ensures e.key in Keys(es)
  {
    if es[0] != e {
      MemberKey(es[1..], e);
      assert Keys(es) == [es[0].key] + Keys(es[1..]);
    }
  }

  /** After `d[k] = v`, `d.get(k)` is `v` and every other key reads as before. */
  lemma {:induction false} PutLookup(es: Entries, k: string, v: Val, k': string)
    ensures Lookup(Put(es, k, v), k') == if k' == k then Some(v) else Lookup(es, k')
  {
    if es != [] && es[0].key != k {
      PutLookup(es[1..], k, v, k');
      assert Put(es, k, v)[1..] == Put(es[1..], k, v);
    }
  }

  /** `d[k] = v` keeps the key order and appends `k` only when it is new; keys stay unique. */
  lemma {:induction false} PutKeys(es: Entries, k: string, v: Val)
    ensures Keys(Put(es, k, v)) == if k in Keys(es) then Keys(es) else Keys(es) + [k]
    ensures UniqueKeys(es) ==> UniqueKeys(Put(es, k, v))
  {
    if es != [] {
      assert Keys(es) == [es[0].key] + Keys(es[1..]);
      if es[0].key != k {
        PutKeys(es[1..], k, v);
        assert Put(es, k, v)[1..] == Put(es[1..], k, v);
      }
    }
  }

  /** `d[k] = v` adds no entry other than `k: v`. */
  lemma {:induction false} PutMembers(es: Entries, k: string, v: Val)
    ensures forall e :: e in Put(es, k, v) ==> e in es || e == Entry(k, v)
  {
    if es != [] && es[0].key != k {
      PutMembers(es[1..], k, v);
      assert Put(es, k, v)[1..] == Put(es[1..], k, v);
    }
  }

  /** After `del d[k]` on a dict, `k` is gone and keys stay unique; every other key reads as before. */
  lemma {:induction false} DeleteLookup(es: Entries, k: string, k': string)
    ensures k' != k ==> Lookup(Delete(es, k), k') == Lookup(es, k')
    ensures UniqueKeys(es) ==> Lookup(Delete(es, k), k) == None && UniqueKeys(Delete(es, k))
    ensures k !in Keys(es) ==> Delete(es, k) == es
  {
    if es != [] {
      assert Keys(es) == [es[0].key] + Keys(es[1..]);
      if es[0].key == k {
        LookupFound(es[1..], k);
      } else {
        DeleteLookup(es[1..], k, k');
        var r := Delete(es, k);
        assert r[1..] == Delete(es[1..], k);
        DeleteKeys(es[1..], k);
        LookupFound(r, k);
      }
    }
  }

  lemma {:induction false} DeleteKeys(es: Entries, k: string)
    ensures forall k' :: k' in Keys(Delete(es, k)) ==> k' in Keys(es)
  {
    if es != [] {
      assert Keys(es) == [es[0].key] + Keys(es[1..]);
      if es[0].key != k {
        DeleteKeys(es[1..], k);
        var r := Delete(es, k);
        assert r[1..] == Delete(es[1..], k);
        assert Keys(r) == [es[0].key] + Keys(r[1..]);
      }
    }
  }

  /** The filter keeps exactly the entries whose key is not reserved. */
  lemma {:induction false} VisibleMembers(es: Entries)
    ensures forall e :: e in Visible(es) <==> e in es && !Reserved(e.key)
  {
    if es != [] {
      VisibleMembers(es[1..]);
      if !Reserved(es[0].key) {
        assert Visible(es)[1..] == Visible(es[1..]);
      }
    }
  }

  /** Looking a key up after the filter finds what the unfiltered mapping holds, unless the key is reserved. */
  lemma {:induction false} VisibleLookup(es: Entries, k: string)
    ensures Lookup(Visible(es), k) == if Reserved(k) then None else Lookup(es, k)
  {
    if es != [] {
      VisibleLookup(es[1..], k);
      if !Reserved(es[0].key) {
        assert Visible(es)[1..] == Visible(es[1..]);
      }
    }
  }

  /** The filter keeps the keys of a dict unique. */
  lemma {:induction false} VisibleUnique(es: Entries)
    requires UniqueKeys(es)
    ensures UniqueKeys(Visible(es))
  {
    if es != [] {
      VisibleUnique(es[1..]);
      if !Reserved(es[0].key) {
        var r := Visible(es);
        assert r[1..] == Visible(es[1..]);
        LookupFound(es[1..], es[0].key);
        VisibleLookup(es[1..], es[0].key);
        LookupFound(Visible(es[1..]), es[0].key);
      }
    }
  }

  /** A mapping without reserved keys passes the filter unchanged. */
  lemma {:induction false} VisibleNoReserved(es: Entries)
    requires forall e :: e in es ==> !Reserved(e.key)
    ensures Visible(es) == es
  {
    if es != [] {
      VisibleNoReserved(es[1..]);
    }
  }

  /** Writing a key a second time with the same value changes nothing more. */
  lemma {:induction false} PutTwice(es: Entries, k: string, v: Val)
    ensures Put(Put(es, k, v), k, v) == Put(es, k, v)
  {
    if es != [] && es[0].key != k {
      PutTwice(es[1..], k, v);
      assert Put(es, k, v)[1..] == Put(es[1..], k, v);
    }
  }

  /** A later write to the same key wins, and the key keeps its first position. */
  lemma {:induction false} PutOverwrite(es: Entries, k: string, v: Val, w: Val)
    ensures Put(Put(es, k, v), k, w) == Put(es, k, w)
  {
    if es != [] && es[0].key != k {
      PutOverwrite(es[1..], k, v, w);
      assert Put(es, k, v)[1..] == Put(es[1..], k, v);
    }
  }

  /** Deleting a key twice is the same as deleting it once. */
  lemma {:induction false} DeleteTwice(es: Entries, k: string)
    requires UniqueKeys(es)
    ensures Delete(Delete(es, k), k) == Delete(es, k)
  {
    DeleteLookup(es, k, k);
    LookupFound(Delete(es, k), k);
    DeleteLookup(Delete(es, k), k, k);
  }

  /** Deleting a key undoes any earlier write to it. */
  lemma {:induction false} DeleteAfterPut(es: Entries, k: string, v: Val)
    requires UniqueKeys(es)
    ensures Delete(Put(es, k, v), k) == Delete(es, k)
  {
    if es == [] {
    } else if es[0].key == k {
      assert Put(es, k, v)[1..] == es[1..];
    } else {
      DeleteAfterPut(es[1..], k, v);
      assert Put(es, k, v)[1..] == Put(es[1..], k, v);
    }
  }

  /** Writing the value a key already holds changes nothing. */
  lemma {:induction false} PutExisting(es: Entries, k: string, v: Val)
    requires Lookup(es, k) == Some(v)
    ensures Put(es, k, v) == es
  {
    if es[0].key != k {
      PutExisting(es[1..], k, v);
    }
  }

  /** Writing a key the mapping does not hold appends it. */
  lemma {:induction false} PutAbsent(es: Entries, k: string, v: Val)
    requires k !in Keys(es)
    ensures Put(es, k, v) == es + [Entry(k, v)]
  {
    if es != [] {
      assert Keys(es) == [es[0].key] + Keys(es[1..]);
      PutAbsent(es[1..], k, v);
      assert es == [es[0]] + es[1..];
    }
  }

  /** In a well-formed mapping every nested mapping is well-formed too. */
  lemma {:induction false} LookupWellFormed(es: Entries, k: string)
    requires WellFormed(es)
    ensures Lookup(es, k).Some? && Lookup(es, k).value.Obj? ==> WellFormed(Lookup(es, k).value.entries)
  {
    LookupFound(es, k);
  }

  /** Storing a value keeps a mapping well-formed when the value is well-formed itself. */
  lemma {:induction false} PutWellFormed(es: Entries, k: string, v: Val)
    requires WellFormed(es) && (v.Obj? ==> WellFormed(v.entries))
    ensures WellFormed(Put(es, k, v))
  {
    PutKeys(es, k, v);
    PutMembers(es, k, v);
  }

  /** Deleting a key keeps a mapping well-formed. */
  lemma {:induction false} DeleteWellFormed(es: Entries, k: string)
    requires WellFormed(es)
    ensures WellFormed(Delete(es, k))
  {
    DeleteLookup(es, k, k);
    DeleteMembers(es, k);
  }

  /** Deleting keeps only entries that were there. */
  lemma {:induction false} DeleteMembers(es: Entries, k: string)
    ensures forall e :: e in Delete(es, k) ==> e in es
  {
    if es != [] && es[0].key != k {
      DeleteMembers(es[1..], k);
    }
  }

  /** The recursive definition of unique keys says that no two positions share a key. */
  lemma {:induction false} UniqueKeysIndex(es: Entries)
    ensures UniqueKeys(es) <==> forall i, j :: 0 <= i < j < |es| ==> es[i].key != es[j].key
  {
    if es != [] {
      var t := es[1..];
      UniqueKeysIndex(t);
      if UniqueKeys(es) {
        forall i, j | 0 <= i < j < |es| ensures es[i].key != es[j].key {
          assert es[j] == t[j - 1] && Keys(t)[j - 1] == es[j].key;
          if i > 0 {
            assert es[i] == t[i - 1];
          }
        }
      } else if es[0].key in Keys(t) {
        var j :| 0 <= j < |t| && Keys(t)[j] == es[0].key;
        assert es[j + 1] == t[j];
      } else {
        var i, j :| 0 <= i < j < |t| && t[i].key == t[j].key;
        assert es[i + 1] == t[i] && es[j + 1] == t[j];
      }
    }
  }
}
