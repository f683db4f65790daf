/** The zone tree on the heap: names lead to shared, mutable tables from type to record list. Every
    operation edits the tables and the tree in place; its contract ties the new contents to the old
    ones through the functions of ZoneData and keeps the tree's invariants. */
module ZoneTree {
  import opened Wrappers
  import opened Names
  import opened Records
  import opened ZoneData

  class TypeTable {
    var sets: TypeSets

    constructor (sets: TypeSets)
      ensures this.sets == sets
    {
      this.sets := sets;
    }
  }

  class Tree {
    var nodes: map<string, TypeTable>

    constructor ()
      ensures nodes == map[] && Valid() && Contents() == map[] && Repr() == {this}
    {
      nodes := map[];
      new;
      EmptyIsSound();
    }

    ghost function Repr(): set<object>
      reads this
    {
      {this} + nodes.Values
    }

    ghost function Contents(): Zone
      reads this, nodes.Values
    {
      map n | n in nodes :: nodes[n].sets
    }

    /** No table is shared between names. */
    ghost predicate Separate()
      reads this
    {
      forall m, n :: m in nodes && n in nodes && m != n ==> nodes[m] != nodes[n]
    }

    ghost predicate Valid()
      reads this, nodes.Values
    {
      Separate() && Sound(Contents())
    }

    /** Writes a table: in place when the name is present, in a new one otherwise. */
    method Put(name: string, sets: TypeSets)
      requires Separate()
      modifies Repr()
      ensures Separate() && fresh(Repr() - old(Repr()))
      ensures Contents() == old(Contents())[name := sets]
    {
      if name in nodes {
        assert nodes[name] in nodes.Values;
        nodes[name].sets := sets;
      } else {
        var table := new TypeTable(sets);
        nodes := nodes[name := table];
      }
      assert Contents().Keys == old(Contents())[name := sets].Keys;
    }

    method Delete(name: string)
      requires Separate()
      modifies this
      ensures Separate() && Repr() <= old(Repr())
      ensures Contents() == old(Contents()) - {name}
    {
      nodes := nodes - {name};
    }

    /** Puts the table back, or drops the name when the table is empty. */
    method PutOrDelete(name: string, sets: TypeSets)
      requires Separate() && name in nodes
      modifies Repr()
      ensures Separate() && fresh(Repr() - old(Repr()))
      ensures Contents() == Restored(old(Contents()), name, sets)
    {
      if |sets| == 0 {
        Delete(name);
      } else {
        Put(name, sets);
      }
    }
  }

  /** The inner loop of the deep copy. */
  method CopySets(byType: TypeSets) returns (copied: TypeSets)
    ensures copied == byType
  {
    copied := map[];
    var types := byType.Keys;
    while types != {}
      invariant types <= byType.Keys
      invariant copied == map t | t in byType && t !in types :: byType[t]
    {
      var t :| t in types;
      types := types - {t};
      copied := copied[t := byType[t]];
    }
  }

  /** Deep copy: a new tree and new tables with the same contents; nothing existing is written. */
  method CloneTree(tree: Tree?) returns (clone: Tree)
    requires tree != null ==> tree.Valid()
    ensures clone.Valid() && fresh(clone.Repr())
    ensures clone.Contents() == if tree == null then map[] else tree.Contents()
  {
    hide Sound;
    clone := new Tree();
    if tree == null {
      return;
    }
    var todo := tree.nodes.Keys;
    while todo != {}
      invariant todo <= tree.nodes.Keys
      invariant fresh(clone.Repr()) && clone.Separate()
      invariant clone.Contents().Keys == tree.nodes.Keys - todo
      invariant forall n <- clone.Contents() :: clone.Contents()[n] == tree.nodes[n].sets
    {
      var key :| key in todo;
      todo := todo - {key};
      var copied := CopySets(tree.nodes[key].sets);
      clone.Put(key, copied);
    }
    assert clone.Contents() == tree.Contents();
  }

  method InsertRR(tree: Tree, rr: RR)
    requires tree.Valid()
    modifies tree.Repr()
    ensures tree.Valid() && fresh(tree.Repr() - old(tree.Repr()))
    ensures tree.Contents() == Inserted(old(tree.Contents()), rr)
  {
    ghost var z := tree.Contents();
    InsertKeepsInvariants(z, rr);
    var name := NormalizeName(rr.name);
    var sets := map[];
    if name in tree.nodes {
      sets := tree.nodes[name].sets;
    }
    var present := if rr.rrtype in sets then sets[rr.rrtype] else [];
    tree.Put(name, sets[rr.rrtype := present + [rr]]);
  }

  /** Removes every record at a name and type that prints to the trimmed value. */
  method RemoveMatchingRR(tree: Tree, rawName: string, qtype: Word16, value: string) returns (removed: bool)
    requires tree.Valid()
    modifies tree.Repr()
    ensures tree.Valid() && fresh(tree.Repr() - old(tree.Repr()))
    ensures removed == CanRemoveMatching(old(tree.Contents()), rawName, qtype, value)
    ensures tree.Contents() == WithoutMatching(old(tree.Contents()), rawName, qtype, value)
  {
    hide Sound, NormalizeName, Kept;
    ghost var z := tree.Contents();
    KeptIsSmaller([], value);
    var name := NormalizeName(rawName);
    if name !in tree.nodes {
      return false;
    }
    var sets := tree.nodes[name].sets;
    if qtype !in sets || |sets[qtype]| == 0 {
      return false;
    }
    var rrs := sets[qtype];
    var kept;
    kept, removed := KeepOthers(rrs, value);
    if !removed {
      return;
    }
    RemovalKeepsInvariants(z, name, qtype, kept);
    tree.PutOrDelete(name, if |kept| == 0 then sets - {qtype} else sets[qtype := kept]);
  }

  /** The filtering loop of the removal by value. */
  method KeepOthers(rrs: seq<RR>, value: string) returns (kept: seq<RR>, removed: bool)
    ensures kept == Kept(rrs, value) && forall rr <- kept :: rr in rrs
    ensures removed == (kept != rrs)
  {
    hide DataValue, TrimSpace;
    var want := TrimSpace(value);
    kept, removed := [], false;
    for i := 0 to |rrs|
      invariant kept == Kept(rrs[..i], value)
      invariant removed ==> |kept| < i
      invariant !removed ==> kept == rrs[..i]
    {
      assert rrs[..i + 1] == rrs[..i] + [rrs[i]];
      FilterOfConcat(rrs[..i], [rrs[i]], (rr: RR) => DataValue(rr.data) != TrimSpace(value));
      if DataValue(rrs[i].data) == want {
        removed := true;
      } else {
        kept := kept + [rrs[i]];
      }
    }
    assert rrs[..|rrs|] == rrs;
  }

  /** Deletes one type at a name, or the whole name for type ANY. */
  method RemoveRRset(tree: Tree, rawName: string, qtype: Word16) returns (removed: bool)
    requires tree.Valid()
    modifies tree.Repr()
    ensures tree.Valid() && fresh(tree.Repr() - old(tree.Repr()))
    ensures removed == CanRemoveRRset(old(tree.Contents()), rawName, qtype)
    ensures tree.Contents() == WithoutRRset(old(tree.Contents()), rawName, qtype)
  {
    ghost var z := tree.Contents();
    var name := NormalizeName(rawName);
    if name !in tree.nodes {
      return false;
    }
    var sets := tree.nodes[name].sets;
    if qtype == TYPE_ANY {
      tree.Delete(name);
      return true;
    }
    if qtype !in sets {
      return false;
    }
    RemovalKeepsInvariants(z, name, qtype, []);
    tree.PutOrDelete(name, sets - {qtype});
    return true;
  }

  method RemoveAllAtName(tree: Tree, rawName: string) returns (removed: bool)
    requires tree.Valid()
    modifies tree
    ensures tree.Valid() && tree.Repr() <= old(tree.Repr())
    ensures removed == (NormalizeName(rawName) in old(tree.Contents()))
    ensures tree.Contents() == WithoutName(old(tree.Contents()), rawName)
  {
    var name := NormalizeName(rawName);
    if name !in tree.nodes {
      return false;
    }
    tree.Delete(name);
    return true;
  }

  // ---------------------------------------------------------------- update sections

  method ApplyUpdateRR(tree: Tree, origin: string, rr: RR) returns (error: Option<StoreError>)
    requires tree.Valid()
    modifies tree.Repr()
    ensures tree.Valid() && fresh(tree.Repr() - old(tree.Repr()))
    ensures Outcome(tree.Contents(), error) == ApplyUpdate(old(tree.Contents()), origin, rr)
  {
    hide Sound, NormalizeName, IsNameInZone, DataValue, CanRemoveMatching, CanRemoveRRset;
    var name := NormalizeName(rr.name);
    NormalizeIsNormal(rr.name);
    if !IsNameInZone(name, origin) {
      return Some(NotInZone);
    }
    if rr.rrtype == TYPE_SOA {
      return Some(UpdateRefused);
    }
    var done := true;
    if rr.rclass == CLASS_INET {
      InsertRR(tree, rr);
      return None;
    } else if rr.rclass == CLASS_NONE {
      done := RemoveMatchingRR(tree, name, rr.rrtype, DataValue(rr.data));
      return if done then None else Some(NxRrset);
    } else if rr.rclass == CLASS_ANY {
      if rr.rrtype == TYPE_ANY {
        done := RemoveAllAtName(tree, name);
        return if done then None else Some(NxDomain);
      }
      done := RemoveRRset(tree, name, rr.rrtype);
      return if done then None else Some(NxRrset);
    } else {
      return Some(UnsupportedClass(rr.rclass));
    }
  }

  /** Applies the records in order and stops at the first error. */
  method ApplyUpdateSection(tree: Tree, rawOrigin: string, updates: seq<RR>) returns (error: Option<StoreError>)
    requires tree.Valid()
    modifies tree.Repr()
    ensures tree.Valid() && fresh(tree.Repr() - old(tree.Repr()))
    ensures Outcome(tree.Contents(), error)
         == ApplySection(old(tree.Contents()), NormalizeName(rawOrigin), updates)
  {
    hide Sound, NormalizeName, ApplyUpdate;
    var origin := NormalizeName(rawOrigin);
    ghost var goal := ApplySection(tree.Contents(), origin, updates);
    for i := 0 to |updates|
      invariant tree.Valid() && fresh(tree.Repr() - old(tree.Repr()))
      invariant ApplySection(tree.Contents(), origin, updates[i..]) == goal
    {
      assert updates[i..][0] == updates[i] && updates[i..][1..] == updates[i + 1..];
      error := ApplyUpdateRR(tree, origin, updates[i]);
      if error.Some? {
        return;
      }
    }
    return None;
  }

  // ---------------------------------------------------------------- reading a zone out of a tree

  /** The inner loops of the collection: every record of one name. */
  method CollectName(name: string, byType: TypeSets) returns (block: seq<RR>)
    requires forall t <- byType :: FiledUnder(byType[t], name, t)
    ensures forall n: string, t: Word16 ::
      At(block, n, t) == if n == name && t in byType then byType[t] else []
  {
    hide NormalizeName, At, FiledUnder;
    block := [];
    var types := byType.Keys;
    NothingCollected();
    while types != {}
      invariant types <= byType.Keys
      invariant forall n: string, t: Word16 ::
        At(block, n, t) == if n == name && t in byType && t !in types then byType[t] else []
    {
      var qtype :| qtype in types;
      types := types - {qtype};
      forall n: string, t: Word16
        ensures At(block + byType[qtype], n, t)
          == if n == name && t in byType && t !in types then byType[t] else []
      {
        AtOfConcat(block, byType[qtype], n, t);
        AtOwnBlock(byType[qtype], name, qtype, n, t);
      }
      block := block + byType[qtype];
    }
  }

  /** Every record of the zone; names and types come in no particular order. */
  method CollectZoneRecords(tree: Tree, origin: string) returns (out: seq<RR>)
    requires tree.Valid()
    ensures Collected(tree.Contents(), origin, out)
  {
    hide Sound, NormalizeName, IsNameInZone, At, FiledUnder;
    out := [];
    ghost var z := tree.Contents();
    var todo := tree.nodes.Keys;
    NothingCollected();
    while todo != {}
      invariant todo <= z.Keys
      invariant forall n: string, t: Word16 ::
        At(out, n, t) == if n !in todo && IsNameInZone(n, origin) then RRset(z, n, t) else []
    {
      var name :| name in todo;
      todo := todo - {name};
      if IsNameInZone(name, origin) {
        SoundFiles(z, name);
        var block := CollectName(name, tree.nodes[name].sets);
        forall n: string, t: Word16
          ensures At(out + block, n, t) == if n !in todo && IsNameInZone(n, origin) then RRset(z, n, t) else []
        {
          AtOfConcat(out, block, n, t);
        }
        out := out + block;
      }
    }
  }
}
