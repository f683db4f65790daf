/** The authoritative store: two views, each a pointer to a tree. A mutation clones the tree of its view,
    edits the clone and swaps the pointer, so readers keep the tree they hold. The ghost map records
    every tree that was ever published together with its contents at that moment. */
module Store {
  import opened Wrappers
  import opened Names
  import opened ZoneNames
  import opened Records
  import opened ZoneData
  import opened ZoneTree
  import opened Signer
  import opened SignedTree

  datatype View = PublicView | InternalView

  type ZoneId = (string, View)

  /** The contents of a tree at the moment of its publication. */
  datatype Snapshot = Snapshot(contents: Zone)

  predicate PersistResult(error: Option<StoreError>) {
    error == None || error == Some(PersistFailed)
  }

  class Memory {
    var publicTree: Tree
    var internalTree: Tree
    var registry: set<ZoneId>
    var keys: map<ZoneId, KeyPair>
    ghost var published: map<Tree, Snapshot>
    ghost var Repr: set<object>

    constructor ()
      ensures Valid() && Isolated() && fresh(Repr)
      ensures publicTree.Contents() == map[] && internalTree.Contents() == map[]
      ensures registry == {} && keys == map[]
    {
      hide Tree.Valid, Tree.Contents;
      var p := new Tree();
      var i := new Tree();
      publicTree, internalTree, registry, keys := p, i, {}, map[];
      published := map[p := Snapshot(map[]), i := Snapshot(map[])];
      Repr := {this, p, i};
    }

    ghost predicate Valid()
      reads this, Repr
      ensures Valid() ==> this in Repr
    {
      && this in Repr && publicTree in published && internalTree in published
      && forall t <- published :: t in Repr && (forall n <- t.nodes :: t.nodes[n] in Repr) && t.Valid()
    }

    /** No published tree has changed since it was published. */
    ghost predicate Isolated()
      requires Valid()
      reads this, Repr
    {
      forall t <- published :: t.Contents() == published[t].contents
    }

    function TreeFor(view: View): Tree
      reads this
    {
      if view == InternalView then internalTree else publicTree
    }

    ghost function ContentsOf(view: View): Zone
      requires Valid()
      reads this, Repr
    {
      TreeFor(view).Contents()
    }

    /** The zone is registered, or its apex holds an SOA record. */
    ghost predicate ZoneExists(origin: string, view: View)
      requires Valid()
      reads this, Repr
    {
      (origin, view) in registry || RRset(ContentsOf(view), origin, TYPE_SOA) != []
    }

    method ZoneExistsLocked(origin: string, view: View) returns (found: bool)
      requires Valid()
      ensures found == ZoneExists(origin, view)
    {
      hide Sound;
      if (origin, view) in registry {
        return true;
      }
      var tree := TreeFor(view);
      if origin !in tree.nodes {
        return false;
      }
      var sets := tree.nodes[origin].sets;
      return TYPE_SOA in sets && |sets[TYPE_SOA]| != 0;
    }

    /** Publishes a tree as the current one of its view. */
    method Swap(view: View, tree: Tree)
      requires Valid() && tree.Valid() && tree.Repr() !! Repr
      modifies this
      ensures Valid() && Repr == old(Repr) + tree.Repr()
      ensures TreeFor(view) == tree
      ensures view == PublicView ==> internalTree == old(internalTree)
      ensures view == InternalView ==> publicTree == old(publicTree)
      ensures registry == old(registry) && keys == old(keys)
      ensures published == old(published)[tree := Snapshot(tree.Contents())]
      ensures old(Isolated()) ==> Isolated()
    {
      hide Tree.Valid, Tree.Contents;
      published := published[tree := Snapshot(tree.Contents())];
      Repr := Repr + tree.Repr();
      if view == InternalView {
        internalTree := tree;
      } else {
        publicTree := tree;
      }
    }

    /** How persisting ends. Without keys the tree stays as it is and only writing decides. With keys either
        the tree is signed and writing decides, or signing failed and the tree stays as it is. */
    static ghost predicate Persisted(keys: map<ZoneId, KeyPair>, z: Zone, id: ZoneId, window: Window, writeOk: bool,
                                     ok: bool, next: Zone)
    {
      if id !in keys then next == z && ok == writeOk
      else
        || (SignStep(z, id.0, keys[id], window, next) && ok == writeOk)
        || (next == z && !ok && SigningMayFail(z, id.0, keys[id], window))
    }

    /** Whether isolation survives, by what a caller can test beforehand: without keys it does; with keys it does
        not when a zone that signing changes was persisted. */
    static ghost predicate Guarded(keys: map<ZoneId, KeyPair>, z: Zone, id: ZoneId, ok: bool, isolated: bool) {
      && (id !in keys ==> isolated)
      && (id in keys && ChangesWhenSigned(z, id.0, keys[id]) && ok ==> !isolated)
    }

    /** Signs the tree in place when keys exist for the zone, then writes the zone file. */
    method PersistZoneFile(tree: Tree, id: ZoneId, window: Window, writeOk: bool) returns (ok: bool)
      requires tree.Valid() && this !in tree.Repr()
      modifies tree.Repr()
      ensures tree.Valid() && fresh(tree.Repr() - old(tree.Repr()))
      ensures Persisted(keys, old(tree.Contents()), id, window, writeOk, ok, tree.Contents())
    {
      hide Sound, SignStep, SigningMayFail;
      if id in keys {
        var signed := SignTree(tree, id.0, keys[id], window);
        if !signed {
          return false;
        }
      }
      return writeOk;
    }

    /** The tree shares nothing with the other published trees. */
    ghost predicate Alone(tree: Tree)
      reads this, published.Keys, tree
    {
      forall t <- published :: t != tree ==> t !in tree.Repr() && t.nodes.Values !! tree.Repr()
    }

    /** Persists a tree that is already published; the other published trees stay as they are. */
    method Settle(tree: Tree, id: ZoneId, window: Window, writeOk: bool) returns (ok: bool)
      requires Valid() && tree in published && Alone(tree) && this !in tree.Repr()
      modifies `Repr, tree.Repr()
      ensures Valid() && Repr == old(Repr) + tree.Repr() && fresh(tree.Repr() - old(tree.Repr()))
      ensures Persisted(keys, old(tree.Contents()), id, window, writeOk, ok, tree.Contents())
      ensures forall t <- published :: t != tree ==> t.Contents() == old(t.Contents())
    {
      hide SignStep, SigningMayFail, Persisted, Tree.Valid, Tree.Contents;
      ok := PersistZoneFile(tree, id, window, writeOk);
      Repr := Repr + tree.Repr();
    }

    /** The end of a mutation: the new tree is published first and persisted afterwards, in place. */
    method Commit(tree: Tree, id: ZoneId, window: Window, writeOk: bool) returns (ok: bool)
      requires Valid() && tree.Valid() && tree.Repr() !! Repr
      modifies this, tree.Repr()
      ensures Valid() && fresh(Repr - old(Repr) - old(tree.Repr()))
      ensures TreeFor(id.1) == tree
      ensures id.1 == PublicView ==> internalTree == old(internalTree)
      ensures id.1 == InternalView ==> publicTree == old(publicTree)
      ensures registry == old(registry) && keys == old(keys)
      ensures published == old(published)[tree := Snapshot(old(tree.Contents()))]
      ensures Persisted(keys, old(tree.Contents()), id, window, writeOk, ok, tree.Contents())
      ensures old(Isolated()) ==> (Isolated() <==> tree.Contents() == old(tree.Contents()))
      ensures old(Isolated()) ==> Guarded(keys, old(tree.Contents()), id, ok, Isolated())
    {
      hide SignStep, SigningMayFail, Persisted, Guarded, ChangesWhenSigned, Tree.Valid, Tree.Contents;
      Swap(id.1, tree);
      assert Alone(tree);
      ok := Settle(tree, id, window, writeOk);
      if old(Isolated()) {
        GuardDecides(keys, old(tree.Contents()), id, window, writeOk, ok, tree.Contents(), Isolated());
      }
    }

    /** The effect of a mutation that publishes contents z for a view and then persists them: a new tree,
        the other view untouched, isolation kept exactly when persisting left the new tree alone. */
    twostate predicate Replaced(id: ZoneId, z: Zone, window: Window, writeOk: bool, ok: bool)
      requires old(Valid()) && Valid()
      reads this, Repr
    {
      && fresh(TreeFor(id.1)) && registry == old(registry) && keys == old(keys)
      && (id.1 == PublicView ==> internalTree == old(internalTree))
      && (id.1 == InternalView ==> publicTree == old(publicTree))
      && published == old(published)[TreeFor(id.1) := Snapshot(z)]
      && Persisted(keys, z, id, window, writeOk, ok, ContentsOf(id.1))
      && (old(Isolated()) ==> (Isolated() <==> ContentsOf(id.1) == z) && Guarded(keys, z, id, ok, Isolated()))
    }

    /** Applies the records of an update section to a clone and publishes it; any failing record leaves
        the store as it was. */
    method ApplyDynamicUpdate(rawOrigin: string, view: View, updates: seq<RR>, window: Window, writeOk: bool)
      returns (error: Option<StoreError>)
      requires Valid()
      modifies this
      ensures Valid() && fresh(Repr - old(Repr))
      ensures var id := (NormalizeName(rawOrigin), view);
        var outcome := ApplySection(old(ContentsOf(view)), id.0, updates);
        if !old(ZoneExists(id.0, view)) then error == Some(ZoneNotFound) && unchanged(this)
        else if outcome.error.Some? then error == outcome.error && unchanged(this)
        else PersistResult(error) && Replaced(id, outcome.zone, window, writeOk, error.None?)
    {
      hide Tree.Valid, Tree.Contents, NormalizeName, ApplySection, Persisted, Guarded;
      var origin := NormalizeName(rawOrigin);
      NormalizeIsNormal(rawOrigin);
      var found := ZoneExistsLocked(origin, view);
      if !found {
        return Some(ZoneNotFound);
      }
      var tree := CloneTree(TreeFor(view));
      error := ApplyUpdateSection(tree, origin, updates);
      if error.Some? {
        return;
      }
      var ok := Commit(tree, (origin, view), window, writeOk);
      return if ok then None else Some(PersistFailed);
    }

    /** Adds a record that was built from the caller's input, if it could be built. */
    method AddZoneRecord(rawOrigin: string, view: View, built: Option<RR>, window: Window, writeOk: bool)
      returns (error: Option<StoreError>)
      requires Valid()
      modifies this
      ensures Valid() && fresh(Repr - old(Repr))
      ensures var id := (NormalizeName(rawOrigin), view);
        if built.None? then error == Some(BadInput) && unchanged(this)
        else if !old(ZoneExists(id.0, view)) then error == Some(ZoneNotFound) && unchanged(this)
        else (
          && PersistResult(error)
          && Replaced(id, Inserted(old(ContentsOf(view)), built.value), window, writeOk, error.None?))
    {
      hide Tree.Valid, Tree.Contents, NormalizeName, Inserted, Persisted, Guarded, Isolated;
      var origin := NormalizeName(rawOrigin);
      if built.None? {
        return Some(BadInput);
      }
      var found := ZoneExistsLocked(origin, view);
      if !found {
        return Some(ZoneNotFound);
      }
      var tree := CloneView(view);
      InsertRR(tree, built.value);
      var ok := Commit(tree, (origin, view), window, writeOk);
      return if ok then None else Some(PersistFailed);
    }

    /** Deletes the records of one printed value; name and type are None when the input did not parse. */
    method DeleteZoneRecord(rawOrigin: string, view: View, name: Option<string>, qtype: Option<Word16>, value: string,
                            window: Window, writeOk: bool)
      returns (error: Option<StoreError>)
      requires Valid()
      modifies this
      ensures Valid() && fresh(Repr - old(Repr))
      ensures var id := (NormalizeName(rawOrigin), view);
        if name.None? || qtype.None? then error == Some(BadInput) && unchanged(this)
        else if qtype.value == TYPE_SOA then error == Some(SoaNotDeletable) && unchanged(this)
        else if TrimSpace(value) == "" then error == Some(BadInput) && unchanged(this)
        else if !old(ZoneExists(id.0, view)) then error == Some(ZoneNotFound) && unchanged(this)
        else if !CanRemoveMatching(old(ContentsOf(view)), name.value, qtype.value, TrimSpace(value)) then (
          error == Some(RecordNotFound) && unchanged(this))
        else (
          && PersistResult(error)
          && Replaced(id, WithoutMatching(old(ContentsOf(view)), name.value, qtype.value, TrimSpace(value)), window,
                      writeOk, error.None?))
    {
      hide Tree.Valid, Tree.Contents, NormalizeName, CanRemoveMatching, WithoutMatching, TrimSpace, Persisted, Guarded;
      var origin := NormalizeName(rawOrigin);
      if name.None? || qtype.None? {
        return Some(BadInput);
      }
      if qtype.value == TYPE_SOA {
        return Some(SoaNotDeletable);
      }
      if TrimSpace(value) == "" {
        return Some(BadInput);
      }
      var found := ZoneExistsLocked(origin, view);
      if !found {
        return Some(ZoneNotFound);
      }
      var tree := CloneTree(TreeFor(view));
      var removed := RemoveMatchingRR(tree, name.value, qtype.value, TrimSpace(value));
      if !removed {
        return Some(RecordNotFound);
      }
      var ok := Commit(tree, (origin, view), window, writeOk);
      return if ok then None else Some(PersistFailed);
    }

    /** A new tree with contents z was published for a view; the other view and isolation are kept. */
    twostate predicate Published(view: View, z: Zone)
      requires old(Valid()) && Valid()
      reads this, Repr
    {
      && fresh(TreeFor(view)) && ContentsOf(view) == z
      && (view == PublicView ==> internalTree == old(internalTree))
      && (view == InternalView ==> publicTree == old(publicTree))
      && (old(Isolated()) ==> Isolated())
    }

    /** Both views and the history are as before. */
    twostate predicate SameTrees()
      reads this
    {
      publicTree == old(publicTree) && internalTree == old(internalTree) && published == old(published)
      && Repr == old(Repr)
    }

    method CloneView(view: View) returns (clone: Tree)
      requires Valid()
      ensures clone.Valid() && fresh(clone.Repr()) && clone.Contents() == ContentsOf(view)
    {
      hide Tree.Valid, Tree.Contents;
      clone := CloneTree(TreeFor(view));
    }

    method SetKeys(newKeys: map<ZoneId, KeyPair>)
      requires Valid()
      modifies `keys
      ensures Valid() && keys == newKeys
      ensures ContentsOf(PublicView) == old(ContentsOf(PublicView))
      ensures ContentsOf(InternalView) == old(ContentsOf(InternalView))
      ensures old(Isolated()) ==> Isolated()
    {
      hide Tree.Valid, Tree.Contents;
      keys := newKeys;
    }

    method SetRegistry(ids: set<ZoneId>)
      requires Valid()
      modifies `registry
      ensures Valid() && registry == ids
      ensures ContentsOf(PublicView) == old(ContentsOf(PublicView))
      ensures ContentsOf(InternalView) == old(ContentsOf(InternalView))
      ensures old(Isolated()) ==> Isolated()
    {
      hide Tree.Valid, Tree.Contents;
      registry := ids;
    }

    /** Makes sure keys exist, signs a clone, writes it, and only then publishes it. */
    method EnableDnssec(rawOrigin: string, view: View, generated: Option<KeyPair>, window: Window, writeOk: bool)
      returns (error: Option<StoreError>)
      requires Valid()
      modifies this
      ensures Valid() && fresh(Repr - old(Repr))
      ensures registry == old(registry)
      ensures var id := (NormalizeName(rawOrigin), view);
        if !old(ZoneExists(id.0, view)) then error == Some(ZoneNotFound) && unchanged(this)
        else if id !in old(keys) && generated.None? then error == Some(KeyFailure) && unchanged(this)
        else (
          && keys == (if id in old(keys) then old(keys) else old(keys)[id := generated.value])
          && (error == Some(PersistFailed) || error == None)
          && (error.Some? ==>
                SameTrees() && (!writeOk || SigningMayFail(old(ContentsOf(view)), id.0, keys[id], window)))
          && (error.None? ==> writeOk && Published(view, ContentsOf(view))
                              && SignStep(old(ContentsOf(view)), id.0, keys[id], window, ContentsOf(view))))
    {
      hide Valid, Isolated, Tree.Valid, Tree.Contents, NormalizeName, SignStep, SigningMayFail;
      var id := (NormalizeName(rawOrigin), view);
      var found := ZoneExistsLocked(id.0, view);
      if !found {
        return Some(ZoneNotFound);
      }
      if id !in keys {
        if generated.None? {
          return Some(KeyFailure);
        }
        SetKeys(keys[id := generated.value]);
      }
      var tree := CloneView(view);
      var ok := PersistZoneFile(tree, id, window, writeOk);
      if !ok {
        return Some(PersistFailed);
      }
      Swap(view, tree);
      return None;
    }

    /** Deletes the keys, strips a clone, writes it, and only then publishes it. */
    method DisableDnssec(rawOrigin: string, view: View, deleteOk: bool, writeOk: bool)
      returns (error: Option<StoreError>)
      requires Valid()
      modifies this
      ensures Valid() && fresh(Repr - old(Repr))
      ensures registry == old(registry)
      ensures var id := (NormalizeName(rawOrigin), view);
        if !old(ZoneExists(id.0, view)) then error == Some(ZoneNotFound) && unchanged(this)
        else if !deleteOk then error == Some(KeyFailure) && unchanged(this)
        else (
          && keys == old(keys) - {id}
          && error == (if writeOk then None else Some(PersistFailed))
          && (error.Some? ==> SameTrees())
          && (error.None? ==> Published(view, Stripped(old(ContentsOf(view)), id.0))))
    {
      hide Valid, Isolated, Tree.Valid, Tree.Contents, NormalizeName, Stripped;
      var id := (NormalizeName(rawOrigin), view);
      var found := ZoneExistsLocked(id.0, view);
      if !found {
        return Some(ZoneNotFound);
      }
      if !deleteOk {
        return Some(KeyFailure);
      }
      SetKeys(keys - {id});
      var tree := CloneView(view);
      StripDnssecRecords(tree, id.0);
      if !writeOk {
        return Some(PersistFailed);
      }
      Swap(view, tree);
      return None;
    }

    /** Writes a zone file with one SOA, loads it into a clone and registers the zone; stored tells whether
        writing and loading succeed. */
    method CreateZone(rawOrigin: string, view: View, alphanumeric: char -> bool, serial: Word32, stored: bool)
      returns (error: Option<StoreError>)
      requires Valid()
      modifies this
      ensures Valid() && fresh(Repr - old(Repr))
      ensures var id := (NormalizeName(rawOrigin), view);
        if !ValidZoneName(rawOrigin, alphanumeric) then error == Some(BadInput) && unchanged(this)
        else if old(ZoneExists(id.0, view)) then error == Some(StoreError.ZoneExists) && unchanged(this)
        else if !stored then error == Some(PersistFailed) && unchanged(this)
        else (
          && error.None? && registry == old(registry) + {id} && keys == old(keys) && ZoneExists(id.0, view)
          && Published(view, Inserted(old(ContentsOf(view)), InitialSoa(id.0, serial))))
    {
      hide Valid, Isolated, Tree.Valid, Tree.Contents, NormalizeName, Inserted, ValidZoneName, InitialSoa;
      var valid := ValidateZoneName(rawOrigin, alphanumeric);
      if !valid {
        return Some(BadInput);
      }
      var id := (NormalizeName(rawOrigin), view);
      var found := ZoneExistsLocked(id.0, view);
      if found {
        return Some(StoreError.ZoneExists);
      }
      if !stored {
        return Some(PersistFailed);
      }
      var tree := CloneView(view);
      InsertRR(tree, InitialSoa(id.0, serial));
      Swap(view, tree);
      SetRegistry(registry + {id});
      return None;
    }

    /** Removes every record of the zone from a clone, publishes it and drops the registration; deleting
        the file may still fail. */
    method DeleteZone(rawOrigin: string, view: View, alphanumeric: char -> bool, deleteOk: bool)
      returns (error: Option<StoreError>)
      requires Valid()
      modifies this
      ensures Valid() && fresh(Repr - old(Repr))
      ensures var id := (NormalizeName(rawOrigin), view);
        if !ValidZoneName(rawOrigin, alphanumeric) then error == Some(BadInput) && unchanged(this)
        else if !old(ZoneExists(id.0, view)) then error == Some(ZoneNotFound) && unchanged(this)
        else (
          && error == (if deleteOk then None else Some(PersistFailed))
          && registry == old(registry) - {id} && keys == old(keys) && !ZoneExists(id.0, view)
          && Published(view, WithoutZone(old(ContentsOf(view)), id.0)))
    {
      hide Valid, Isolated, Tree.Valid, Tree.Contents, NormalizeName, WithoutZone, ValidZoneName;
      var valid := ValidateZoneName(rawOrigin, alphanumeric);
      if !valid {
        return Some(BadInput);
      }
      var id := (NormalizeName(rawOrigin), view);
      var found := ZoneExistsLocked(id.0, view);
      if !found {
        return Some(ZoneNotFound);
      }
      var tree := CloneView(view);
      StripAllZoneRecords(tree, id.0);
      ApexGone(ContentsOf(view), id.0);
      Swap(view, tree);
      SetRegistry(registry - {id});
      return if deleteOk then None else Some(PersistFailed);
    }
  }

  lemma ApexGone(z: Zone, origin: string)
    ensures RRset(WithoutZone(z, origin), origin, TYPE_SOA) == []
  {
    hide NormalizeName;
    MembershipOfNormalForms(origin, origin);
  }

  /** The record of a new zone's file. */
  function InitialSoa(origin: string, serial: Word32): RR {
    var apex := TrimSuffix(origin, ".");
    RR(origin, TYPE_SOA, CLASS_INET, 3600,
       SOA(SoaFields("ns1." + apex + ".", "admin." + apex + ".", serial, 3600, 600, 86400, 3600)))
  }

  /** The record of the new zone example. */
  lemma InitialSoaFields(serial: Word32)
    ensures InitialSoa("example.", serial)
         == RR("example.", 6, 1, 3600,
               SOA(SoaFields("ns1.example.", "admin.example.", serial, 3600, 600, 86400, 3600)))
  {
    var apex := "example";
    assert "example."[..7] == apex && "example."[7..] == "." && TrimSuffix("example.", ".") == apex;
    assert "ns1." + apex + "." == "ns1.example." && "admin." + apex + "." == "admin.example.";
  }

  /** The zone can be signed, and its origin holds an SOA record with SOA data or no key record yet. */
  ghost predicate ChangesWhenSigned(z: Zone, origin: string, keys: KeyPair) {
    && Signable(z, origin, keys)
    && (|| (RRset(z, origin, TYPE_SOA) != [] && RRset(z, origin, TYPE_SOA)[0].data.SOA?)
        || RRset(z, origin, TYPE_DNSKEY) == [])
  }

  /** Signing such a zone always changes it: the serial goes up, or the keys appear. */
  lemma SignStepChangesZone(z: Zone, origin: string, keys: KeyPair, window: Window, next: Zone)
    requires ChangesWhenSigned(z, origin, keys) && SignStep(z, origin, keys, window, next)
    ensures next != z
  {
    hide Signable, SignStep, NormalizeName;
    if RRset(z, origin, TYPE_DNSKEY) == [] {
      SignStepSetsKeys(z, origin, keys, window, next);
    } else {
      MembershipOfNormalForms(origin, origin);
      SignStepAt(z, origin, keys, window, next, origin, TYPE_SOA);
      var soas := RRset(z, origin, TYPE_SOA);
      AtMostOne(RRset(next, origin, TYPE_SOA), Mapped(FirstOf(soas)));
      assert Mapped(FirstOf(soas))[0] == Raised(soas[0]) != soas[0];
    }
  }

  /** The guard decides what readers of a published tree see. Without keys persisting never touches the tree.
      With keys, for a zone that signing changes, it touches the tree whenever it succeeds, and when it fails
      exactly if signing did not. */
  lemma PersistedIffNoKeys(keys: map<ZoneId, KeyPair>, z: Zone, id: ZoneId, window: Window, writeOk: bool, ok: bool,
                           next: Zone)
    requires Memory.Persisted(keys, z, id, window, writeOk, ok, next)
    ensures id !in keys ==> next == z
    ensures (id in keys ==> ChangesWhenSigned(z, id.0, keys[id])) && ok ==> (next == z <==> id !in keys)
    ensures id in keys && ChangesWhenSigned(z, id.0, keys[id]) ==>
      (next == z <==> !SignStep(z, id.0, keys[id], window, next))
    ensures id in keys && ChangesWhenSigned(z, id.0, keys[id]) && next == z ==>
      SigningMayFail(z, id.0, keys[id], window)
  {
    hide SignStep, ChangesWhenSigned, SigningMayFail;
    if id in keys && ChangesWhenSigned(z, id.0, keys[id]) && SignStep(z, id.0, keys[id], window, next) {
      SignStepChangesZone(z, id.0, keys[id], window, next);
    }
  }

  lemma GuardDecides(keys: map<ZoneId, KeyPair>, z: Zone, id: ZoneId, window: Window, writeOk: bool, ok: bool,
                     next: Zone,
                     isolated: bool)
    requires Memory.Persisted(keys, z, id, window, writeOk, ok, next) && (isolated <==> next == z)
    ensures Memory.Guarded(keys, z, id, ok, isolated)
  {
    hide Memory.Persisted, ChangesWhenSigned;
    PersistedIffNoKeys(keys, z, id, window, writeOk, ok, next);
  }
}
