/** The contents of a zone tree as a value, the effect of every tree operation on it, the record
    update rules of section 3.4.2 of RFC 2136 as the store implements them, and the proof that these
    operations refine a flat table from name and type to a record list. */
module ZoneData {
  import opened Wrappers
  import opened Names
  import opened Records
  import opened Filters

  type TypeSets = map<Word16, seq<RR>>
  type Zone = map<string, TypeSets>

  datatype StoreError =
    | NotInZone | UpdateRefused | NxRrset | YxRrset | NxDomain | YxDomain
    | UnsupportedClass(rclass: Word16)
    | ZoneNotFound | ZoneExists | RecordNotFound | SoaNotDeletable
    | PersistFailed | KeyFailure | BadInput

  /** The records of one name and type; none when the pair is absent. */
  function RRset(z: Zone, name: string, qtype: Word16): seq<RR> {
    if name in z && qtype in z[name] then z[name][qtype] else []
  }

  // ---------------------------------------------------------------- operations on contents

  function Inserted(z: Zone, rr: RR): Zone {
    var name := NormalizeName(rr.name);
    var byType := if name in z then z[name] else map[];
    z[name := byType[rr.rrtype := RRset(z, name, rr.rrtype) + [rr]]]
  }

  function InsertedAll(z: Zone, rrs: seq<RR>): Zone
    decreases |rrs|
  {
    if |rrs| == 0 then z else InsertedAll(Inserted(z, rrs[0]), rrs[1..])
  }

  /** The records that a removal by value leaves. */
  function Kept(rrs: seq<RR>, value: string): seq<RR> {
    Filter(rrs, (rr: RR) => DataValue(rr.data) != TrimSpace(value))
  }

  /** z with the given type sets at name, or without the name when there are none. */
  function Restored(z: Zone, name: string, byType: TypeSets): Zone {
    if byType == map[] then z - {name} else z[name := byType]
  }

  predicate CanRemoveMatching(z: Zone, name: string, qtype: Word16, value: string) {
    var rrs := RRset(z, NormalizeName(name), qtype);
    Kept(rrs, value) != rrs
  }

  function WithoutMatching(z: Zone, name: string, qtype: Word16, value: string): Zone {
    var n := NormalizeName(name);
    if !CanRemoveMatching(z, name, qtype, value) then z
    else
      var kept := Kept(RRset(z, n, qtype), value);
      Restored(z, n, if kept == [] then z[n] - {qtype} else z[n][qtype := kept])
  }

  predicate CanRemoveRRset(z: Zone, name: string, qtype: Word16) {
    var n := NormalizeName(name);
    n in z && (qtype == TYPE_ANY || qtype in z[n])
  }

  function WithoutRRset(z: Zone, name: string, qtype: Word16): Zone {
    var n := NormalizeName(name);
    if !CanRemoveRRset(z, name, qtype) then z
    else if qtype == TYPE_ANY then z - {n}
    else Restored(z, n, z[n] - {qtype})
  }

  function WithoutName(z: Zone, name: string): Zone {
    z - {NormalizeName(name)}
  }

  function WithoutZone(z: Zone, origin: string): Zone {
    map n | n in z && !IsNameInZone(n, origin) :: z[n]
  }

  datatype Outcome = Outcome(zone: Zone, error: Option<StoreError>)

  /** One record of an update section. */
  function ApplyUpdate(z: Zone, origin: string, rr: RR): Outcome {
    var name := NormalizeName(rr.name);
    if !IsNameInZone(name, origin) then Outcome(z, Some(NotInZone))
    else if rr.rrtype == TYPE_SOA then Outcome(z, Some(UpdateRefused))
    else if rr.rclass == CLASS_INET then Outcome(Inserted(z, rr), None)
    else if rr.rclass == CLASS_NONE then
      if CanRemoveMatching(z, name, rr.rrtype, DataValue(rr.data))
      then Outcome(WithoutMatching(z, name, rr.rrtype, DataValue(rr.data)), None)
      else Outcome(z, Some(NxRrset))
    else if rr.rclass == CLASS_ANY then
      if rr.rrtype == TYPE_ANY then
        if name in z then Outcome(WithoutName(z, name), None) else Outcome(z, Some(NxDomain))
      else if CanRemoveRRset(z, name, rr.rrtype) then Outcome(WithoutRRset(z, name, rr.rrtype), None)
      else Outcome(z, Some(NxRrset))
    else Outcome(z, Some(UnsupportedClass(rr.rclass)))
  }

  /** A whole update section, stopping at the first record that fails. */
  function ApplySection(z: Zone, origin: string, updates: seq<RR>): Outcome
    decreases |updates|
  {
    if |updates| == 0 then Outcome(z, None)
    else
      var first := ApplyUpdate(z, origin, updates[0]);
      if first.error.Some? then first else ApplySection(first.zone, origin, updates[1..])
  }

  // ---------------------------------------------------------------- effect on one record list

  lemma KeptIsSmaller(rrs: seq<RR>, value: string)
    ensures Kept(rrs, value) == rrs <==> forall rr <- rrs :: DataValue(rr.data) != TrimSpace(value)
  {
    FilterAllIff(rrs, (rr: RR) => DataValue(rr.data) != TrimSpace(value));
  }

  /** What a removal of type sets leaves: the name itself goes when nothing else is stored there. */
  lemma RRsetRestored(z: Zone, name: string, byType: TypeSets, n: string, t: Word16)
    ensures RRset(Restored(z, name, byType), n, t)
         == if n == name then (if t in byType then byType[t] else []) else RRset(z, n, t)
  {
  }

  /** The effect of an accepted update record on the record list of any name and type. */
  function Effect(present: seq<RR>, rr: RR, n: string, t: Word16): seq<RR> {
    if n != NormalizeName(rr.name) then present
    else if rr.rclass == CLASS_ANY && rr.rrtype == TYPE_ANY then []
    else if t != rr.rrtype then present
    else if rr.rclass == CLASS_INET then present + [rr]
    else if rr.rclass == CLASS_NONE then Kept(present, DataValue(rr.data))
    else []
  }

  lemma RRsetAfterUpdate(z: Zone, origin: string, rr: RR, n: string, t: Word16)
    requires ApplyUpdate(z, origin, rr).error.None?
    ensures RRset(ApplyUpdate(z, origin, rr).zone, n, t) == Effect(RRset(z, n, t), rr, n, t)
  {
    hide NormalizeName, IsNameInZone, DataValue, TrimSpace;
    var name := NormalizeName(rr.name);
    NormalizeIsNormal(rr.name);
    if rr.rclass == CLASS_NONE {
      var kept := Kept(RRset(z, name, rr.rrtype), DataValue(rr.data));
      RRsetRestored(z, name, if kept == [] then z[name] - {rr.rrtype} else z[name][rr.rrtype := kept], n, t);
    } else if rr.rclass == CLASS_ANY && rr.rrtype != TYPE_ANY {
      RRsetRestored(z, name, z[name] - {rr.rrtype}, n, t);
    }
  }

  /** The effect of an accepted section: the effects of its records, in order. */
  function SectionEffect(present: seq<RR>, updates: seq<RR>, n: string, t: Word16): seq<RR>
    decreases |updates|
  {
    if |updates| == 0 then present
    else SectionEffect(Effect(present, updates[0], n, t), updates[1..], n, t)
  }

  lemma {:induction false} RRsetAfterSection(z: Zone, origin: string, updates: seq<RR>, n: string, t: Word16)
    requires ApplySection(z, origin, updates).error.None?
    ensures RRset(ApplySection(z, origin, updates).zone, n, t) == SectionEffect(RRset(z, n, t), updates, n, t)
    decreases |updates|
  {
    if |updates| > 0 {
      RRsetAfterUpdate(z, origin, updates[0], n, t);
      RRsetAfterSection(ApplyUpdate(z, origin, updates[0]).zone, origin, updates[1..], n, t);
    }
  }

  // ---------------------------------------------------------------- invariants of contents

  predicate NonEmptySets(byType: TypeSets) {
    byType != map[] && forall t <- byType :: byType[t] != []
  }

  /** No name without types and no type without records. */
  predicate NoEmpty(z: Zone) {
    forall n <- z :: NonEmptySets(z[n])
  }

  predicate FiledUnder(rrs: seq<RR>, n: string, t: Word16) {
    forall i :: 0 <= i < |rrs| ==> NormalizeName(rrs[i].name) == n && rrs[i].rrtype == t
  }

  /** Names are stored in normal form and every record sits under its own name and type. */
  predicate Keyed(z: Zone) {
    forall n <- z :: Normal(n) && forall t <- z[n] :: FiledUnder(z[n][t], n, t)
  }

  predicate Sound(z: Zone) {
    NoEmpty(z) && Keyed(z)
  }

  lemma EmptyIsSound()
    ensures Sound(map[])
  {
  }

  lemma SoundFiles(z: Zone, n: string)
    requires Sound(z) && n in z
    ensures Normal(n) && NonEmptySets(z[n]) && forall t <- z[n] :: FiledUnder(z[n][t], n, t)
  {
  }

  lemma InsertKeepsInvariants(z: Zone, rr: RR)
    requires Sound(z)
    ensures Sound(Inserted(z, rr))
  {
    hide NormalizeName, Normal;
    var name := NormalizeName(rr.name);
    NormalizeIsNormal(rr.name);
    assert rr.rrtype in Inserted(z, rr)[name];
    assert name in z ==> NonEmptySets(z[name]);
    assert NonEmptySets(Inserted(z, rr)[name]);
  }

  lemma RestoreKeepsInvariants(z: Zone, name: string, byType: TypeSets)
    requires NoEmpty(z) && Keyed(z) && Normal(name)
    requires forall t <- byType :: byType[t] != [] && FiledUnder(byType[t], name, t)
    ensures NoEmpty(Restored(z, name, byType)) && Keyed(Restored(z, name, byType))
  {
    hide Normal;
  }

  lemma RemovalKeepsInvariants(z: Zone, name: string, qtype: Word16, kept: seq<RR>)
    requires Sound(z) && name in z && qtype in z[name]
    requires forall rr <- kept :: rr in z[name][qtype]
    ensures Sound(Restored(z, name, if kept == [] then z[name] - {qtype} else z[name][qtype := kept]))
  {
    hide Normal, NormalizeName, DataValue;
    assert NonEmptySets(z[name]);
    assert FiledUnder(z[name][qtype], name, qtype);
    assert forall i :: 0 <= i < |kept| ==> kept[i] in kept;
    RestoreKeepsInvariants(z, name, if kept == [] then z[name] - {qtype} else z[name][qtype := kept]);
  }

  lemma DropKeepsInvariants(z: Zone, name: string)
    requires Sound(z)
    ensures Sound(z - {name})
  {
    hide NonEmptySets, FiledUnder, Normal;
  }

  lemma UpdateKeepsInvariants(z: Zone, origin: string, rr: RR)
    requires Sound(z)
    ensures Sound(ApplyUpdate(z, origin, rr).zone)
  {
    hide Sound, NormalizeName, IsNameInZone, DataValue, Restored;
    var name := NormalizeName(rr.name);
    NormalizeIsNormal(rr.name);
    if ApplyUpdate(z, origin, rr).error.None? {
      if rr.rclass == CLASS_INET {
        InsertKeepsInvariants(z, rr);
      } else if rr.rclass == CLASS_NONE {
        RemovalKeepsInvariants(z, name, rr.rrtype, Kept(RRset(z, name, rr.rrtype), DataValue(rr.data)));
      } else if rr.rrtype != TYPE_ANY {
        RemovalKeepsInvariants(z, name, rr.rrtype, []);
      } else {
        DropKeepsInvariants(z, name);
      }
    }
  }

  lemma {:induction false} SectionKeepsInvariants(z: Zone, origin: string, updates: seq<RR>)
    requires Sound(z)
    ensures Sound(ApplySection(z, origin, updates).zone)
    decreases |updates|
  {
    if |updates| > 0 {
      UpdateKeepsInvariants(z, origin, updates[0]);
      SectionKeepsInvariants(ApplyUpdate(z, origin, updates[0]).zone, origin, updates[1..]);
    }
  }

  /** A name exists exactly when some record is stored at it. */
  lemma NameExistsIffRecord(z: Zone, name: string)
    requires NoEmpty(z)
    ensures name in z <==> exists t: Word16 :: RRset(z, name, t) != []
  {
    if name in z {
      assert NonEmptySets(z[name]);
      var t :| t in z[name];
      assert RRset(z, name, t) != [];
    }
  }

  // ---------------------------------------------------------------- refinement to a flat table

  type Key = (string, Word16)
  type Table = map<Key, seq<RR>>

  function Flat(z: Zone): Table {
    map n, t | n in z && t in z[n] :: (n, t) := z[n][t]
  }

  /** The update rules on the table: add one record; delete the records of one value, of one type,
      or of one name. */
  function TableUpdate(m: Table, origin: string, rr: RR): (Table, Option<StoreError>) {
    var name := NormalizeName(rr.name);
    var key := (name, rr.rrtype);
    var present := if key in m then m[key] else [];
    var named := set k <- m | k.0 == name;
    if !IsNameInZone(name, origin) then (m, Some(NotInZone))
    else if rr.rrtype == TYPE_SOA then (m, Some(UpdateRefused))
    else if rr.rclass == CLASS_INET then (m[key := present + [rr]], None)
    else if rr.rclass == CLASS_NONE then
      var kept := Filter(present, (x: RR) => DataValue(x.data) != TrimSpace(DataValue(rr.data)));
      if kept == present then (m, Some(NxRrset))
      else (if kept == [] then m - {key} else m[key := kept], None)
    else if rr.rclass == CLASS_ANY && rr.rrtype == TYPE_ANY then
      if named == {} then (m, Some(NxDomain)) else (m - named, None)
    else if rr.rclass == CLASS_ANY then
      if key in m then (m - {key}, None) else (m, Some(NxRrset))
    else (m, Some(UnsupportedClass(rr.rclass)))
  }

  function TableSection(m: Table, origin: string, updates: seq<RR>): (Table, Option<StoreError>)
    decreases |updates|
  {
    if |updates| == 0 then (m, None)
    else
      var (m1, error) := TableUpdate(m, origin, updates[0]);
      if error.Some? then (m1, error) else TableSection(m1, origin, updates[1..])
  }

  lemma FlatHasName(z: Zone, name: string)
    requires NoEmpty(z)
    ensures name in z <==> exists k <- Flat(z) :: k.0 == name
  {
    if name in z {
      assert NonEmptySets(z[name]);
      var t :| t in z[name];
      assert (name, t) in Flat(z);
    }
  }

  lemma FlatIsRRset(z: Zone, n: string, t: Word16)
    requires NoEmpty(z)
    ensures (n, t) in Flat(z) <==> RRset(z, n, t) != []
    ensures (n, t) in Flat(z) ==> Flat(z)[(n, t)] == RRset(z, n, t)
  {
    if n in z { assert NonEmptySets(z[n]); }
  }

  function TableGet(m: Table, key: Key): seq<RR> {
    if key in m then m[key] else []
  }

  predicate TableNoEmpty(m: Table) {
    forall k <- m :: m[k] != []
  }

  lemma TableAfterUpdate(m: Table, origin: string, rr: RR, n: string, t: Word16)
    requires TableNoEmpty(m) && TableUpdate(m, origin, rr).1.None?
    ensures var m1 := TableUpdate(m, origin, rr).0;
      TableNoEmpty(m1) && TableGet(m1, (n, t)) == Effect(TableGet(m, (n, t)), rr, n, t)
  {
    hide NormalizeName, IsNameInZone, DataValue, TrimSpace;
  }

  lemma SameVerdict(z: Zone, origin: string, rr: RR)
    requires NoEmpty(z)
    ensures TableUpdate(Flat(z), origin, rr).1 == ApplyUpdate(z, origin, rr).error
  {
    hide NormalizeName, IsNameInZone, DataValue, TrimSpace;
    var name := NormalizeName(rr.name);
    NormalizeIsNormal(rr.name);
    FlatIsRRset(z, name, rr.rrtype);
    if rr.rclass == CLASS_ANY && rr.rrtype == TYPE_ANY {
      FlatHasName(z, name);
      var named := set k <- Flat(z) | k.0 == name;
      if k :| k in Flat(z) && k.0 == name { assert k in named; }
      assert named == {} <==> name !in z;
    } else if rr.rclass == CLASS_NONE {
      assert TableGet(Flat(z), (name, rr.rrtype)) == RRset(z, name, rr.rrtype);
    }
  }

  lemma AcceptedSameTable(z: Zone, origin: string, rr: RR, zone: Zone, m: Table)
    requires NoEmpty(z) && NoEmpty(zone)
    requires ApplyUpdate(z, origin, rr) == Outcome(zone, None)
    requires TableUpdate(Flat(z), origin, rr) == (m, None)
    ensures Flat(zone) == m
  {
    FlatNoEmpty(z);
    FlatNoEmpty(zone);
    TableAfterUpdate(Flat(z), origin, rr, rr.name, rr.rrtype);
    forall n: string, t: Word16 ensures TableGet(Flat(zone), (n, t)) == TableGet(m, (n, t)) {
      RRsetAfterUpdate(z, origin, rr, n, t);
      TableAfterUpdate(Flat(z), origin, rr, n, t);
    }
    SameTable(Flat(zone), m);
  }

  lemma RejectedUnchanged(z: Zone, m: Table, origin: string, rr: RR)
    ensures ApplyUpdate(z, origin, rr).error.Some? ==> ApplyUpdate(z, origin, rr).zone == z
    ensures TableUpdate(m, origin, rr).1.Some? ==> TableUpdate(m, origin, rr).0 == m
  {
    hide NormalizeName, IsNameInZone, DataValue, TrimSpace;
  }

  /** Every update record has the same verdict and the same effect on the tree as on the table. */
  lemma UpdateRefinesTable(z: Zone, origin: string, rr: RR)
    requires Sound(z)
    ensures var o := ApplyUpdate(z, origin, rr);
      TableUpdate(Flat(z), origin, rr) == (Flat(o.zone), o.error)
  {
    var o, p := ApplyUpdate(z, origin, rr), TableUpdate(Flat(z), origin, rr);
    SameVerdict(z, origin, rr);
    RejectedUnchanged(z, Flat(z), origin, rr);
    UpdateKeepsInvariants(z, origin, rr);
    if o.error.None? {
      AcceptedSameTable(z, origin, rr, o.zone, p.0);
    }
  }

  lemma FlatNoEmpty(z: Zone)
    requires NoEmpty(z)
    ensures TableNoEmpty(Flat(z))
    ensures forall n: string, t: Word16 :: TableGet(Flat(z), (n, t)) == RRset(z, n, t)
  {
    forall n: string, t: Word16 ensures TableGet(Flat(z), (n, t)) == RRset(z, n, t) {
      FlatIsRRset(z, n, t);
    }
    forall k | k in Flat(z) ensures Flat(z)[k] != [] {
      assert NonEmptySets(z[k.0]);
    }
  }

  lemma SameTable(a: Table, b: Table)
    requires TableNoEmpty(a) && TableNoEmpty(b)
    requires forall n: string, t: Word16 :: TableGet(a, (n, t)) == TableGet(b, (n, t))
    ensures a == b
  {
    forall k: Key ensures (k in a <==> k in b) && (k in b ==> a[k] == b[k]) {
      assert TableGet(a, (k.0, k.1)) == TableGet(b, (k.0, k.1));
    }
  }

  lemma {:induction false} SectionRefinesTable(z: Zone, origin: string, updates: seq<RR>)
    requires Sound(z)
    ensures var o := ApplySection(z, origin, updates);
      TableSection(Flat(z), origin, updates) == (Flat(o.zone), o.error)
    decreases |updates|
  {
    if |updates| > 0 {
      UpdateRefinesTable(z, origin, updates[0]);
      UpdateKeepsInvariants(z, origin, updates[0]);
      var first := ApplyUpdate(z, origin, updates[0]);
      if first.error.None? {
        SectionRefinesTable(first.zone, origin, updates[1..]);
      }
    }
  }

  // ---------------------------------------------------------------- what a section cannot touch

  lemma UpdateLeavesOtherNames(z: Zone, origin: string, rr: RR, name: string)
    requires !IsNameInZone(name, origin)
    ensures var o := ApplyUpdate(z, origin, rr);
      (name in o.zone <==> name in z) && (name in z ==> o.zone[name] == z[name])
  {
    NormalizeIsNormal(rr.name);
    hide NormalizeName, IsNameInZone, DataValue, TrimSpace, CanRemoveMatching, CanRemoveRRset;
  }

  /** Names outside the zone keep their records through any section, accepted or not. */
  lemma {:induction false} SectionLeavesOtherNames(z: Zone, origin: string, updates: seq<RR>, name: string)
    requires !IsNameInZone(name, origin)
    ensures var o := ApplySection(z, origin, updates);
      (name in o.zone <==> name in z) && (name in z ==> o.zone[name] == z[name])
    decreases |updates|
  {
    if |updates| > 0 {
      UpdateLeavesOtherNames(z, origin, updates[0], name);
      SectionLeavesOtherNames(ApplyUpdate(z, origin, updates[0]).zone, origin, updates[1..], name);
    }
  }

  predicate DeletesName(rr: RR, name: string) {
    rr.rclass == CLASS_ANY && rr.rrtype == TYPE_ANY && NormalizeName(rr.name) == name
  }

  /** An accepted section leaves the SOA set of a name exactly as it was, unless it deletes the whole
      name; then the SOA set is gone. */
  lemma {:induction false} SectionAndSoa(z: Zone, origin: string, updates: seq<RR>, name: string)
    requires ApplySection(z, origin, updates).error.None?
    ensures RRset(ApplySection(z, origin, updates).zone, name, TYPE_SOA)
         == if exists i :: 0 <= i < |updates| && DeletesName(updates[i], name) then []
            else RRset(z, name, TYPE_SOA)
    decreases |updates|
  {
    if |updates| > 0 {
      RRsetAfterUpdate(z, origin, updates[0], name, TYPE_SOA);
      var rest := updates[1..];
      SectionAndSoa(ApplyUpdate(z, origin, updates[0]).zone, origin, rest, name);
      assert forall i :: 0 <= i < |rest| ==> rest[i] == updates[i + 1];
      if i :| 0 <= i < |updates| && DeletesName(updates[i], name) {
        assert i == 0 || DeletesName(rest[i - 1], name);
      }
    }
  }

  /** Deleting a stored record by its own value succeeds exactly when some record there prints to the
      trimmed text; a value with blanks around it can therefore never be deleted this way. */
  lemma DeleteOwnValue(z: Zone, origin: string, rr: RR)
    requires IsNameInZone(rr.name, origin) && rr.rrtype != TYPE_SOA && rr.rclass == CLASS_NONE
    ensures ApplyUpdate(z, origin, rr).error.None?
       <==> exists x <- RRset(z, NormalizeName(rr.name), rr.rrtype) ::
              DataValue(x.data) == TrimSpace(DataValue(rr.data))
  {
    NormalizeIsNormal(rr.name);
    MembershipOfNormalForms(rr.name, origin);
    KeptIsSmaller(RRset(z, NormalizeName(rr.name), rr.rrtype), DataValue(rr.data));
  }

  // ---------------------------------------------------------------- records of a zone as a list

  /** The records of one name and type in a list, in order. */
  function At(rrs: seq<RR>, n: string, t: Word16): seq<RR> {
    Filter(rrs, (rr: RR) => NormalizeName(rr.name) == n && rr.rrtype == t)
  }

  /** rrs lists the records of the zone: every name and type in the zone contributes exactly its record
      list, in order. */
  ghost predicate Collected(z: Zone, origin: string, rrs: seq<RR>) {
    forall n: string, t: Word16 :: At(rrs, n, t) == if IsNameInZone(n, origin) then RRset(z, n, t) else []
  }

  lemma NothingCollected()
    ensures forall n: string, t: Word16 :: At([], n, t) == []
  {
  }

  lemma {:induction false} AtOwnBlock(block: seq<RR>, name: string, qtype: Word16, n: string, t: Word16)
    requires FiledUnder(block, name, qtype)
    ensures At(block, n, t) == if n == name && t == qtype then block else []
  {
    if |block| > 0 {
      assert block == [block[0]] + block[1..];
      AtOwnBlock(block[1..], name, qtype, n, t);
    }
  }

  lemma AtOfConcat(a: seq<RR>, b: seq<RR>, n: string, t: Word16)
    ensures At(a + b, n, t) == At(a, n, t) + At(b, n, t)
  {
    FilterOfConcat(a, b, (rr: RR) => NormalizeName(rr.name) == n && rr.rrtype == t);
  }
}
