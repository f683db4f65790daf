/** The update rules of section 3.4 of RFC 2136, stated on the flat table, and exactly when the store follows them. */
module UpdateStandard {
  import opened Wrappers
  import opened Names
  import opened LabelSuffixes
  import opened Records
  import opened Filters
  import opened ZoneData

  /** Types that no zone record has (section 3.1 of RFC 6895); ANY is the only one an update may name. */
  predicate IsMetaType(t: Word16) {
    t == 41 || 128 <= t <= 255
  }

  /** Data of length zero, as the library unpacks it. */
  predicate NoData(data: RData) {
    match data
    case A(addr) => addr.NoAddress?
    case AAAA(addr) => addr.NoAddress?
    case NS(host) => host == ""
    case CNAME(target) => target == ""
    case MX(preference, exchange) => preference == 0 && exchange == ""
    case TXT(chunks) => chunks == []
    case SOA(f) => f == SoaFields("", "", 0, 0, 0, 0, 0)
    case NSEC(next, types) => next == "" && types == []
    case RRSIG(f) => f == SignatureFields(0, 0, 0, 0, 0, 0, 0, "", "")
    case DNSKEY(flags, protocol, algorithm, publicKey) =>
      flags == 0 && protocol == 0 && algorithm == 0 && publicKey == ""
    case DS(keyTag, algorithm, digestType, digest) =>
      keyTag == 0 && algorithm == 0 && digestType == 0 && digest == ""
    case OPT => true
    case Other(text) => text == ""
  }

  /** The checks made on an update record before anything changes (section 3.4.1): it is in the zone by its labels,
      and its type, TTL and data suit its class. */
  predicate Scanned(origin: string, rr: RR) {
    InZone(rr.name, origin) &&
    (|| (rr.rclass == CLASS_INET && !IsMetaType(rr.rrtype))
     || (rr.rclass == CLASS_ANY && rr.ttl == 0 && NoData(rr.data)
         && (rr.rrtype == TYPE_ANY || !IsMetaType(rr.rrtype)))
     || (rr.rclass == CLASS_NONE && rr.ttl == 0 && !IsMetaType(rr.rrtype)))
  }

  /** Equal record data; names in it are compared without regard to case. */
  predicate SameData(a: RR, b: RR) {
    FoldNames(a.data) == FoldNames(b.data)
  }

  /** The record takes the place of this one: an alias or an SOA of its like, any other of the same data. */
  predicate Replaces(rr: RR, x: RR) {
    rr.rrtype == TYPE_CNAME || rr.rrtype == TYPE_SOA || SameData(x, rr)
  }

  function Placed(present: seq<RR>, rr: RR): (r: seq<RR>)
    ensures |r| == |present| + (if exists x <- present :: Replaces(rr, x) then 0 else 1)
  {
    if |present| == 0 then [rr]
    else if Replaces(rr, present[0]) then assert present[0] in present; [rr] + present[1..]
    else [present[0]] + Placed(present[1..], rr)
  }

  /** Serial number arithmetic (section 3.2 of RFC 1982). */
  predicate SerialAfter(a: Word32, b: Word32) {
    (a > b && a - b < 0x8000_0000) || (a < b && b - a > 0x8000_0000)
  }

  /** An SOA is taken only where there is one, and not if its serial is behind. */
  predicate TakesSoa(present: seq<RR>, rr: RR) {
    && present != [] && rr.data.SOA? && present[0].data.SOA?
    && !SerialAfter(present[0].data.soa.serial, rr.data.soa.serial)
  }

  function NamedKeys(m: Table, name: string): set<Key> {
    set k <- m | k.0 == name
  }

  function Put(m: Table, key: Key, rrs: seq<RR>): Table {
    if rrs == [] then m - {key} else m[key := rrs]
  }

  /** The effect of a scanned update record (sections 3.4.2.2 to 3.4.2.4): aliases stand alone, equal records are
      replaced, deletions of nothing are ignored, and the SOA and the last NS of the zone stay. */
  function StandardUpdate(m: Table, origin: string, rr: RR): Table {
    var name := NormalizeName(rr.name);
    var key := (name, rr.rrtype);
    var present := TableGet(m, key);
    var apex := name == NormalizeName(origin);
    if rr.rclass == CLASS_INET then
      if rr.rrtype == TYPE_CNAME && NamedKeys(m, name) - {key} != {} then m
      else if rr.rrtype != TYPE_CNAME && (name, TYPE_CNAME) in m then m
      else if rr.rrtype == TYPE_SOA && !TakesSoa(present, rr) then m
      else m[key := Placed(present, rr)]
    else if rr.rclass == CLASS_ANY && rr.rrtype == TYPE_ANY then
      m - (NamedKeys(m, name) - if apex then {(name, TYPE_SOA), (name, TYPE_NS)} else {})
    else if rr.rclass == CLASS_ANY then
      if apex && (rr.rrtype == TYPE_SOA || rr.rrtype == TYPE_NS) then m else m - {key}
    else if apex && (rr.rrtype == TYPE_SOA || (rr.rrtype == TYPE_NS && IsOnly(present, rr))) then m
    else Put(m, key, Filter(present, (x: RR) => !SameData(x, rr)))
  }

  predicate IsOnly(present: seq<RR>, rr: RR) {
    |present| == 1 && SameData(present[0], rr)
  }

  // ---------------------------------------------------------------- when the store agrees

  /** The record prints like the value to delete. */
  predicate PrintsLike(x: RR, rr: RR) {
    DataValue(x.data) == TrimSpace(DataValue(rr.data))
  }

  /** The store turns the record down. */
  predicate TurnsDown(m: Table, origin: string, rr: RR) {
    var name := NormalizeName(rr.name);
    || !IsNameInZone(name, origin) || rr.rrtype == TYPE_SOA
    || (rr.rclass != CLASS_INET && !DeletesSomething(m, rr))
  }

  predicate DeletesSomething(m: Table, rr: RR) {
    var name := NormalizeName(rr.name);
    var key := (name, rr.rrtype);
    if rr.rclass == CLASS_NONE then exists x <- TableGet(m, key) :: PrintsLike(x, rr)
    else rr.rclass == CLASS_ANY && if rr.rrtype == TYPE_ANY then NamedKeys(m, name) != {} else key in m
  }

  /** What the standard would not do: put data beside an alias or the same data twice, delete the SOA or the last NS
      of the zone, or delete by printed form a record whose data differs. */
  predicate Harmless(m: Table, origin: string, rr: RR) {
    var name := NormalizeName(rr.name);
    var key := (name, rr.rrtype);
    var present := TableGet(m, key);
    var apex := name == NormalizeName(origin);
    if rr.rclass == CLASS_INET then
      && (name, TYPE_CNAME) !in m && (rr.rrtype == TYPE_CNAME ==> NamedKeys(m, name) == {})
      && forall x <- present :: !SameData(x, rr)
    else if rr.rclass == CLASS_ANY && rr.rrtype == TYPE_ANY then
      apex ==> (name, TYPE_SOA) !in m && (name, TYPE_NS) !in m
    else if rr.rclass == CLASS_ANY then !(apex && rr.rrtype == TYPE_NS)
    else
      && !(apex && rr.rrtype == TYPE_NS && |present| == 1)
      && forall x <- present :: PrintsLike(x, rr) <==> SameData(x, rr)
  }

  predicate Agrees(m: Table, origin: string, rr: RR) {
    if Scanned(origin, rr) then !TurnsDown(m, origin, rr) && Harmless(m, origin, rr) else TurnsDown(m, origin, rr)
  }

  lemma TurnsDownIff(m: Table, origin: string, rr: RR)
    ensures TableUpdate(m, origin, rr).1.Some? <==> TurnsDown(m, origin, rr)
  {
    hide NormalizeName, IsNameInZone, InZone, DataValue, TrimSpace;
    var key := (NormalizeName(rr.name), rr.rrtype);
    FilterAllIff(TableGet(m, key), (x: RR) => DataValue(x.data) != TrimSpace(DataValue(rr.data)));
  }

  lemma AdditionFollowsIff(m: Table, origin: string, rr: RR)
    requires TableNoEmpty(m) && Scanned(origin, rr) && rr.rclass == CLASS_INET && !TurnsDown(m, origin, rr)
    ensures TableUpdate(m, origin, rr).0 == StandardUpdate(m, origin, rr) <==> Harmless(m, origin, rr)
  {
    hide NormalizeName, IsNameInZone, InZone, SameData;
    var name := NormalizeName(rr.name);
    var key := (name, rr.rrtype);
    var present := TableGet(m, key);
    var m1 := TableUpdate(m, origin, rr).0;
    assert m1 == m[key := present + [rr]] && |TableGet(m1, key)| == |present| + 1;
    if forall x <- present :: !Replaces(rr, x) {
      PlacedLast(present, rr);
    }
    if rr.rrtype == TYPE_CNAME && present != [] {
      assert Replaces(rr, present[0]) && key in m;
    }
  }

  lemma {:induction false} PlacedLast(present: seq<RR>, rr: RR)
    requires forall x <- present :: !Replaces(rr, x)
    ensures Placed(present, rr) == present + [rr]
  {
    if |present| > 0 {
      PlacedLast(present[1..], rr);
    }
  }

  lemma DeletionFollowsIff(m: Table, origin: string, rr: RR)
    requires TableNoEmpty(m) && Scanned(origin, rr) && rr.rclass == CLASS_ANY && !TurnsDown(m, origin, rr)
    ensures TableUpdate(m, origin, rr).0 == StandardUpdate(m, origin, rr) <==> Harmless(m, origin, rr)
  {
    hide NormalizeName, IsNameInZone, InZone;
    var name := NormalizeName(rr.name);
    var key := (name, rr.rrtype);
    if rr.rrtype == TYPE_ANY && name == NormalizeName(origin) {
      var m1 := StandardUpdate(m, origin, rr);
      assert TableUpdate(m, origin, rr).0 == m - NamedKeys(m, name);
      forall k | k in [(name, TYPE_SOA), (name, TYPE_NS)] ensures k in m1 <==> k in m {
      }
    }
  }

  lemma RemovalFollowsIff(m: Table, origin: string, rr: RR)
    requires TableNoEmpty(m) && Scanned(origin, rr) && rr.rclass == CLASS_NONE && !TurnsDown(m, origin, rr)
    ensures TableUpdate(m, origin, rr).0 == StandardUpdate(m, origin, rr) <==> Harmless(m, origin, rr)
  {
    hide NormalizeName, IsNameInZone, InZone, DataValue, TrimSpace, SameData, PrintsLike;
    var name := NormalizeName(rr.name);
    var key := (name, rr.rrtype);
    var present := TableGet(m, key);
    var stored := StoreKept(m, origin, rr);
    var kept := Filter(present, (x: RR) => !SameData(x, rr));
    FiltersEqualIff(present, (x: RR) => !PrintsLike(x, rr), (x: RR) => !SameData(x, rr));
    PutIsInjective(m, key, stored, kept);
    PutIsInjective(m, key, stored, present);
    assert Put(m, key, present) == m;
    if |present| == 1 {
      assert present == [present[0]];
    }
  }

  lemma PutIsInjective(m: Table, key: Key, a: seq<RR>, b: seq<RR>)
    ensures Put(m, key, a) == Put(m, key, b) <==> a == b
  {
    assert TableGet(Put(m, key, a), key) == a && TableGet(Put(m, key, b), key) == b;
  }

  /** What the store leaves of a record list it removes from. */
  lemma StoreKept(m: Table, origin: string, rr: RR) returns (kept: seq<RR>)
    requires Scanned(origin, rr) && rr.rclass == CLASS_NONE && !TurnsDown(m, origin, rr)
    ensures var key := (NormalizeName(rr.name), rr.rrtype);
      && kept == Filter(TableGet(m, key), (x: RR) => !PrintsLike(x, rr)) && kept != TableGet(m, key)
      && TableUpdate(m, origin, rr).0 == Put(m, key, kept)
  {
    hide NormalizeName, IsNameInZone, InZone, DataValue, TrimSpace;
    var key := (NormalizeName(rr.name), rr.rrtype);
    var present := TableGet(m, key);
    kept := Filter(present, (x: RR) => !PrintsLike(x, rr));
    FilterAllIff(present, (x: RR) => !PrintsLike(x, rr));
    FilterSame(present, (x: RR) => !PrintsLike(x, rr),
                 (x: RR) => DataValue(x.data) != TrimSpace(DataValue(rr.data)));
    TurnsDownIff(m, origin, rr);
  }

  /** The store follows the standard on an update record exactly when it should reject it and does, or accepts it and
      the record does nothing that the standard would prevent. */
  lemma FollowsIffAgrees(z: Zone, origin: string, rr: RR)
    requires Sound(z)
    ensures var o := ApplyUpdate(z, origin, rr);
      (if Scanned(origin, rr) then o.error.None? && Flat(o.zone) == StandardUpdate(Flat(z), origin, rr)
       else o.error.Some?)
      <==> Agrees(Flat(z), origin, rr)
  {
    hide Scanned, StandardUpdate, Harmless, TurnsDown, ApplyUpdate, TableUpdate, Sound, Flat;
    UpdateRefinesTable(z, origin, rr);
    SoundIsNoEmpty(z);
    FlatNoEmpty(z);
    var m := Flat(z);
    TurnsDownIff(m, origin, rr);
    if Scanned(origin, rr) && !TurnsDown(m, origin, rr) {
      ScannedFollowsIff(m, origin, rr);
    }
  }

  lemma SoundIsNoEmpty(z: Zone)
    requires Sound(z)
    ensures NoEmpty(z)
  {
    hide NonEmptySets;
  }

  lemma ScannedFollowsIff(m: Table, origin: string, rr: RR)
    requires TableNoEmpty(m) && Scanned(origin, rr) && !TurnsDown(m, origin, rr)
    ensures TableUpdate(m, origin, rr).0 == StandardUpdate(m, origin, rr) <==> Harmless(m, origin, rr)
  {
    hide StandardUpdate, Harmless, TableUpdate, DeletesSomething, NormalizeName, IsNameInZone;
    if rr.rclass == CLASS_INET {
      AdditionFollowsIff(m, origin, rr);
    } else if rr.rclass == CLASS_ANY {
      DeletionFollowsIff(m, origin, rr);
    } else {
      RemovalFollowsIff(m, origin, rr);
    }
  }

  /** A whole section that the standard lets pass, each record at its turn. */
  function StandardSection(m: Table, origin: string, updates: seq<RR>): Table
    decreases |updates|
  {
    if |updates| == 0 then m else StandardSection(StandardUpdate(m, origin, updates[0]), origin, updates[1..])
  }

  predicate AllAgree(m: Table, origin: string, updates: seq<RR>)
    decreases |updates|
  {
    |updates| > 0 ==>
      && Scanned(origin, updates[0]) && Agrees(m, origin, updates[0])
      && AllAgree(StandardUpdate(m, origin, updates[0]), origin, updates[1..])
  }

  /** A section whose every record agrees at its turn has the standard's effect on the tree. */
  lemma {:induction false} AgreedSection(z: Zone, origin: string, updates: seq<RR>)
    requires Sound(z) && AllAgree(Flat(z), origin, updates)
    ensures var o := ApplySection(z, origin, updates);
      o.error.None? && Flat(o.zone) == StandardSection(Flat(z), origin, updates)
    decreases |updates|
  {
    hide Scanned, Agrees, StandardUpdate, ApplyUpdate, Sound, Flat;
    if |updates| > 0 {
      FollowsIffAgrees(z, origin, updates[0]);
      UpdateKeepsInvariants(z, origin, updates[0]);
      AgreedSection(ApplyUpdate(z, origin, updates[0]).zone, origin, updates[1..]);
    }
  }

  /** A deletion of what is not there: no record of its name and type, of its name for type ANY, or of its value,
      by any reading of values. */
  predicate DeletesNothing(m: Table, rr: RR) {
    var name := NormalizeName(rr.name);
    var key := (name, rr.rrtype);
    if rr.rclass == CLASS_NONE then forall x <- TableGet(m, key) :: !PrintsLike(x, rr) && !SameData(x, rr)
    else rr.rclass == CLASS_ANY && if rr.rrtype == TYPE_ANY then NamedKeys(m, name) == {} else key !in m
  }

  /** The standard ignores it; the store turns the whole section down, whatever it accepted before. */
  lemma EmptyDeletionFailsSection(z: Zone, origin: string, front: seq<RR>, rr: RR, rest: seq<RR>)
    requires Sound(z) && ApplySection(z, origin, front).error.None? && Scanned(origin, rr)
    requires DeletesNothing(Flat(ApplySection(z, origin, front).zone), rr)
    ensures var m := Flat(ApplySection(z, origin, front).zone);
      StandardUpdate(m, origin, rr) == m && ApplySection(z, origin, front + [rr] + rest).error.Some?
  {
    hide Scanned, ApplyUpdate, Sound, Flat, TableUpdate, StandardUpdate, DeletesNothing, TurnsDown;
    SectionKeepsInvariants(z, origin, front);
    var o := ApplySection(z, origin, front);
    SoundIsNoEmpty(o.zone);
    FlatNoEmpty(o.zone);
    UpdateRefinesTable(o.zone, origin, rr);
    TurnsDownIff(Flat(o.zone), origin, rr);
    NothingIsDeleted(Flat(o.zone), origin, rr);
    assert front + [rr] + rest == front + ([rr] + rest);
    SectionOfConcat(z, origin, front, [rr] + rest);
  }

  lemma NothingIsDeleted(m: Table, origin: string, rr: RR)
    requires TableNoEmpty(m) && DeletesNothing(m, rr)
    ensures StandardUpdate(m, origin, rr) == m && TurnsDown(m, origin, rr)
  {
    hide NormalizeName, IsNameInZone, PrintsLike, SameData;
    var key := (NormalizeName(rr.name), rr.rrtype);
    if rr.rclass == CLASS_NONE {
      FilterAllIff(TableGet(m, key), (x: RR) => !SameData(x, rr));
      assert Put(m, key, TableGet(m, key)) == m;
    }
  }

  lemma {:induction false} SectionOfConcat(z: Zone, origin: string, a: seq<RR>, b: seq<RR>)
    requires ApplySection(z, origin, a).error.None?
    ensures ApplySection(z, origin, a + b) == ApplySection(ApplySection(z, origin, a).zone, origin, b)
    decreases |a|
  {
    hide ApplyUpdate;
    if |a| == 0 {
      assert a + b == b;
    } else {
      assert (a + b)[1..] == a[1..] + b;
      SectionOfConcat(ApplyUpdate(z, origin, a[0]).zone, origin, a[1..], b);
    }
  }

  // ---------------------------------------------------------------- where the store differs

  function NewHost(name: string): RR {
    RR(name, TYPE_A, CLASS_INET, 0, A(Address("192.0.2.1")))
  }

  /** A name outside the zone, whose dot in front of the origin is escaped, is accepted. */
  lemma EscapedDotIsAdded(z: Zone)
    ensures !Scanned("b.", NewHost(ESCAPED_NAME)) && ApplyUpdate(z, "b.", NewHost(ESCAPED_NAME)).error.None?
  {
    hide IsNameInZone, InZone, NormalizeName;
    EscapedDotLeavesZone();
    NormalizeIsNormal(ESCAPED_NAME);
  }

  /** No name with a label is accepted in the root zone. */
  lemma RootTakesNothing(z: Zone, name: string)
    requires NormalizeName(name) != "." && !HasSuffix(NormalizeName(name), "..")
    ensures Scanned(".", NewHost(name)) && ApplyUpdate(z, ".", NewHost(name)).error == Some(NotInZone)
  {
    hide IsNameInZone, InZone, NormalizeName, HasSuffix;
    RootLacksNames(name);
    MembershipOfNormalForms(name, ".");
  }

  /** The deletion of a set that comes with data is malformed, yet the set goes. */
  lemma DataIsIgnored(z: Zone, origin: string, rr: RR)
    requires rr.rclass == CLASS_ANY && rr.rrtype != TYPE_SOA && rr.rrtype != TYPE_ANY && !NoData(rr.data)
    requires IsNameInZone(rr.name, origin) && CanRemoveRRset(z, rr.name, rr.rrtype)
    ensures !Scanned(origin, rr)
    ensures var o := ApplyUpdate(z, origin, rr);
      o.error.None? && RRset(o.zone, NormalizeName(rr.name), rr.rrtype) == []
  {
    hide IsNameInZone, NormalizeName, NoData, InZone;
    NormalizeIsNormal(rr.name);
    MembershipOfNormalForms(rr.name, origin);
    RRsetAfterUpdate(z, origin, rr, NormalizeName(rr.name), rr.rrtype);
  }

  ghost predicate CanChange(z: Zone, origin: string, name: string) {
    exists updates :: ChangesName(z, ApplySection(z, origin, updates).zone, name)
  }

  predicate ChangesName(z: Zone, next: Zone, name: string) {
    (name in z) != (name in next) || (name in z && z[name] != next[name])
  }

  /** A name that is not in the zone by its labels can be changed by an update section exactly if its dot in front
      of the origin is escaped. */
  lemma ForeignNameChangesIff(z: Zone, origin: string, name: string)
    requires Normal(name) && IsFqdn(name) && IsFqdn(NormalizeName(origin)) && !InZone(name, origin)
    ensures CanChange(z, origin, name) <==> TextMisleads(name, NormalizeName(origin))
  {
    hide IsNameInZone, InZone, NormalizeName, Normal, TextMisleads, ApplySection, ApplyUpdate;
    NormalizeIsNormal(name);
    MembershipByLabels(name, origin);
    if updates: seq<RR> :| ChangesName(z, ApplySection(z, origin, updates).zone, name) {
      if !IsNameInZone(name, origin) {
        SectionLeavesOtherNames(z, origin, updates, name);
      }
    }
    if TextMisleads(name, NormalizeName(origin)) {
      AdditionChangesName(z, origin, name);
    }
  }

  lemma AdditionChangesName(z: Zone, origin: string, name: string)
    requires NormalizeName(name) == name && IsNameInZone(name, origin)
    ensures ChangesName(z, ApplySection(z, origin, [NewHost(name)]).zone, name)
  {
    hide IsNameInZone, NormalizeName;
    var rr := NewHost(name);
    assert ApplyUpdate(z, origin, rr) == Outcome(Inserted(z, rr), None);
    assert [rr][1..] == [];
    assert RRset(Inserted(z, rr), name, TYPE_A) == RRset(z, name, TYPE_A) + [rr];
  }
}
