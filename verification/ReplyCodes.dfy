/** Which record of a refused update request is to blame, and with which response code (sections 2.2, 3.2.5 and 3.4.2 of
    RFC 2136), on the flat table and by the numbers of types, classes and codes. */
module ReplyCodes {
  import opened Wrappers
  import opened Names
  import opened Records
  import opened Filters
  import opened ZoneData
  import opened UpdateStandard
  import opened DynamicUpdate

  predicate NameInUse(m: Table, name: string) {
    exists k <- m :: k.0 == name
  }

  predicate TypeInUse(m: Table, name: string, t: Word16) {
    (name, t) in m
  }

  /** The prerequisite does not hold, and this code says so: 10 outside the zone; for a name 3 if it is missing and 6 if
      it is there; for a type 8 and 7; and 8 for a missing record. */
  predicate FailsWith(m: Table, origin: string, rr: RR, code: nat) {
    var name := NormalizeName(rr.name);
    if !IsNameInZone(name, origin) then code == 10
    else if rr.rrtype == 255 && rr.rclass == 255 then code == 3 && !NameInUse(m, name)
    else if rr.rrtype == 255 && rr.rclass == 254 then code == 6 && NameInUse(m, name)
    else if rr.rclass == 255 then code == 8 && !TypeInUse(m, name, rr.rrtype)
    else if rr.rclass == 254 then code == 7 && TypeInUse(m, name, rr.rrtype)
    else code == 8 && forall x <- TableGet(m, (name, rr.rrtype)) :: !IsDuplicate(x, rr)
  }

  /** The reply to a failing prerequisite section is that of its first record that does not hold. */
  lemma {:induction false} FirstFailureReplies(z: Zone, origin: string, rrs: seq<RR>) returns (i: nat)
    requires Sound(z) && CheckPrerequisites(z, origin, rrs).Some?
    ensures i < |rrs| && FailsWith(Flat(z), origin, rrs[i], ErrorToRcode(CheckPrerequisites(z, origin, rrs).value))
    ensures forall j, code :: 0 <= j < i ==> !FailsWith(Flat(z), origin, rrs[j], code)
  {
    hide Sound, CheckPrerequisite, FailsWith, Flat, ErrorToRcode;
    FailureReplies(z, origin, rrs[0]);
    if CheckPrerequisite(z, origin, rrs[0]).Some? {
      i := 0;
    } else {
      var n := FirstFailureReplies(z, origin, rrs[1..]);
      i := n + 1;
      assert forall j :: 0 < j < |rrs| ==> rrs[j] == rrs[1..][j - 1];
    }
  }

  lemma FailureReplies(z: Zone, origin: string, rr: RR)
    requires Sound(z)
    ensures var failed := CheckPrerequisite(z, origin, rr);
      if failed.Some? then FailsWith(Flat(z), origin, rr, ErrorToRcode(failed.value))
      else forall code :: !FailsWith(Flat(z), origin, rr, code)
  {
    hide NormalizeName, IsNameInZone, IsDuplicate, Keyed, NonEmptySets;
    var name := NormalizeName(rr.name);
    FlatHasName(z, name);
    FlatIsRRset(z, name, rr.rrtype);
    hide NoEmpty, Flat;
  }

  /** The update record is turned down with this code: 10 outside the zone, 5 for an SOA; a deletion of nothing with 3
      for a whole name and 8 otherwise; an unknown class with 2. */
  predicate TurnedDownWith(m: Table, origin: string, rr: RR, code: nat) {
    var name := NormalizeName(rr.name);
    if !IsNameInZone(name, origin) then code == 10
    else if rr.rrtype == 6 then code == 5
    else if rr.rclass == 1 then false
    else if rr.rclass == 254 then
      code == 8 && forall x <- TableGet(m, (name, rr.rrtype)) :: DataValue(x.data) != TrimSpace(DataValue(rr.data))
    else if rr.rclass == 255 && rr.rrtype == 255 then code == 3 && !NameInUse(m, name)
    else if rr.rclass == 255 then code == 8 && !TypeInUse(m, name, rr.rrtype)
    else code == 2
  }

  lemma RefusalReplies(z: Zone, origin: string, rr: RR)
    requires Sound(z)
    ensures var o := ApplyUpdate(z, origin, rr);
      if o.error.Some? then TurnedDownWith(Flat(z), origin, rr, ErrorToRcode(o.error.value))
      else forall code :: !TurnedDownWith(Flat(z), origin, rr, code)
  {
    hide Sound, Flat, ApplyUpdate;
    UpdateRefinesTable(z, origin, rr);
    TableRefusal(Flat(z), origin, rr);
  }

  lemma TableRefusal(m: Table, origin: string, rr: RR)
    ensures var failed := TableUpdate(m, origin, rr).1;
      if failed.Some? then TurnedDownWith(m, origin, rr, ErrorToRcode(failed.value))
      else forall code :: !TurnedDownWith(m, origin, rr, code)
  {
    hide NormalizeName, IsNameInZone, DataValue, TrimSpace, Filter;
    var key := (NormalizeName(rr.name), rr.rrtype);
    FilterAllIff(TableGet(m, key), (x: RR) => DataValue(x.data) != TrimSpace(DataValue(rr.data)));
    var named := set k <- m | k.0 == key.0;
    if NameInUse(m, key.0) {
      var k :| k in m && k.0 == key.0;
      assert k in named;
    }
  }

  /** The reply to a refused section is that of its first record that is turned down where the records before it have
      been applied. */
  lemma {:induction false} FirstRefusalReplies(z: Zone, origin: string, updates: seq<RR>) returns (i: nat)
    requires Sound(z) && ApplySection(z, origin, updates).error.Some?
    ensures i < |updates| && ApplySection(z, origin, updates[..i]).error.None?
    ensures TurnedDownWith(Flat(ApplySection(z, origin, updates[..i]).zone), origin, updates[i],
                           ErrorToRcode(ApplySection(z, origin, updates).error.value))
    decreases |updates|
  {
    hide Sound, ApplyUpdate, TurnedDownWith, Flat, ErrorToRcode;
    RefusalReplies(z, origin, updates[0]);
    var first := ApplyUpdate(z, origin, updates[0]);
    if first.error.Some? {
      i := 0;
      assert updates[..0] == [];
      RefusedIsUnchanged(z, origin, updates[0]);
    } else {
      UpdateKeepsInvariants(z, origin, updates[0]);
      var n := FirstRefusalReplies(first.zone, origin, updates[1..]);
      i := n + 1;
      assert updates[..i][0] == updates[0] && updates[..i][1..] == updates[1..][..n];
    }
  }

  lemma RefusedIsUnchanged(z: Zone, origin: string, rr: RR)
    ensures ApplyUpdate(z, origin, rr).error.Some? ==> ApplyUpdate(z, origin, rr).zone == z
  {
    hide NormalizeName, IsNameInZone, DataValue;
  }
}
