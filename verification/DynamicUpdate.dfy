/** Dynamic update requests: the checks before the update, in order, and the request's effect on the
    store. Prerequisite checks are compared with section 3.2 of RFC 2136. */
module DynamicUpdate {
  import opened Wrappers
  import opened Names
  import opened LabelSuffixes
  import opened Records
  import opened ZoneData
  import UpdateStandard
  import opened ZoneTree
  import opened SignedTree
  import opened Signer
  import opened Store

  const RCODE_FORMAT_ERROR := 1
  const RCODE_YX_DOMAIN := 6
  const RCODE_YX_RRSET := 7
  const RCODE_NX_RRSET := 8
  const RCODE_NOT_AUTH := 9
  const RCODE_NOT_ZONE := 10

  function ErrorToRcode(e: StoreError): nat {
    match e
    case NxRrset => RCODE_NX_RRSET
    case YxRrset => RCODE_YX_RRSET
    case NxDomain => RCODE_NAME_ERROR
    case YxDomain => RCODE_YX_DOMAIN
    case NotInZone => RCODE_NOT_ZONE
    case UpdateRefused => RCODE_REFUSED
    case ZoneNotFound => RCODE_NOT_AUTH
    case _ => RCODE_SERVER_FAILURE
  }

  /** The response codes by their numbers (section 2.2 of RFC 2136). */
  lemma RcodeNumbers()
    ensures ErrorToRcode(NxDomain) == 3 && ErrorToRcode(YxDomain) == 6 && ErrorToRcode(YxRrset) == 7
    ensures ErrorToRcode(NxRrset) == 8 && ErrorToRcode(ZoneNotFound) == 9 && ErrorToRcode(NotInZone) == 10
    ensures ErrorToRcode(UpdateRefused) == 5
    ensures forall e :: ErrorToRcode(e) == 2 <==>
      e !in [NxDomain, YxDomain, YxRrset, NxRrset, ZoneNotFound, NotInZone, UpdateRefused]
  {
  }

  // ---------------------------------------------------------------- prerequisites

  predicate RRExists(z: Zone, rr: RR) {
    exists x <- RRset(z, NormalizeName(rr.name), rr.rrtype) :: IsDuplicate(x, rr)
  }

  /** One prerequisite record against the contents of a view. */
  function CheckPrerequisite(z: Zone, origin: string, rr: RR): Option<StoreError> {
    var name := NormalizeName(rr.name);
    if !IsNameInZone(name, origin) then Some(NotInZone)
    else if rr.rrtype == TYPE_ANY && rr.rclass == CLASS_ANY then
      if name in z then None else Some(NxDomain)
    else if rr.rrtype == TYPE_ANY && rr.rclass == CLASS_NONE then
      if name in z then Some(YxDomain) else None
    else if rr.rclass == CLASS_ANY then
      if RRset(z, name, rr.rrtype) != [] then None else Some(NxRrset)
    else if rr.rclass == CLASS_NONE then
      if RRset(z, name, rr.rrtype) != [] then Some(YxRrset) else None
    else if RRExists(z, rr) then None else Some(NxRrset)
  }

  /** All prerequisites, in order; the first failure counts. */
  function CheckPrerequisites(z: Zone, origin: string, rrs: seq<RR>): Option<StoreError> {
    if |rrs| == 0 then None
    else
      var first := CheckPrerequisite(z, origin, rrs[0]);
      if first.Some? then first else CheckPrerequisites(z, origin, rrs[1..])
  }

  /** What the server asks of one prerequisite, in terms of the flat table. */
  ghost predicate TestPasses(m: Table, rr: RR) {
    var name := NormalizeName(rr.name);
    var nameInUse := exists k <- m :: k.0 == name;
    var typeInUse := (name, rr.rrtype) in m;
    if rr.rrtype == TYPE_ANY && rr.rclass == CLASS_ANY then nameInUse
    else if rr.rrtype == TYPE_ANY && rr.rclass == CLASS_NONE then !nameInUse
    else if rr.rclass == CLASS_ANY then typeInUse
    else if rr.rclass == CLASS_NONE then !typeInUse
    else typeInUse && exists x <- m[(name, rr.rrtype)] :: IsDuplicate(x, rr)
  }

  lemma PrerequisiteMeaning(z: Zone, origin: string, rr: RR)
    requires Sound(z)
    ensures CheckPrerequisite(z, origin, rr).None?
       <==> IsNameInZone(NormalizeName(rr.name), origin) && TestPasses(Flat(z), rr)
  {
    hide NormalizeName, IsNameInZone, IsDuplicate, Keyed, NonEmptySets;
    var name := NormalizeName(rr.name);
    FlatHasName(z, name);
    FlatIsRRset(z, name, rr.rrtype);
    hide NoEmpty, Flat;
  }

  lemma {:induction false} PrerequisitesMeaning(z: Zone, origin: string, rrs: seq<RR>)
    requires Sound(z)
    ensures CheckPrerequisites(z, origin, rrs).None?
       <==> forall i :: 0 <= i < |rrs| ==>
              IsNameInZone(NormalizeName(rrs[i].name), origin) && TestPasses(Flat(z), rrs[i])
  {
    hide NormalizeName, IsNameInZone, Sound, TestPasses, CheckPrerequisite, Flat;
    if |rrs| > 0 {
      PrerequisiteMeaning(z, origin, rrs[0]);
      PrerequisitesMeaning(z, origin, rrs[1..]);
      assert forall i :: 1 <= i < |rrs| ==> rrs[i] == rrs[1..][i - 1];
    }
  }

  // ---------------------------------------------------------------- what the standard asks

  /** The formal demands of section 3.2 of RFC 2136 on a prerequisite; a request that breaks one is malformed. */
  predicate Formed(rr: RR) {
    rr.ttl == 0 && (rr.rclass == CLASS_INET
                    || ((rr.rclass == CLASS_ANY || rr.rclass == CLASS_NONE) && UpdateStandard.NoData(rr.data)))
  }

  predicate AllFormed(rrs: seq<RR>) {
    forall i :: 0 <= i < |rrs| ==> Formed(rrs[i])
  }

  /** Every prerequisite is about a name that is in the zone by its labels. */
  predicate AllInZone(rrs: seq<RR>, origin: string) {
    forall i :: 0 <= i < |rrs| ==> InZone(rrs[i].name, origin)
  }

  /** Every prerequisite meets the server's test, whether its name counts as inside the zone or not. */
  ghost predicate AllPass(z: Zone, rrs: seq<RR>) {
    forall i :: 0 <= i < |rrs| ==> TestPasses(Flat(z), rrs[i])
  }

  /** Both value-dependent prerequisites for the same record set. */
  predicate SameGroup(a: RR, b: RR) {
    && a.rclass == CLASS_INET && b.rclass == CLASS_INET && a.rrtype == b.rrtype
    && NormalizeName(a.name) == NormalizeName(b.name)
  }

  /** Some prerequisite of the group of rr is a duplicate of x. */
  ghost predicate Listed(rrs: seq<RR>, rr: RR, x: RR) {
    exists j :: 0 <= j < |rrs| && SameGroup(rrs[j], rr) && IsDuplicate(x, rrs[j])
  }

  /** The record set of rr and the prerequisites of its group are the same set. */
  ghost predicate GroupEqualsSet(m: Table, rrs: seq<RR>, rr: RR) {
    var found := TableGet(m, (NormalizeName(rr.name), rr.rrtype));
    && (forall x <- found :: Listed(rrs, rr, x))
    && (forall j :: 0 <= j < |rrs| && SameGroup(rrs[j], rr) ==> exists x <- found :: IsDuplicate(x, rrs[j]))
  }

  /** Section 3.2 of RFC 2136 over a whole prerequisite section. The records of the zone's class are grouped by
      name and type, and each group must be the same set as the record set of the zone. */
  ghost predicate StandardHolds(m: Table, origin: string, rrs: seq<RR>) {
    forall i :: 0 <= i < |rrs| ==>
      && Formed(rrs[i]) && InZone(rrs[i].name, origin)
      && (if rrs[i].rclass == CLASS_INET then GroupEqualsSet(m, rrs, rrs[i]) else TestPasses(m, rrs[i]))
  }

  /** Some record of the zone at a listed name and type is a duplicate of no listed prerequisite. */
  ghost predicate Surplus(z: Zone, rrs: seq<RR>) {
    exists i, x :: 0 <= i < |rrs| && rrs[i].rclass == CLASS_INET
      && x in RRset(z, NormalizeName(rrs[i].name), rrs[i].rrtype) && !Listed(rrs, rrs[i], x)
  }

  /** The standard holds exactly when all tests pass, all names are in the zone by their labels, all prerequisites
      are well formed, and the zone holds no more than was listed. Of what the server passes, the standard turns
      down exactly the sections that fail one of the last three; what the server turns down, the standard accepts
      only where the text of a name misleads. */
  lemma StandardIffNoSurplus(z: Zone, origin: string, rrs: seq<RR>)
    requires Sound(z)
    ensures var asked := AllFormed(rrs) && AllInZone(rrs, origin) && !Surplus(z, rrs);
      && (StandardHolds(Flat(z), origin, rrs) <==> AllPass(z, rrs) && asked)
      && (CheckPrerequisites(z, origin, rrs).None? ==> (StandardHolds(Flat(z), origin, rrs) <==> asked))
    ensures CheckPrerequisites(z, origin, rrs).Some? && StandardHolds(Flat(z), origin, rrs) ==>
      exists i :: 0 <= i < |rrs| && !IsNameInZone(rrs[i].name, origin)
  {
    hide NormalizeName, IsNameInZone, InZone, Sound, Flat, CheckPrerequisites, StandardHolds, Surplus, AllFormed;
    hide TestPasses, AllInZone;
    PrerequisitesMeaning(z, origin, rrs);
    if StandardHolds(Flat(z), origin, rrs) {
      StandardGivesTests(z, origin, rrs);
    }
    if AllPass(z, rrs) && AllFormed(rrs) && AllInZone(rrs, origin) && !Surplus(z, rrs) {
      TestsGiveStandard(z, origin, rrs);
    }
    forall i | 0 <= i < |rrs|
      ensures IsNameInZone(rrs[i].name, origin) == IsNameInZone(NormalizeName(rrs[i].name), origin)
    {
      MembershipOfNormalForms(rrs[i].name, origin);
    }
  }

  /** For the names of a message, the server turns down what the standard accepts in the root zone only. */
  lemma StricterOnlyAtRoot(z: Zone, origin: string, rrs: seq<RR>)
    requires Sound(z) && IsFqdn(NormalizeName(origin))
    requires forall i :: 0 <= i < |rrs| ==> IsFqdn(NormalizeName(rrs[i].name))
    requires CheckPrerequisites(z, origin, rrs).Some? && StandardHolds(Flat(z), origin, rrs)
    ensures NormalizeName(origin) == "."
  {
    hide NormalizeName, IsNameInZone, InZone, Sound, Flat, CheckPrerequisites, StandardHolds, TextMisleads, IsFqdn;
    hide Surplus, AllPass, AllFormed;
    StandardIffNoSurplus(z, origin, rrs);
    var i :| 0 <= i < |rrs| && !IsNameInZone(rrs[i].name, origin);
    MembershipByLabels(rrs[i].name, origin);
  }

  lemma SetInTable(z: Zone, n: string, t: Word16)
    requires Sound(z)
    ensures TableGet(Flat(z), (n, t)) == RRset(z, n, t)
    ensures (n, t) in Flat(z) <==> RRset(z, n, t) != []
  {
    hide Flat, Keyed, NonEmptySets;
    FlatIsRRset(z, n, t);
  }

  /** Every record of the zone at the name and type of rr is listed. */
  ghost predicate AllListed(z: Zone, rrs: seq<RR>, rr: RR) {
    forall x <- RRset(z, NormalizeName(rr.name), rr.rrtype) :: Listed(rrs, rr, x)
  }

  lemma GroupGivesTest(z: Zone, rrs: seq<RR>, i: nat)
    requires Sound(z) && i < |rrs| && rrs[i].rclass == CLASS_INET && GroupEqualsSet(Flat(z), rrs, rrs[i])
    ensures TestPasses(Flat(z), rrs[i]) && AllListed(z, rrs, rrs[i])
  {
    hide NormalizeName, Sound, Flat, IsDuplicate, Listed;
    SetInTable(z, NormalizeName(rrs[i].name), rrs[i].rrtype);
    assert SameGroup(rrs[i], rrs[i]);
  }

  lemma TestGivesDuplicate(z: Zone, rr: RR)
    requires Sound(z) && rr.rclass == CLASS_INET && TestPasses(Flat(z), rr)
    ensures exists x <- TableGet(Flat(z), (NormalizeName(rr.name), rr.rrtype)) :: IsDuplicate(x, rr)
  {
    hide NormalizeName, Sound, Flat, IsDuplicate;
  }

  lemma TestsGiveGroup(z: Zone, rrs: seq<RR>, i: nat)
    requires Sound(z) && i < |rrs| && rrs[i].rclass == CLASS_INET && AllListed(z, rrs, rrs[i])
    requires forall j :: 0 <= j < |rrs| ==> TestPasses(Flat(z), rrs[j])
    ensures GroupEqualsSet(Flat(z), rrs, rrs[i])
  {
    hide NormalizeName, Sound, Flat, IsDuplicate, Listed, TestPasses, TableGet;
    SetInTable(z, NormalizeName(rrs[i].name), rrs[i].rrtype);
    forall j | 0 <= j < |rrs| && SameGroup(rrs[j], rrs[i])
      ensures exists x <- TableGet(Flat(z), (NormalizeName(rrs[i].name), rrs[i].rrtype)) :: IsDuplicate(x, rrs[j])
    {
      TestGivesDuplicate(z, rrs[j]);
    }
  }

  lemma SurplusMeans(z: Zone, rrs: seq<RR>)
    ensures Surplus(z, rrs) <==> exists i :: 0 <= i < |rrs| && rrs[i].rclass == CLASS_INET && !AllListed(z, rrs, rrs[i])
  {
    hide NormalizeName, Listed, RRset;
  }

  lemma StandardGivesTests(z: Zone, origin: string, rrs: seq<RR>)
    requires Sound(z) && StandardHolds(Flat(z), origin, rrs)
    ensures AllPass(z, rrs) && AllFormed(rrs) && AllInZone(rrs, origin) && !Surplus(z, rrs)
  {
    hide NormalizeName, InZone, Sound, Flat, TestPasses, AllListed, GroupEqualsSet, Surplus, Formed;
    SurplusMeans(z, rrs);
    forall i | 0 <= i < |rrs| && rrs[i].rclass == CLASS_INET
      ensures TestPasses(Flat(z), rrs[i]) && AllListed(z, rrs, rrs[i])
    {
      GroupGivesTest(z, rrs, i);
    }
  }

  lemma TestsGiveStandard(z: Zone, origin: string, rrs: seq<RR>)
    requires Sound(z) && AllPass(z, rrs) && AllFormed(rrs) && AllInZone(rrs, origin) && !Surplus(z, rrs)
    ensures StandardHolds(Flat(z), origin, rrs)
  {
    hide NormalizeName, InZone, Sound, Flat, TestPasses, AllListed, GroupEqualsSet, Surplus, Formed;
    SurplusMeans(z, rrs);
    forall i | 0 <= i < |rrs| && rrs[i].rclass == CLASS_INET ensures GroupEqualsSet(Flat(z), rrs, rrs[i]) {
      TestsGiveGroup(z, rrs, i);
    }
  }

  /** A prerequisite that a record set exists is malformed when it comes with data, yet it passes. */
  lemma DataPasses(z: Zone, origin: string, rr: RR)
    requires Sound(z) && rr.rclass == CLASS_ANY && rr.rrtype != TYPE_ANY && !UpdateStandard.NoData(rr.data)
    requires IsNameInZone(rr.name, origin) && RRset(z, NormalizeName(rr.name), rr.rrtype) != []
    ensures CheckPrerequisites(z, origin, [rr]).None? && !StandardHolds(Flat(z), origin, [rr])
  {
    hide NormalizeName, IsNameInZone, InZone, Sound, Flat, GroupEqualsSet, TestPasses, UpdateStandard.NoData;
    MembershipOfNormalForms(rr.name, origin);
    assert CheckPrerequisite(z, origin, rr).None? && [rr][1..] == [];
    assert !Formed([rr][0]);
  }

  /** Two address records at a name. */
  function TwoAddresses(n: string, a: RR, b: RR): Zone {
    map[n := map[TYPE_A := [a, b]]]
  }

  function AddressAt(n: string, text: string): RR {
    RR(n, TYPE_A, CLASS_INET, 0, A(Address(text)))
  }

  /** The difference is real at every name: where two addresses are stored, a request that demands the set of just
      one of them passes, although the standard turns it down. */
  lemma SupersetPasses(n: string)
    requires Normal(n)
    ensures var (a, b) := (AddressAt(n, "192.0.2.1"), AddressAt(n, "192.0.2.2"));
      && Sound(TwoAddresses(n, a, b)) && CheckPrerequisites(TwoAddresses(n, a, b), n, [a]).None?
      && !StandardHolds(Flat(TwoAddresses(n, a, b)), n, [a])
  {
    hide Lower, TrimSpace, Trimmed;
    NormalizeIsNormal(n);
    MembershipOfNormalForms(n, n);
    var a, b := AddressAt(n, "192.0.2.1"), AddressAt(n, "192.0.2.2");
    var z := TwoAddresses(n, a, b);
    assert z[n][TYPE_A] == [a, b];
    hide NormalizeName, Normal, IsNameInZone;
    assert RRset(z, n, TYPE_A) == [a, b] && IsDuplicate(a, a) && !IsDuplicate(b, a);
    assert a in RRset(z, n, TYPE_A) && b in RRset(z, n, TYPE_A);
    assert CheckPrerequisite(z, n, a).None?;
    assert [a][1..] == [];
    assert !Listed([a], a, b);
    assert Surplus(z, [a]);
    StandardIffNoSurplus(z, n, [a]);
  }

  /** The prerequisite loop over a view of the store. */
  method CheckPrerequisitesOf(store: Memory, origin: string, view: View, rrs: seq<RR>)
    returns (error: Option<StoreError>)
    requires store.Valid()
    ensures error == CheckPrerequisites(store.ContentsOf(view), origin, rrs)
  {
    hide Tree.Valid, NormalizeName, IsNameInZone, IsDuplicate, CheckPrerequisite;
    ghost var z := store.ContentsOf(view);
    for i := 0 to |rrs|
      invariant CheckPrerequisites(z, origin, rrs[i..]) == CheckPrerequisites(z, origin, rrs)
    {
      assert rrs[i..][0] == rrs[i] && rrs[i..][1..] == rrs[i + 1..];
      error := CheckPrerequisiteOf(store, origin, view, rrs[i]);
      if error.Some? {
        return;
      }
    }
    return None;
  }

  method CheckPrerequisiteOf(store: Memory, origin: string, view: View, rr: RR) returns (error: Option<StoreError>)
    requires store.Valid()
    ensures error == CheckPrerequisite(store.ContentsOf(view), origin, rr)
  {
    hide Tree.Valid, NormalizeName, IsNameInZone, IsDuplicate;
    var nodes := store.TreeFor(view).nodes;
    var name := NormalizeName(rr.name);
    if !IsNameInZone(name, origin) {
      return Some(NotInZone);
    }
    var present: seq<RR> := [];
    if name in nodes && rr.rrtype in nodes[name].sets {
      present := nodes[name].sets[rr.rrtype];
    }
    if rr.rrtype == TYPE_ANY && rr.rclass == CLASS_ANY {
      return if name in nodes then None else Some(NxDomain);
    } else if rr.rrtype == TYPE_ANY && rr.rclass == CLASS_NONE {
      return if name in nodes then Some(YxDomain) else None;
    } else if rr.rclass == CLASS_ANY {
      return if present != [] then None else Some(NxRrset);
    } else if rr.rclass == CLASS_NONE {
      return if present != [] then Some(YxRrset) else None;
    }
    for i := 0 to |present|
      invariant forall j :: 0 <= j < i ==> !IsDuplicate(present[j], rr)
    {
      if IsDuplicate(present[i], rr) {
        return None;
      }
    }
    return Some(NxRrset);
  }

  // ---------------------------------------------------------------- the request

  predicate WellFormedQuestion(questions: seq<Question>) {
    && |questions| == 1 && questions[0].qtype == TYPE_SOA
    && questions[0].qclass in {CLASS_INET, CLASS_ANY}
  }

  /** The view an update goes to: the public one when the zone exists there. */
  method ResolveUpdateView(store: Memory, origin: string) returns (view: Option<View>)
    requires store.Valid()
    ensures view == if store.ZoneExists(origin, PublicView) then Some(PublicView)
                    else if store.ZoneExists(origin, InternalView) then Some(InternalView) else None
  {
    var found := store.ZoneExistsLocked(origin, PublicView);
    if found {
      return Some(PublicView);
    }
    found := store.ZoneExistsLocked(origin, InternalView);
    return if found then Some(InternalView) else None;
  }

  /** The verdict before anything is written: a response code, or the zone and view to update. */
  datatype Verdict = Reply(rcode: nat) | Update(id: ZoneId, zone: Zone)

  ghost function Judge(store: Memory, signatureOk: bool, questions: seq<Question>, prerequisites: seq<RR>,
                       updates: seq<RR>): Verdict
    requires store.Valid()
    reads store, store.Repr
  {
    if !signatureOk then Reply(RCODE_REFUSED)
    else if !WellFormedQuestion(questions) then Reply(RCODE_FORMAT_ERROR)
    else
      var origin := NormalizeName(questions[0].name);
      if !store.ZoneExists(origin, PublicView) && !store.ZoneExists(origin, InternalView) then Reply(RCODE_NOT_ZONE)
      else
        var view := if store.ZoneExists(origin, PublicView) then PublicView else InternalView;
        var z := store.ContentsOf(view);
        var refused := CheckPrerequisites(z, origin, prerequisites);
        if refused.Some? then Reply(ErrorToRcode(refused.value))
        else if updates == [] then Reply(RCODE_SUCCESS)
        else
          var outcome := ApplySection(z, origin, updates);
          if outcome.error.Some? then Reply(ErrorToRcode(outcome.error.value)) else Update((origin, view), outcome.zone)
  }

  /** The verdict case by case, with the response codes by their numbers (section 2.2 of RFC 2136). */
  lemma VerdictCases(store: Memory, signatureOk: bool, questions: seq<Question>, prerequisites: seq<RR>,
                     updates: seq<RR>)
    requires store.Valid()
    ensures var verdict := Judge(store, signatureOk, questions, prerequisites, updates);
      if !signatureOk then verdict == Reply(5)
      else if |questions| != 1 || questions[0].qtype != 6 || (questions[0].qclass != 1 && questions[0].qclass != 255)
      then verdict == Reply(1)
      else
        var origin := NormalizeName(questions[0].name);
        if store.ZoneExists(origin, PublicView) then
          ViewVerdict(store.ContentsOf(PublicView), (origin, PublicView), prerequisites, updates, verdict)
        else if store.ZoneExists(origin, InternalView) then
          ViewVerdict(store.ContentsOf(InternalView), (origin, InternalView), prerequisites, updates, verdict)
        else verdict == Reply(10)
  {
    hide NormalizeName, CheckPrerequisites, ApplySection, Memory.Valid, Memory.ZoneExists, ErrorToRcode;
  }

  /** With the view found, the prerequisites come first, then an empty section succeeds, then the section decides. */
  predicate ViewVerdict(z: Zone, id: ZoneId, prerequisites: seq<RR>, updates: seq<RR>, verdict: Verdict) {
    var failed := CheckPrerequisites(z, id.0, prerequisites);
    var outcome := ApplySection(z, id.0, updates);
    && (failed.Some? ==> verdict == Reply(ErrorToRcode(failed.value)))
    && (failed.None? && |updates| == 0 ==> verdict == Reply(0))
    && (failed.None? && |updates| > 0 && outcome.error.Some? ==> verdict == Reply(ErrorToRcode(outcome.error.value)))
    && (failed.None? && |updates| > 0 && outcome.error.None? ==> verdict == Update(id, outcome.zone))
  }

  /** A request either replies without touching the store, or publishes the zone with the whole section
      applied; then only a failure to persist keeps it from replying with success. */
  method HandleDynamicUpdate(store: Memory, signatureOk: bool, questions: seq<Question>, prerequisites: seq<RR>,
                             updates: seq<RR>, window: Window, writeOk: bool)
    returns (rcode: nat)
    requires store.Valid()
    modifies store
    ensures store.Valid() && fresh(store.Repr - old(store.Repr))
    ensures var verdict := old(Judge(store, signatureOk, questions, prerequisites, updates));
      match verdict
      case Reply(code) => rcode == code && unchanged(store)
      case Update(id, zone) =>
        && (rcode == RCODE_SUCCESS || rcode == RCODE_SERVER_FAILURE)
        && store.Replaced(id, zone, window, writeOk, rcode == RCODE_SUCCESS)
  {
    hide NormalizeName, ApplySection, CheckPrerequisites, Memory.Valid, Memory.ZoneExists, Memory.Persisted;
    if !signatureOk {
      return RCODE_REFUSED;
    }
    if !WellFormedQuestion(questions) {
      return RCODE_FORMAT_ERROR;
    }
    var origin := NormalizeName(questions[0].name);
    NormalizeIsNormal(questions[0].name);
    var view := ResolveUpdateView(store, origin);
    if view.None? {
      return RCODE_NOT_ZONE;
    }
    var refused := CheckPrerequisitesOf(store, origin, view.value, prerequisites);
    if refused.Some? {
      return ErrorToRcode(refused.value);
    }
    if |updates| == 0 {
      return RCODE_SUCCESS;
    }
    var error := store.ApplyDynamicUpdate(origin, view.value, updates, window, writeOk);
    return if error.None? then RCODE_SUCCESS else ErrorToRcode(error.value);
  }

  // ---------------------------------------------------------------- runs

  datatype Request = Request(signatureOk: bool, questions: seq<Question>, prerequisites: seq<RR>, updates: seq<RR>,
                             window: Window, writeOk: bool)

  /** Any run of update requests, without signing keys: no tree that was ever published changes after its
      publication, so every reader keeps the zone data it started with. */
  method HandleAll(store: Memory, requests: seq<Request>) returns (rcodes: seq<nat>)
    requires store.Valid() && store.Isolated() && store.keys == map[]
    modifies store
    ensures store.Valid() && store.Isolated() && |rcodes| == |requests|
    ensures forall t <- old(store.published) :: t in store.published && store.published[t] == old(store.published[t])
  {
    hide Memory.Valid, Memory.Isolated, Judge;
    rcodes := [];
    for i := 0 to |requests|
      invariant store.Valid() && store.Isolated() && store.keys == map[] && |rcodes| == i
      invariant fresh(store.Repr - old(store.Repr))
      invariant forall t <- old(store.published) ::
        t in store.published && store.published[t] == old(store.published[t])
    {
      var rcode := HandleOne(store, requests[i]);
      rcodes := rcodes + [rcode];
    }
  }

  method HandleOne(store: Memory, r: Request) returns (rcode: nat)
    requires store.Valid() && store.Isolated() && store.keys == map[]
    modifies store
    ensures store.Valid() && store.Isolated() && store.keys == map[] && fresh(store.Repr - old(store.Repr))
    ensures forall t <- old(store.published) :: t in store.published && store.published[t] == old(store.published[t])
  {
    hide Memory.Valid, Memory.Isolated, Judge, SignStep, SigningMayFail;
    rcode := HandleDynamicUpdate(store, r.signatureOk, r.questions, r.prerequisites, r.updates, r.window, r.writeOk);
  }
}
