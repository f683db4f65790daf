/** Signing and unsigning a zone inside a tree, and the proof that unsigning a signed zone gives the zone
    back with one apex SOA whose serial is one higher. */
module SignedTree {
  import opened Wrappers
  import opened Names
  import opened Records
  import opened Filters
  import opened ZoneData
  import opened ZoneTree
  import opened Signer
  import opened SignedZone

  // ---------------------------------------------------------------- contents

  /** The contents with the three signing types removed throughout the zone. */
  function Stripped(z: Zone, origin: string): Zone {
    StrippedAt(z, set n <- z | IsNameInZone(n, origin))
  }

  function StrippedAt(z: Zone, names: set<string>): Zone {
    map n | n in z && !(n in names && Unsealed(z[n]) == map[]) :: if n in names then Unsealed(z[n]) else z[n]
  }

  lemma StripOneMore(z: Zone, done: set<string>, n: string)
    requires n in z && n !in done
    ensures n in StrippedAt(z, done) && StrippedAt(z, done)[n] == z[n]
    ensures Restored(StrippedAt(z, done), n, Unsealed(z[n])) == StrippedAt(z, done + {n})
  {
    hide Unsealed;
    var a, b := Restored(StrippedAt(z, done), n, Unsealed(z[n])), StrippedAt(z, done + {n});
    assert a.Keys == b.Keys;
  }

  function Unsealed(sets: TypeSets): TypeSets {
    sets - {TYPE_RRSIG, TYPE_NSEC, TYPE_DNSKEY}
  }

  lemma RRsetStripped(z: Zone, origin: string, n: string, t: Word16)
    ensures RRset(Stripped(z, origin), n, t)
         == if IsNameInZone(n, origin) && IsSigningType(t) then [] else RRset(z, n, t)
  {
    hide IsNameInZone;
    assert n in z && t in z[n] && !IsSigningType(t) ==> t in Unsealed(z[n]);
  }

  lemma StrippedIsSound(z: Zone, origin: string)
    requires Sound(z)
    ensures Sound(Stripped(z, origin))
  {
    hide IsNameInZone, Normal, FiledUnder;
    forall n | n in Stripped(z, origin) ensures NonEmptySets(Stripped(z, origin)[n]) {
      assert NonEmptySets(z[n]);
    }
  }

  lemma WithoutZoneIsSound(z: Zone, origin: string)
    requires Sound(z)
    ensures Sound(WithoutZone(z, origin))
  {
    hide IsNameInZone, Normal, FiledUnder, NonEmptySets;
  }

  lemma {:induction false} RRsetInsertedAll(z: Zone, rrs: seq<RR>, n: string, t: Word16)
    ensures RRset(InsertedAll(z, rrs), n, t) == RRset(z, n, t) + At(rrs, n, t)
    decreases |rrs|
  {
    hide NormalizeName;
    if |rrs| > 0 {
      RRsetInsertedAll(Inserted(z, rrs[0]), rrs[1..], n, t);
    }
  }

  lemma {:induction false} InsertedAllIsSound(z: Zone, rrs: seq<RR>)
    requires Sound(z)
    ensures Sound(InsertedAll(z, rrs))
    decreases |rrs|
  {
    hide Sound, Inserted;
    if |rrs| > 0 {
      InsertKeepsInvariants(z, rrs[0]);
      InsertedAllIsSound(Inserted(z, rrs[0]), rrs[1..]);
    }
  }

  /** next is z with the zone replaced by a signed form of itself. */
  ghost predicate SignStep(z: Zone, origin: string, keys: KeyPair, window: Window, next: Zone) {
    exists records, signed :: Collected(z, origin, records) && IsSigned(records, origin, keys, window, signed)
      && next == InsertedAll(WithoutZone(z, origin), signed)
  }

  // ---------------------------------------------------------------- tree operations

  method ZoneNames(tree: Tree, origin: string) returns (names: set<string>)
    ensures names == set n <- tree.nodes | IsNameInZone(n, origin)
  {
    hide IsNameInZone;
    names := {};
    var todo := tree.nodes.Keys;
    while todo != {}
      invariant todo <= tree.nodes.Keys
      invariant names == set n <- tree.nodes | n !in todo && IsNameInZone(n, origin)
    {
      var n :| n in todo;
      todo := todo - {n};
      if IsNameInZone(n, origin) {
        names := names + {n};
      }
    }
  }

  method StripAllZoneRecords(tree: Tree, origin: string)
    requires tree.Valid()
    modifies tree
    ensures tree.Valid() && tree.Repr() <= old(tree.Repr())
    ensures tree.Contents() == WithoutZone(old(tree.Contents()), origin)
  {
    hide IsNameInZone, Sound;
    ghost var z := tree.Contents();
    var names := ZoneNames(tree, origin);
    while names != {}
      invariant tree.Separate() && tree.Repr() <= old(tree.Repr())
      invariant names <= set n <- z | IsNameInZone(n, origin)
      invariant tree.Contents() == map n | n in z && (!IsNameInZone(n, origin) || n in names) :: z[n]
    {
      var n :| n in names;
      names := names - {n};
      tree.Delete(n);
    }
    assert tree.Contents() == WithoutZone(z, origin);
    WithoutZoneIsSound(z, origin);
  }

  method StripDnssecRecords(tree: Tree, origin: string)
    requires tree.Valid()
    modifies tree.Repr()
    ensures tree.Valid() && fresh(tree.Repr() - old(tree.Repr()))
    ensures tree.Contents() == Stripped(old(tree.Contents()), origin)
  {
    hide IsNameInZone, Sound, Unsealed, StrippedAt;
    ghost var z := tree.Contents();
    var names := ZoneNames(tree, origin);
    ghost var done: set<string> := {};
    StripNothing(z);
    while names != {}
      invariant tree.Separate() && fresh(tree.Repr() - old(tree.Repr()))
      invariant done !! names && done + names == set n <- z | IsNameInZone(n, origin)
      invariant tree.Contents() == StrippedAt(z, done)
    {
      var n :| n in names;
      names := names - {n};
      StripOneMore(z, done, n);
      assert n in tree.Contents();
      tree.PutOrDelete(n, Unsealed(tree.nodes[n].sets));
      done := done + {n};
    }
    assert done + names == done;
    assert tree.Contents() == Stripped(z, origin);
    StrippedIsSound(z, origin);
  }

  lemma StripNothing(z: Zone)
    ensures StrippedAt(z, {}) == z
  {
  }

  method ApplySignedRecords(tree: Tree, origin: string, signed: seq<RR>)
    requires tree.Valid()
    modifies tree.Repr()
    ensures tree.Valid() && fresh(tree.Repr() - old(tree.Repr()))
    ensures tree.Contents() == InsertedAll(WithoutZone(old(tree.Contents()), origin), signed)
  {
    hide Sound, Inserted, WithoutZone;
    StripAllZoneRecords(tree, origin);
    ghost var goal := InsertedAll(tree.Contents(), signed);
    for i := 0 to |signed|
      invariant tree.Valid() && fresh(tree.Repr() - old(tree.Repr()))
      invariant InsertedAll(tree.Contents(), signed[i..]) == goal
    {
      assert signed[i..][0] == signed[i] && signed[i..][1..] == signed[i + 1..];
      InsertRR(tree, signed[i]);
    }
  }

  /** The zone has nothing to sign, or one of the keys fails to sign some record set of the zone. */
  ghost predicate SigningMayFail(z: Zone, origin: string, keys: KeyPair, window: Window) {
    exists records :: Collected(z, origin, records) &&
      (Unsigned(records) == [] || ZoneSignatureFails(records, origin, keys, window))
  }

  lemma SigningFailed(z: Zone, origin: string, keys: KeyPair, window: Window, records: seq<RR>)
    requires Collected(z, origin, records)
    requires Unsigned(records) == [] || ZoneSignatureFails(records, origin, keys, window)
    ensures SigningMayFail(z, origin, keys, window)
  {
    hide Collected, ZoneSignatureFails, Unsigned;
  }

  /** Re-signs the zone in the tree, in place; on failure the tree is untouched. */
  method SignTree(tree: Tree, origin: string, keys: KeyPair, window: Window) returns (ok: bool)
    requires tree.Valid()
    modifies tree.Repr()
    ensures tree.Valid() && fresh(tree.Repr() - old(tree.Repr()))
    ensures ok ==> SignStep(old(tree.Contents()), origin, keys, window, tree.Contents())
    ensures !ok ==> tree.Contents() == old(tree.Contents())
    ensures !ok ==> SigningMayFail(old(tree.Contents()), origin, keys, window)
  {
    hide Sound, Collected, IsSigned, InsertedAll, WithoutZone, ZoneSignatureFails, Unsigned;
    ghost var z := tree.Contents();
    var records := CollectZoneRecords(tree, origin);
    assert Collected(z, origin, records);
    var signed := SignZone(origin, records, keys, window);
    if signed.Err? {
      assert signed.error.NothingToSign? || signed.error.SignatureFailed?;
      assert signed == Err(signed.error);
      SigningFailed(z, origin, keys, window, records);
      return false;
    }
    ApplySignedRecords(tree, origin, signed.value);
    return true;
  }

  // ---------------------------------------------------------------- unsigning undoes signing

  /** The owner names of the zone's records are as the DNS library delivers them. */
  ghost predicate ZoneOwnerNamed(z: Zone, origin: string) {
    forall n: string, t: Word16 :: IsNameInZone(n, origin) ==> OwnerNamed(RRset(z, n, t))
  }

  /** A zone that can be signed under keys of its own origin. */
  ghost predicate Signable(z: Zone, origin: string, keys: KeyPair) {
    && Sound(z) && ZoneOwnerNamed(z, origin)
    && IsOwnerName(origin) && CanonicalName(origin) == origin && KeysOwnedBy(keys, origin)
  }

  /** What is left of a record list after signing and unsigning: lists of the signing types vanish, the
      apex SOA list keeps its first record with the serial raised, every other list is as before. */
  function Expected(z: Zone, origin: string, n: string, t: Word16): seq<RR> {
    if !IsNameInZone(n, origin) then RRset(z, n, t)
    else if IsSigningType(t) then []
    else if n == origin && t == TYPE_SOA then Mapped(FirstOf(RRset(z, n, t)))
    else RRset(z, n, t)
  }

  /** On owner-named records the store's key and the library's key of a record agree. */
  lemma AtIsRRsetOf(rrs: seq<RR>, n: string, t: Word16)
    requires OwnerNamed(rrs)
    ensures At(rrs, n, t) == RRsetOf(rrs, (n, t))
  {
    hide NormalizeName, CanonicalName, IsOwnerName;
    forall i | 0 <= i < |rrs| ensures CanonicalName(rrs[i].name) == NormalizeName(rrs[i].name) {
      CanonicalIsNormal(rrs[i].name);
    }
    FilterSame(rrs, (rr: RR) => NormalizeName(rr.name) == n && rr.rrtype == t,
               (rr: RR) => CanonicalName(rr.name) == n && rr.rrtype == t);
  }

  /** All records have owner names of the zone. */
  predicate ZoneOwners(rrs: seq<RR>, origin: string) {
    OwnerNamed(rrs) && forall i :: 0 <= i < |rrs| ==> IsNameInZone(rrs[i].name, origin)
  }

  lemma CollectedOwnerNamed(z: Zone, origin: string, records: seq<RR>)
    requires ZoneOwnerNamed(z, origin) && Collected(z, origin, records)
    ensures ZoneOwners(records, origin)
  {
    hide NormalizeName, IsOwnerName, IsNameInZone;
    forall i | 0 <= i < |records|
      ensures IsOwnerName(records[i].name) && IsNameInZone(records[i].name, origin)
    {
      var rr := records[i];
      var n, t := NormalizeName(rr.name), rr.rrtype;
      FilterHas(records, (x: RR) => NormalizeName(x.name) == n && x.rrtype == t, rr);
      assert rr in At(records, n, t);
      MembershipOfNormalForms(rr.name, origin);
      var found := RRset(z, n, t);
      var j :| 0 <= j < |found| && found[j] == rr;
    }
  }

  /** The base records at one key: the apex SOA reduced to one, any other non-signing list unchanged. */
  lemma BaseAt(records: seq<RR>, origin: string, k: Key)
    requires !IsSigningType(k.1)
    ensures RRsetOf(Base(records, origin), k)
         == if k == (origin, TYPE_SOA) then Mapped(FirstOf(RRsetOf(records, k))) else RRsetOf(records, k)
  {
    hide CanonicalName, RRsetOf;
    var u := Unsigned(records);
    var others, soas := NotApexSoas(u, origin), Mapped(FirstOf(ApexSoas(u, origin)));
    RRsetOfConcat(others, soas, k);
    UnsignedAt(records, k);
    ApexAt(u, origin, k);
    assert [] + soas == soas && RRsetOf(u, k) + [] == RRsetOf(u, k);
  }

  lemma UnsignedAt(records: seq<RR>, k: Key)
    requires !IsSigningType(k.1)
    ensures RRsetOf(Unsigned(records), k) == RRsetOf(records, k)
  {
    hide CanonicalName;
    var inSet := (rr: RR) => CanonicalName(rr.name) == k.0 && rr.rrtype == k.1;
    FilterTwice(records, (rr: RR) => !IsSigningType(rr.rrtype), inSet, inSet);
  }

  lemma ApexAt(u: seq<RR>, origin: string, k: Key)
    ensures RRsetOf(NotApexSoas(u, origin), k) == if k == (origin, TYPE_SOA) then [] else RRsetOf(u, k)
    ensures RRsetOf(Mapped(FirstOf(ApexSoas(u, origin))), k)
         == if k == (origin, TYPE_SOA) then Mapped(FirstOf(RRsetOf(u, k))) else []
  {
    hide CanonicalName;
    var inSet := (rr: RR) => CanonicalName(rr.name) == k.0 && rr.rrtype == k.1;
    var soas := Mapped(FirstOf(ApexSoas(u, origin)));
    ApexParts(u, origin);
    assert forall i :: 0 <= i < |soas| ==> KeyOf(soas[i]) == (origin, TYPE_SOA);
    if k == (origin, TYPE_SOA) {
      FilterSame(u, inSet, (rr: RR) => IsApexSoa(rr, origin));
      RRsetOfNone(NotApexSoas(u, origin), k);
      FilterAll(soas, inSet);
    } else {
      FilterTwice(u, (rr: RR) => !IsApexSoa(rr, origin), inSet, inSet);
      RRsetOfNone(soas, k);
    }
  }

  /** At the origin a signed zone holds the two public keys and no other DNSKEY record. */
  lemma KeysAtOrigin(records: seq<RR>, origin: string, keys: KeyPair, window: Window, signed: seq<RR>)
    requires SignableZone(records, origin, keys) && IsSigned(records, origin, keys, window, signed)
    ensures multiset(RRsetOf(signed, (origin, TYPE_DNSKEY))) == multiset(KeyRecords(records, keys))
  {
    hide CanonicalName, IsOwnerName, Base, SignsEach, IsNsecChain, Enumerates, RRsetOf;
    var order: seq<string>, chain: seq<RR>, ks: seq<Key>, sigs: seq<RR> :|
      SignedWith(records, origin, keys, window, signed, order, chain, ks, sigs);
    var base, keyRRs, k := Base(records, origin), KeyRecords(records, keys), (origin, TYPE_DNSKEY);
    SignedParts(records, origin, keys, window, signed, order, chain, ks, sigs);
    RRsetOfPermutation(signed, base + keyRRs + chain + sigs, k);
    RRsetOfFour(base, keyRRs, chain, sigs, k);
    RRsetOfNone(base, k);
    RRsetOfNone(chain, k);
    RRsetOfNone(sigs, k);
    KeysAreOneSet(keyRRs, origin);
    assert [] + keyRRs + [] + [] == keyRRs;
  }

  lemma KeysAreOneSet(keyRRs: seq<RR>, origin: string)
    requires forall i :: 0 <= i < |keyRRs| ==> KeyOf(keyRRs[i]) == (origin, TYPE_DNSKEY)
    ensures RRsetOf(keyRRs, (origin, TYPE_DNSKEY)) == keyRRs
  {
    hide CanonicalName;
    forall i | 0 <= i < |keyRRs|
      ensures CanonicalName(keyRRs[i].name) == origin && keyRRs[i].rrtype == TYPE_DNSKEY
    {
      assert KeyOf(keyRRs[i]) == (origin, TYPE_DNSKEY);
    }
    FilterAll(keyRRs, (rr: RR) => CanonicalName(rr.name) == origin && rr.rrtype == TYPE_DNSKEY);
  }

  /** The signed records at a key that is not of a signing type are the base records there. */
  lemma SignedAt(records: seq<RR>, origin: string, keys: KeyPair, window: Window, signed: seq<RR>, k: Key)
    requires SignableZone(records, origin, keys) && IsSigned(records, origin, keys, window, signed)
    requires !IsSigningType(k.1)
    ensures multiset(RRsetOf(signed, k)) == multiset(RRsetOf(Base(records, origin), k))
  {
    hide CanonicalName, IsOwnerName, Base, SignsEach, IsNsecChain, Enumerates, RRsetOf;
    var order: seq<string>, chain: seq<RR>, ks: seq<Key>, sigs: seq<RR> :|
      SignedWith(records, origin, keys, window, signed, order, chain, ks, sigs);
    var base, keyRRs := Base(records, origin), KeyRecords(records, keys);
    SignedParts(records, origin, keys, window, signed, order, chain, ks, sigs);
    RRsetOfPermutation(signed, base + keyRRs + chain + sigs, k);
    RRsetOfFour(base, keyRRs, chain, sigs, k);
    RRsetOfNone(keyRRs, k);
    RRsetOfNone(chain, k);
    RRsetOfNone(sigs, k);
    assert RRsetOf(base, k) + [] + [] + [] == RRsetOf(base, k);
  }

  lemma OwnersOfConcat(a: seq<RR>, b: seq<RR>, origin: string)
    requires ZoneOwners(a, origin) && ZoneOwners(b, origin)
    ensures ZoneOwners(a + b, origin)
  {
    hide IsOwnerName, IsNameInZone;
  }

  lemma OwnersOfPermutation(a: seq<RR>, b: seq<RR>, origin: string)
    requires ZoneOwners(a, origin) && multiset(b) == multiset(a)
    ensures ZoneOwners(b, origin)
  {
    hide IsOwnerName, IsNameInZone;
    forall i | 0 <= i < |b| ensures IsOwnerName(b[i].name) && IsNameInZone(b[i].name, origin) {
      PermutationMembers(b, a, b[i]);
      var j :| 0 <= j < |a| && a[j] == b[i];
    }
  }

  /** Every signed record has an owner name of the zone. */
  lemma SignedOwners(records: seq<RR>, origin: string, keys: KeyPair, window: Window, signed: seq<RR>)
    requires SignableZone(records, origin, keys) && IsSigned(records, origin, keys, window, signed)
    requires ZoneOwners(records, origin)
    ensures ZoneOwners(signed, origin)
  {
    hide CanonicalName, IsOwnerName, Base, SignsEach, IsNsecChain, IsNameInZone, NamesOf, Enumerates, ZoneOwners;
    var order: seq<string>, chain: seq<RR>, ks: seq<Key>, sigs: seq<RR> :|
      SignedWith(records, origin, keys, window, signed, order, chain, ks, sigs);
    var base, keyRRs, ttl := Base(records, origin), KeyRecords(records, keys), ZoneTtl(Unsigned(records));
    BaseOwners(records, origin);
    KeyOwners(keyRRs, origin);
    ChainOwners(chain, order, base, origin, ttl);
    OwnersOfConcat(base, keyRRs, origin);
    OwnersOfConcat(base + keyRRs, chain, origin);
    SignatureOwners(sigs, ks, base + keyRRs + chain, origin, keys, ttl, window);
    OwnersOfConcat(base + keyRRs + chain, sigs, origin);
    OwnersOfPermutation(base + keyRRs + chain + sigs, signed, origin);
  }

  lemma KeyOwners(keyRRs: seq<RR>, origin: string)
    requires |keyRRs| == 2 && keyRRs[0].name == origin && keyRRs[1].name == origin && IsOwnerName(origin)
    ensures ZoneOwners(keyRRs, origin)
  {
    hide NormalizeName, IsOwnerName;
    MembershipOfNormalForms(origin, origin);
  }

  lemma BaseOwners(records: seq<RR>, origin: string)
    requires ZoneOwners(records, origin)
    ensures ZoneOwners(Base(records, origin), origin)
  {
    hide Base, IsOwnerName, IsNameInZone;
    var base := Base(records, origin);
    BaseRecords(records, origin);
    forall i | 0 <= i < |base| ensures IsOwnerName(base[i].name) && IsNameInZone(base[i].name, origin) {
      var rr: RR :| rr in records && rr.name == base[i].name;
      var j :| 0 <= j < |records| && records[j] == rr;
    }
  }

  lemma ChainOwners(chain: seq<RR>, order: seq<string>, base: seq<RR>, origin: string, ttl: Word32)
    requires IsNsecChain(chain, order, ChainTypes(base, origin), ttl)
    requires IsOwnerName(origin) && CanonicalName(origin) == origin
    requires ZoneOwners(base, origin)
    ensures ZoneOwners(chain, origin)
  {
    hide CanonicalName, IsOwnerName, IsNameInZone, NormalizeName, TypesAt;
    forall i | 0 <= i < |chain| ensures IsOwnerName(chain[i].name) && IsNameInZone(chain[i].name, origin) {
      var n := order[i];
      assert IsLink(chain[i], order, i, ChainTypes(base, origin)[n], ttl);
      if n == origin {
        MembershipOfNormalForms(origin, origin);
      } else {
        var rr: RR :| rr in base && CanonicalName(rr.name) == n;
        var j :| 0 <= j < |base| && base[j] == rr;
        CanonicalIsNormal(rr.name);
        MembershipOfNormalForms(rr.name, origin);
      }
    }
  }

  lemma SignatureOwners(sigs: seq<RR>, ks: seq<Key>, all: seq<RR>, origin: string, keys: KeyPair, ttl: Word32,
                        window: Window)
    requires SignsEach(sigs, ks, all, origin, keys, ttl, window)
    requires ZoneOwners(all, origin)
    ensures ZoneOwners(sigs, origin)
  {
    hide CanonicalName, IsOwnerName, IsNameInZone;
    forall i | 0 <= i < |sigs| ensures IsOwnerName(sigs[i].name) && IsNameInZone(sigs[i].name, origin) {
      var k := ks[i];
      var rrset: seq<RR> :| |rrset| > 0 && multiset(rrset) == multiset(RRsetOf(all, k))
        && SignRRset(SignerFor(keys, k.1), rrset, origin, ttl, window) == Some(sigs[i]);
      PermutationMembers(rrset, RRsetOf(all, k), rrset[0]);
      var j :| 0 <= j < |all| && all[j] == rrset[0];
    }
  }

  /** One signing step at one name and type, before unsigning. */
  lemma SignStepAt(z: Zone, origin: string, keys: KeyPair, window: Window, next: Zone, n: string, t: Word16)
    requires Signable(z, origin, keys) && SignStep(z, origin, keys, window, next)
    requires !IsNameInZone(n, origin) || !IsSigningType(t)
    ensures multiset(RRset(next, n, t)) == multiset(Expected(z, origin, n, t))
  {
    hide NormalizeName, CanonicalName, IsOwnerName, IsNameInZone, IsSigned, Sound, At, RRsetOf, Base, InsertedAll;
    var records: seq<RR>, signed: seq<RR> :|
      Collected(z, origin, records) && IsSigned(records, origin, keys, window, signed)
      && next == InsertedAll(WithoutZone(z, origin), signed);
    CollectedOwnerNamed(z, origin, records);
    SignedOwners(records, origin, keys, window, signed);
    RRsetInsertedAll(WithoutZone(z, origin), signed, n, t);
    AtIsRRsetOf(signed, n, t);
    AtIsRRsetOf(records, n, t);
    if IsNameInZone(n, origin) {
      assert RRset(WithoutZone(z, origin), n, t) == [];
      SignedAt(records, origin, keys, window, signed, (n, t));
      BaseAt(records, origin, (n, t));
      assert [] + At(signed, n, t) == At(signed, n, t);
    } else {
      NoneOutside(signed, origin, n, t);
      assert RRset(WithoutZone(z, origin), n, t) + [] == RRset(z, n, t);
    }
  }

  /** After signing the origin holds exactly the two public keys. */
  lemma SignStepSetsKeys(z: Zone, origin: string, keys: KeyPair, window: Window, next: Zone)
    requires Signable(z, origin, keys) && SignStep(z, origin, keys, window, next)
    ensures |RRset(next, origin, TYPE_DNSKEY)| == 2
  {
    hide NormalizeName, CanonicalName, IsOwnerName, IsNameInZone, IsSigned, Sound, At, RRsetOf, InsertedAll;
    var records: seq<RR>, signed: seq<RR> :|
      Collected(z, origin, records) && IsSigned(records, origin, keys, window, signed)
      && next == InsertedAll(WithoutZone(z, origin), signed);
    CollectedOwnerNamed(z, origin, records);
    SignedOwners(records, origin, keys, window, signed);
    RRsetInsertedAll(WithoutZone(z, origin), signed, origin, TYPE_DNSKEY);
    MembershipOfNormalForms(origin, origin);
    AtIsRRsetOf(signed, origin, TYPE_DNSKEY);
    KeysAtOrigin(records, origin, keys, window, signed);
    var found := RRsetOf(signed, (origin, TYPE_DNSKEY));
    assert |found| == |multiset(found)| == 2;
    assert RRset(WithoutZone(z, origin), origin, TYPE_DNSKEY) == [] && [] + found == found;
  }

  lemma NoneOutside(rrs: seq<RR>, origin: string, n: string, t: Word16)
    requires !IsNameInZone(n, origin)
    requires forall i :: 0 <= i < |rrs| ==> IsNameInZone(rrs[i].name, origin)
    ensures At(rrs, n, t) == []
  {
    hide NormalizeName, IsNameInZone;
    forall i | 0 <= i < |rrs| ensures NormalizeName(rrs[i].name) != n {
      MembershipOfNormalForms(rrs[i].name, origin);
    }
    FilterNone(rrs, (rr: RR) => NormalizeName(rr.name) == n && rr.rrtype == t);
  }

  /** Unsigning a signed zone restores every record list, up to order and to the apex SOA. */
  lemma SignThenStrip(z: Zone, origin: string, keys: KeyPair, window: Window, next: Zone, n: string, t: Word16)
    requires Signable(z, origin, keys) && SignStep(z, origin, keys, window, next)
    ensures multiset(RRset(Stripped(next, origin), n, t)) == multiset(Expected(z, origin, n, t))
  {
    hide Signable, SignStep, IsNameInZone, Stripped;
    RRsetStripped(next, origin, n, t);
    if !IsNameInZone(n, origin) || !IsSigningType(t) {
      SignStepAt(z, origin, keys, window, next, n, t);
    }
  }

  /** b is the record a with nothing changed but the serial, which is one higher modulo 2^32. */
  predicate OnlySerialRaised(a: RR, b: RR) {
    && b.name == a.name && b.rrtype == a.rrtype && b.rclass == a.rclass && b.ttl == a.ttl
    && if a.data.SOA? then
         var f := a.data.soa;
         b.data == SOA(SoaFields(f.ns, f.mbox, (f.serial + 1) % 0x1_0000_0000, f.refresh, f.retry, f.expire, f.minttl))
       else b.data == a.data
  }

  /** The same by types and fields: outside the three signing types (numbers 46 to 48 of the registry) and the SOA of
      the origin every list is back; of the SOA records the first is, with its serial raised. */
  lemma SignThenStripRestores(z: Zone, origin: string, keys: KeyPair, window: Window, next: Zone, n: string, t: Word16)
    requires Signable(z, origin, keys) && SignStep(z, origin, keys, window, next)
    ensures var (was, back) := (RRset(z, n, t), RRset(Stripped(next, origin), n, t));
      if IsNameInZone(n, origin) && 46 <= t <= 48 then back == []
      else if n == origin && t == 6 then
        |back| == (if was == [] then 0 else 1) && (was != [] ==> OnlySerialRaised(was[0], back[0]))
      else multiset(back) == multiset(was)
  {
    hide Signable, SignStep, IsNameInZone, Stripped;
    SignThenStrip(z, origin, keys, window, next, n, t);
    MembershipOfNormalForms(origin, origin);
    var back, expected := RRset(Stripped(next, origin), n, t), Expected(z, origin, n, t);
    if |expected| <= 1 {
      AtMostOne(back, expected);
    }
    if IsSigningType(t) && IsNameInZone(n, origin) {
      assert expected == [];
    }
  }

  /** A signed zone can be signed again. */
  lemma SignStepKeepsSignable(z: Zone, origin: string, keys: KeyPair, window: Window, next: Zone)
    requires Signable(z, origin, keys) && SignStep(z, origin, keys, window, next)
    ensures Signable(next, origin, keys)
  {
    hide NormalizeName, CanonicalName, IsOwnerName, IsNameInZone, IsSigned, Sound, InsertedAll, At;
    var records: seq<RR>, signed: seq<RR> :|
      Collected(z, origin, records) && IsSigned(records, origin, keys, window, signed)
      && next == InsertedAll(WithoutZone(z, origin), signed);
    CollectedOwnerNamed(z, origin, records);
    SignedOwners(records, origin, keys, window, signed);
    WithoutZoneIsSound(z, origin);
    InsertedAllIsSound(WithoutZone(z, origin), signed);
    forall n: string, t: Word16 | IsNameInZone(n, origin) ensures OwnerNamed(RRset(next, n, t)) {
      RRsetInsertedAll(WithoutZone(z, origin), signed, n, t);
      assert RRset(WithoutZone(z, origin), n, t) + At(signed, n, t) == At(signed, n, t);
      OwnerNamedAt(signed, n, t);
    }
  }

  lemma OwnerNamedAt(rrs: seq<RR>, n: string, t: Word16)
    requires OwnerNamed(rrs)
    ensures OwnerNamed(At(rrs, n, t))
  {
    hide NormalizeName, IsOwnerName;
    var found := At(rrs, n, t);
    forall i | 0 <= i < |found| ensures IsOwnerName(found[i].name) {
      assert found[i] in found;
      var j :| 0 <= j < |rrs| && rrs[j] == found[i];
    }
  }

  /** Signing a second time only raises the serial once more. */
  lemma SignTwiceThenStrip(z: Zone, origin: string, keys: KeyPair, w1: Window, w2: Window, once: Zone, twice: Zone,
                           n: string, t: Word16)
    requires Signable(z, origin, keys)
    requires SignStep(z, origin, keys, w1, once) && SignStep(once, origin, keys, w2, twice)
    ensures multiset(RRset(Stripped(twice, origin), n, t))
         == multiset(if IsNameInZone(n, origin) && n == origin && t == TYPE_SOA
                     then Mapped(Expected(z, origin, n, t)) else Expected(z, origin, n, t))
  {
    hide Signable, SignStep, IsNameInZone, Stripped;
    SignStepKeepsSignable(z, origin, keys, w1, once);
    SignThenStrip(once, origin, keys, w2, twice, n, t);
    if !IsNameInZone(n, origin) || !IsSigningType(t) {
      SignStepAt(z, origin, keys, w1, once, n, t);
      if IsNameInZone(n, origin) && n == origin && t == TYPE_SOA {
        AtMostOne(RRset(once, n, t), Mapped(FirstOf(RRset(z, n, t))));
      }
    }
  }

  lemma AtMostOne(a: seq<RR>, b: seq<RR>)
    requires multiset(a) == multiset(b) && |b| <= 1
    ensures a == b && FirstOf(a) == a
  {
    assert |a| == |multiset(a)| == |multiset(b)| == |b|;
    if |b| == 1 {
      assert a[0] in multiset(a) && b == [b[0]];
    }
  }

  /** a is less than b in serial number arithmetic (section 3.2 of RFC 1982). */
  predicate SerialLess(a: Word32, b: Word32) {
    (a < b && b - a < 0x8000_0000) || (a > b && a - b > 0x8000_0000)
  }

  lemma RaisedSerialIsGreater(serial: Word32)
    ensures SerialLess(serial, RaisedSerial(serial)) && !SerialLess(RaisedSerial(serial), serial)
  {
  }
}
