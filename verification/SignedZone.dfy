/** What a signed zone looks like: one NSEC record per owner name, closed into a single circle; bitmaps
    that list the types really present; one signature per record set, by the right key. */
module SignedZone {
  import opened Wrappers
  import opened Names
  import opened Records
  import opened Filters
  import opened Signer

  /** Owner names as the DNS library delivers them, of the zone and its keys. */
  predicate OwnerNamed(records: seq<RR>) {
    forall i :: 0 <= i < |records| ==> IsOwnerName(records[i].name)
  }

  predicate SignableZone(records: seq<RR>, origin: string, keys: KeyPair) {
    OwnerNamed(records) && IsOwnerName(origin) && CanonicalName(origin) == origin && KeysOwnedBy(keys, origin)
  }

  // ---------------------------------------------------------------- the parts of a signed zone

  lemma CanonicalOwners(records: seq<RR>)
    requires OwnerNamed(records)
    ensures forall n <- NamesOf(records) :: CanonicalName(n) == n && IsOwnerName(n) && NormalizeName(n) == n
  {
    forall n | n in NamesOf(records) ensures CanonicalName(n) == n && IsOwnerName(n) && NormalizeName(n) == n {
      var rr: RR :| rr in records && CanonicalName(rr.name) == n;
      CanonicalIsNormal(rr.name);
      CanonicalIsNormal(n);
    }
  }

  /** The record a base record comes from: it has the same owner and type, and the type is no signing type. */
  lemma SourceOf(records: seq<RR>, origin: string, i: nat) returns (rr: RR)
    requires i < |Base(records, origin)|
    ensures rr in records && rr.name == Base(records, origin)[i].name && rr.rrtype == Base(records, origin)[i].rrtype
    ensures !IsSigningType(rr.rrtype)
  {
    var u := Unsigned(records);
    ApexParts(u, origin);
    var others, soas := NotApexSoas(u, origin), FirstOf(ApexSoas(u, origin));
    rr := if i < |others| then others[i] else soas[i - |others|];
    assert rr in u && rr in records;
    assert Base(records, origin)[i] == if i < |others| then rr else Raised(rr);
  }

  /** The base records carry no signing type and keep the owner names of the originals. */
  lemma BaseRecords(records: seq<RR>, origin: string)
    ensures var base := Base(records, origin);
      forall i :: 0 <= i < |base| ==>
        !IsSigningType(base[i].rrtype) && exists rr <- records :: rr.name == base[i].name && rr.rrtype == base[i].rrtype
  {
    hide Base;
    var base := Base(records, origin);
    forall i | 0 <= i < |base|
      ensures !IsSigningType(base[i].rrtype)
      ensures exists rr <- records :: rr.name == base[i].name && rr.rrtype == base[i].rrtype
    {
      var rr := SourceOf(records, origin, i);
    }
  }

  lemma BaseIsOwnerNamed(records: seq<RR>, origin: string)
    requires OwnerNamed(records)
    ensures OwnerNamed(Base(records, origin))
  {
    hide Base, IsOwnerName;
    forall i | 0 <= i < |Base(records, origin)| ensures IsOwnerName(Base(records, origin)[i].name) {
      var rr := SourceOf(records, origin, i);
      var j :| 0 <= j < |records| && records[j] == rr;
      assert IsOwnerName(records[j].name);
    }
  }

  /** Facts shared by all results below: canonical owner names and types of the four parts. */
  ghost predicate PartsFit(base: seq<RR>, keyRRs: seq<RR>, chain: seq<RR>, sigs: seq<RR>, origin: string,
                           order: seq<string>) {
    && (forall i :: 0 <= i < |base| ==> !IsSigningType(base[i].rrtype))
    && |keyRRs| == 2 && (forall i :: 0 <= i < 2 ==> KeyOf(keyRRs[i]) == (origin, TYPE_DNSKEY))
    && |chain| == |order| && (forall i :: 0 <= i < |chain| ==> KeyOf(chain[i]) == (order[i], TYPE_NSEC))
    && (forall i :: 0 <= i < |sigs| ==> sigs[i].rrtype == TYPE_RRSIG)
    && Enumerates(order, NamesOf(base) + {origin})
  }

  function KeyRecords(records: seq<RR>, keys: KeyPair): seq<RR> {
    var ttl := ZoneTtl(Unsigned(records));
    [WithTtl(keys.ksk.dnskey, ttl), WithTtl(keys.zsk.dnskey, ttl)]
  }

  lemma SignedParts(records: seq<RR>, origin: string, keys: KeyPair, window: Window, signed: seq<RR>,
                    order: seq<string>, chain: seq<RR>, ks: seq<Key>, sigs: seq<RR>)
    requires SignableZone(records, origin, keys)
    requires SignedWith(records, origin, keys, window, signed, order, chain, ks, sigs)
    ensures PartsFit(Base(records, origin), KeyRecords(records, keys), chain, sigs, origin, order)
    ensures multiset(signed) == multiset(Base(records, origin) + KeyRecords(records, keys) + chain + sigs)
  {
    hide CanonicalName, IsOwnerName, Base, IsSignatureFor;
    var base := Base(records, origin);
    BaseRecords(records, origin);
    BaseIsOwnerNamed(records, origin);
    CanonicalOwners(base);
    assert ChainTypes(base, origin).Keys == NamesOf(base) + {origin};
    forall i | 0 <= i < |chain| ensures KeyOf(chain[i]) == (order[i], TYPE_NSEC) {
      assert order[i] in order;
    }
    var all := ToSign(records, origin, keys, chain);
    forall i | 0 <= i < |sigs| ensures sigs[i].rrtype == TYPE_RRSIG {
      assert IsSignatureFor(sigs[i], ks[i], all, origin, keys, ZoneTtl(Unsigned(records)), window);
      SignatureShape(sigs[i], ks[i], all, origin, keys, ZoneTtl(Unsigned(records)), window);
    }
  }

  /** A signature carries the type RRSIG, the canonical owner name of its set and the covered type. */
  lemma SignatureShape(sig: RR, k: Key, all: seq<RR>, origin: string, keys: KeyPair, ttl: Word32, window: Window)
    requires IsSignatureFor(sig, k, all, origin, keys, ttl, window)
    ensures sig.rrtype == TYPE_RRSIG && CanonicalName(sig.name) == k.0
    ensures sig.data.RRSIG? && sig.data.sig.covered == k.1 && sig.data.sig.signer == origin
  {
    hide CanonicalName, RRsetOf;
    var rrset :| |rrset| > 0 && multiset(rrset) == multiset(RRsetOf(all, k))
      && SignRRset(SignerFor(keys, k.1), rrset, origin, ttl, window) == Some(sig);
    KeyOfMembers(all, k, rrset);
  }

  lemma RRsetOfConcat(a: seq<RR>, b: seq<RR>, k: Key)
    ensures RRsetOf(a + b, k) == RRsetOf(a, k) + RRsetOf(b, k)
  {
    FilterOfConcat(a, b, (rr: RR) => CanonicalName(rr.name) == k.0 && rr.rrtype == k.1);
  }

  lemma RRsetOfFour(a: seq<RR>, b: seq<RR>, c: seq<RR>, d: seq<RR>, k: Key)
    ensures RRsetOf(a + b + c + d, k) == RRsetOf(a, k) + RRsetOf(b, k) + RRsetOf(c, k) + RRsetOf(d, k)
  {
    RRsetOfConcat(a + b + c, d, k);
    RRsetOfConcat(a + b, c, k);
    RRsetOfConcat(a, b, k);
  }

  lemma RRsetOfNone(a: seq<RR>, k: Key)
    requires forall i :: 0 <= i < |a| ==> KeyOf(a[i]) != k
    ensures RRsetOf(a, k) == []
  {
    hide CanonicalName;
    forall i | 0 <= i < |a| ensures !(CanonicalName(a[i].name) == k.0 && a[i].rrtype == k.1) {
      assert KeyOf(a[i]) != k;
    }
    FilterNone(a, (rr: RR) => CanonicalName(rr.name) == k.0 && rr.rrtype == k.1);
  }

  // ---------------------------------------------------------------- one circle of NSEC records

  /** The name that the only NSEC record at n points to, if there is exactly one. */
  function NextName(signed: seq<RR>, n: string): Option<string> {
    var found := RRsetOf(signed, (n, TYPE_NSEC));
    if |found| == 1 && found[0].data.NSEC? then Some(found[0].data.next) else None
  }

  /** Listing order once through visits every owner name of the zone; each has one NSEC record, which
      points to the following name and, at the end, back to the first. */
  ghost predicate IsCircle(signed: seq<RR>, order: seq<string>) {
    && Enumerates(order, NamesOf(signed))
    && forall i :: 0 <= i < |order| ==> NextName(signed, order[i]) == Some(NextOf(order, i))
  }

  lemma NamesOfSigned(base: seq<RR>, keyRRs: seq<RR>, chain: seq<RR>, sigs: seq<RR>, origin: string,
                      order: seq<string>, signed: seq<RR>)
    requires PartsFit(base, keyRRs, chain, sigs, origin, order)
    requires multiset(signed) == multiset(base + keyRRs + chain + sigs)
    requires forall i :: 0 <= i < |sigs| ==> CanonicalName(sigs[i].name) in NamesOf(base + keyRRs + chain)
    ensures NamesOf(signed) == NamesOf(base) + {origin}
  {
    hide CanonicalName, Enumerates;
    var all := base + keyRRs + chain;
    forall x ensures x in signed <==> x in all + sigs { PermutationMembers(signed, all + sigs, x); }
    forall n | n in NamesOf(all) ensures n in NamesOf(base) + {origin} {
      var rr: RR :| rr in all && CanonicalName(rr.name) == n;
      if rr in chain {
        var i :| 0 <= i < |chain| && chain[i] == rr;
        EnumeratesMember(order, NamesOf(base) + {origin}, i);
        assert KeyOf(chain[i]).0 == n;
      } else if rr in keyRRs {
        var i :| 0 <= i < 2 && keyRRs[i] == rr;
        assert KeyOf(keyRRs[i]).0 == n;
      }
    }
    forall n | n in NamesOf(signed) ensures n in NamesOf(base) + {origin} {
      var rr: RR :| rr in signed && CanonicalName(rr.name) == n;
      if rr in sigs {
        var i :| 0 <= i < |sigs| && sigs[i] == rr;
      }
    }
    assert KeyOf(keyRRs[0]).0 == origin && keyRRs[0] in signed;
    forall n | n in NamesOf(base) ensures n in NamesOf(signed) {
      var rr: RR :| rr in base && CanonicalName(rr.name) == n;
      assert rr in signed;
    }
  }

  lemma SignaturesAtNames(sigs: seq<RR>, ks: seq<Key>, all: seq<RR>, origin: string, keys: KeyPair, ttl: Word32,
                          window: Window)
    requires SignsEach(sigs, ks, all, origin, keys, ttl, window)
    ensures forall i :: 0 <= i < |sigs| ==> CanonicalName(sigs[i].name) in NamesOf(all)
  {
    hide CanonicalName, Enumerates;
    forall i | 0 <= i < |sigs| ensures CanonicalName(sigs[i].name) in NamesOf(all) {
      SignatureShape(sigs[i], ks[i], all, origin, keys, ttl, window);
      EnumeratesMember(ks, KeysOf(all), i);
    }
  }

  lemma CircleOfChain(records: seq<RR>, origin: string, keys: KeyPair, window: Window, signed: seq<RR>,
                      order: seq<string>, chain: seq<RR>, ks: seq<Key>, sigs: seq<RR>)
    requires SignableZone(records, origin, keys)
    requires SignedWith(records, origin, keys, window, signed, order, chain, ks, sigs)
    ensures IsCircle(signed, order)
  {
    hide CanonicalName, IsOwnerName, Base, SignsEach;
    var base, keyRRs := Base(records, origin), KeyRecords(records, keys);
    SignedParts(records, origin, keys, window, signed, order, chain, ks, sigs);
    SignaturesAtNames(sigs, ks, base + keyRRs + chain, origin, keys, ZoneTtl(Unsigned(records)), window);
    NamesOfSigned(base, keyRRs, chain, sigs, origin, order, signed);
    forall i | 0 <= i < |order| ensures NextName(signed, order[i]) == Some(NextOf(order, i)) {
      NsecAt(base, keyRRs, chain, sigs, origin, order, signed, i);
    }
  }

  /** The NSEC records of a signed zone form one circle through every owner name, whatever order the
      sort produced. */
  lemma NsecCircle(records: seq<RR>, origin: string, keys: KeyPair, window: Window, signed: seq<RR>)
    requires SignableZone(records, origin, keys)
    requires IsSigned(records, origin, keys, window, signed)
    ensures exists order :: IsCircle(signed, order)
  {
    hide SignedWith, IsCircle;
    var order: seq<string>, chain: seq<RR>, ks: seq<Key>, sigs: seq<RR> :|
      SignedWith(records, origin, keys, window, signed, order, chain, ks, sigs);
    CircleOfChain(records, origin, keys, window, signed, order, chain, ks, sigs);
  }

  lemma ChainAt(chain: seq<RR>, order: seq<string>, i: nat)
    requires |chain| == |order| && i < |order| && Distinct(order)
    requires forall j :: 0 <= j < |chain| ==> KeyOf(chain[j]) == (order[j], TYPE_NSEC)
    ensures RRsetOf(chain, (order[i], TYPE_NSEC)) == [chain[i]]
  {
    hide CanonicalName;
    var k := (order[i], TYPE_NSEC);
    forall j | 0 <= j < |chain|
      ensures (CanonicalName(chain[j].name) == k.0 && chain[j].rrtype == k.1) <==> j == i
    {
      assert KeyOf(chain[j]) == (order[j], TYPE_NSEC);
    }
    FilterOnly(chain, (rr: RR) => CanonicalName(rr.name) == k.0 && rr.rrtype == k.1, i);
  }

  lemma RRsetOfPermutation(a: seq<RR>, b: seq<RR>, k: Key)
    requires multiset(a) == multiset(b)
    ensures multiset(RRsetOf(a, k)) == multiset(RRsetOf(b, k))
    ensures |RRsetOf(b, k)| == 1 ==> RRsetOf(a, k) == RRsetOf(b, k)
  {
    FilterOfPermutation(a, b, (rr: RR) => CanonicalName(rr.name) == k.0 && rr.rrtype == k.1);
    var ra, rb := RRsetOf(a, k), RRsetOf(b, k);
    if |rb| == 1 {
      assert rb == [rb[0]] && ra == [ra[0]];
      assert ra[0] in multiset(ra);
    }
  }

  lemma NsecAt(base: seq<RR>, keyRRs: seq<RR>, chain: seq<RR>, sigs: seq<RR>, origin: string, order: seq<string>,
               signed: seq<RR>, i: nat)
    requires PartsFit(base, keyRRs, chain, sigs, origin, order) && i < |order|
    requires multiset(signed) == multiset(base + keyRRs + chain + sigs)
    ensures RRsetOf(signed, (order[i], TYPE_NSEC)) == [chain[i]]
  {
    hide RRsetOf, CanonicalName;
    var k := (order[i], TYPE_NSEC);
    RRsetOfFour(base, keyRRs, chain, sigs, k);
    RRsetOfNone(base, k);
    RRsetOfNone(keyRRs, k);
    RRsetOfNone(sigs, k);
    ChainAt(chain, order, i);
    assert RRsetOf(base + keyRRs + chain + sigs, k) == [chain[i]];
    RRsetOfPermutation(signed, base + keyRRs + chain + sigs, k);
  }

  /** Where following the next pointers k times leads. */
  function Follow(signed: seq<RR>, n: string, k: nat): Option<string>
    decreases k
  {
    if k == 0 then Some(n)
    else match NextName(signed, n)
      case None => None
      case Some(next) => Follow(signed, next, k - 1)
  }

  /** Starting anywhere, the walk meets the names of the circle in turn. */
  lemma {:induction false} FollowCircle(signed: seq<RR>, order: seq<string>, i: nat, k: nat)
    requires IsCircle(signed, order) && i < |order| && i + k <= |order|
    ensures Follow(signed, order[i], k) == Some(if i + k < |order| then order[i + k] else order[0])
    decreases k
  {
    hide NextName, Enumerates;
    if k > 0 && i + 1 < |order| {
      FollowCircle(signed, order, i + 1, k - 1);
    }
  }

  ghost predicate ReachedWithin(signed: seq<RR>, start: string, bound: nat, n: string) {
    exists k: nat :: k < bound && Follow(signed, start, k) == Some(n)
  }

  /** From the first name of the circle every owner name is reached in fewer steps than there are names,
      and exactly that many steps lead back. */
  lemma FollowVisitsAll(signed: seq<RR>, order: seq<string>)
    requires IsCircle(signed, order) && |order| > 0
    ensures forall n :: n in NamesOf(signed) ==> ReachedWithin(signed, order[0], |order|, n)
    ensures Follow(signed, order[0], |order|) == Some(order[0])
  {
    hide NextName, NamesOf, Follow;
    FollowCircle(signed, order, 0, |order|);
    forall n | n in NamesOf(signed) ensures ReachedWithin(signed, order[0], |order|, n) {
      assert n in order;
      var k: nat :| k < |order| && order[k] == n;
      FollowCircle(signed, order, 0, k);
    }
  }

  // ---------------------------------------------------------------- type bitmaps

  /** The types in the bitmap of the NSEC record at n. */
  function BitmapAt(signed: seq<RR>, n: string): seq<Word16> {
    var found := RRsetOf(signed, (n, TYPE_NSEC));
    if |found| == 1 && found[0].data.NSEC? then found[0].data.types else []
  }

  predicate BitmapIsExact(signed: seq<RR>, n: string) {
    forall t: Word16 :: t in BitmapAt(signed, n) <==> t in TypesAt(signed, n)
  }

  /** The types present at a name of the signed zone. */
  lemma TypesOfSigned(records: seq<RR>, origin: string, keys: KeyPair, window: Window, signed: seq<RR>,
                      order: seq<string>, chain: seq<RR>, ks: seq<Key>, sigs: seq<RR>, n: string)
    requires SignableZone(records, origin, keys) && n in NamesOf(signed)
    requires SignedWith(records, origin, keys, window, signed, order, chain, ks, sigs)
    ensures TypesAt(signed, n) == TypesAt(Base(records, origin), n) + {TYPE_NSEC, TYPE_RRSIG}
              + if n == origin then {TYPE_DNSKEY} else {}
  {
    hide CanonicalName, IsOwnerName, Base, SignsEach, Enumerates, IsNsecChain, TypesAt, NamesOf, IsSigningType;
    var base, keyRRs := Base(records, origin), KeyRecords(records, keys);
    var all := base + keyRRs + chain;
    SignedParts(records, origin, keys, window, signed, order, chain, ks, sigs);
    SignaturesAtNames(sigs, ks, all, origin, keys, ZoneTtl(Unsigned(records)), window);
    NamesOfSigned(base, keyRRs, chain, sigs, origin, order, signed);
    TypesOfPermutation(signed, all + sigs, n);
    TypesOfConcat(all, sigs, n);
    TypesOfConcat(base + keyRRs, chain, n);
    TypesOfConcat(base, keyRRs, n);
    TypesOfKind(keyRRs, TYPE_DNSKEY, n);
    TypesOfKind(chain, TYPE_NSEC, n);
    TypesOfKind(sigs, TYPE_RRSIG, n);
    NamesOfKeys(keyRRs, origin);
    NamesOfChain(chain, order, NamesOf(base) + {origin});
    SignatureAtEveryName(sigs, ks, all, origin, keys, ZoneTtl(Unsigned(records)), window, n, order, chain);
  }

  lemma TypesOfPermutation(a: seq<RR>, b: seq<RR>, n: string)
    requires multiset(a) == multiset(b)
    ensures TypesAt(a, n) == TypesAt(b, n) && NamesOf(a) == NamesOf(b)
  {
    hide CanonicalName;
    forall x ensures x in a <==> x in b { PermutationMembers(a, b, x); }
  }

  lemma TypesOfConcat(a: seq<RR>, b: seq<RR>, n: string)
    ensures TypesAt(a + b, n) == TypesAt(a, n) + TypesAt(b, n)
    ensures NamesOf(a + b) == NamesOf(a) + NamesOf(b)
  {
    hide CanonicalName;
    assert forall x :: x in a + b <==> x in a || x in b;
  }

  lemma TypesOfKind(a: seq<RR>, qtype: Word16, n: string)
    requires forall i :: 0 <= i < |a| ==> a[i].rrtype == qtype
    ensures TypesAt(a, n) == if n in NamesOf(a) then {qtype} else {}
  {
    hide CanonicalName;
    forall rr: RR | rr in a ensures rr.rrtype == qtype {
      var i :| 0 <= i < |a| && a[i] == rr;
    }
  }

  lemma NamesOfKeys(keyRRs: seq<RR>, origin: string)
    requires |keyRRs| == 2 && forall i :: 0 <= i < 2 ==> KeyOf(keyRRs[i]) == (origin, TYPE_DNSKEY)
    ensures NamesOf(keyRRs) == {origin}
  {
    hide CanonicalName;
    assert keyRRs[0] in keyRRs && KeyOf(keyRRs[0]).0 == origin;
    forall rr: RR | rr in keyRRs ensures CanonicalName(rr.name) == origin {
      var i :| 0 <= i < |keyRRs| && keyRRs[i] == rr;
      assert KeyOf(keyRRs[i]).0 == origin;
    }
  }

  lemma NamesOfChain(chain: seq<RR>, order: seq<string>, names: set<string>)
    requires |chain| == |order| && Enumerates(order, names)
    requires forall i :: 0 <= i < |chain| ==> KeyOf(chain[i]) == (order[i], TYPE_NSEC)
    ensures NamesOf(chain) == names
  {
    hide CanonicalName;
    forall n | n in names ensures n in NamesOf(chain) {
      assert n in order;
      var i :| 0 <= i < |order| && order[i] == n;
      assert chain[i] in chain && KeyOf(chain[i]).0 == n;
    }
    forall n | n in NamesOf(chain) ensures n in names {
      var rr: RR :| rr in chain && CanonicalName(rr.name) == n;
      var i :| 0 <= i < |chain| && chain[i] == rr;
      assert KeyOf(chain[i]).0 == order[i] && order[i] in order;
    }
  }

  /** Every name of the zone has an NSEC record, hence a signature over it. */
  lemma SignatureAtEveryName(sigs: seq<RR>, ks: seq<Key>, all: seq<RR>, origin: string, keys: KeyPair, ttl: Word32,
                             window: Window, n: string, order: seq<string>, chain: seq<RR>)
    requires SignsEach(sigs, ks, all, origin, keys, ttl, window)
    requires n in NamesOf(chain) && (forall i :: 0 <= i < |chain| ==> chain[i].rrtype == TYPE_NSEC)
    requires forall rr <- chain :: rr in all
    ensures n in NamesOf(sigs)
  {
    hide CanonicalName;
    var rr: RR :| rr in chain && CanonicalName(rr.name) == n;
    var j :| 0 <= j < |chain| && chain[j] == rr;
    assert KeyOf(rr) in KeysOf(all) && KeyOf(rr) in ks;
    var i :| 0 <= i < |ks| && ks[i] == KeyOf(rr);
    SignatureShape(sigs[i], ks[i], all, origin, keys, ttl, window);
    assert sigs[i] in sigs;
  }

  /** The origin owns a record that is not added by signing. */
  predicate OwnsRecord(records: seq<RR>, origin: string) {
    exists rr <- records :: !IsSigningType(rr.rrtype) && CanonicalName(rr.name) == origin
  }

  lemma BaseOwnsOrigin(records: seq<RR>, origin: string)
    ensures origin in NamesOf(Base(records, origin)) <==> OwnsRecord(records, origin)
  {
    hide CanonicalName;
    var u, base := Unsigned(records), Base(records, origin);
    var others, soas := NotApexSoas(u, origin), ApexSoas(u, origin);
    if OwnsRecord(records, origin) {
      var rr: RR :| rr in records && !IsSigningType(rr.rrtype) && CanonicalName(rr.name) == origin;
      FilterHas(records, (rr: RR) => !IsSigningType(rr.rrtype), rr);
      FilterHas(u, (rr: RR) => IsApexSoa(rr, origin), rr);
      FilterHas(u, (rr: RR) => !IsApexSoa(rr, origin), rr);
      if rr in others {
        assert rr in base;
      } else {
        assert soas[0] in soas && base[|others|] == Raised(soas[0]);
        assert Raised(soas[0]) in base;
      }
    }
    if origin in NamesOf(base) {
      var rr: RR :| rr in base && CanonicalName(rr.name) == origin;
      var i :| 0 <= i < |base| && base[i] == rr;
      BaseRecords(records, origin);
      var source: RR :| source in records && source.name == rr.name && source.rrtype == rr.rrtype;
    }
  }

  lemma BitmapFromChain(base: seq<RR>, keyRRs: seq<RR>, chain: seq<RR>, sigs: seq<RR>, origin: string,
                        order: seq<string>,
                        ttl: Word32, signed: seq<RR>, n: string)
    requires PartsFit(base, keyRRs, chain, sigs, origin, order)
    requires multiset(signed) == multiset(base + keyRRs + chain + sigs)
    requires IsNsecChain(chain, order, ChainTypes(base, origin), ttl)
    requires n in NamesOf(base) + {origin}
    ensures n in ChainTypes(base, origin) && Ascending(BitmapAt(signed, n))
    ensures forall t: Word16 :: t in BitmapAt(signed, n) <==> t in ChainTypes(base, origin)[n]
  {
    hide NamesOf, TypesAt, ChainTypes, RRsetOf, KeyOf, IsSigningType;
    assert n in order;
    var i :| 0 <= i < |order| && order[i] == n;
    NsecAt(base, keyRRs, chain, sigs, origin, order, signed, i);
    assert IsLink(chain[i], order, i, ChainTypes(base, origin)[n], ttl);
  }

  /** Each bitmap is strictly ascending; it is exact at every name but the origin, and at the origin
      exactly when the origin owns a record that is not added by signing. */
  lemma BitmapsAreExact(records: seq<RR>, origin: string, keys: KeyPair, window: Window, signed: seq<RR>, n: string)
    requires SignableZone(records, origin, keys) && n in NamesOf(signed)
    requires IsSigned(records, origin, keys, window, signed)
    ensures Ascending(BitmapAt(signed, n))
    ensures BitmapIsExact(signed, n) <==> n != origin || OwnsRecord(records, origin)
  {
    hide CanonicalName, IsOwnerName, Base, SignsEach, NamesOf, TypesAt, BitmapAt, PartsFit, Enumerates, IsNsecChain;
    var order: seq<string>, chain: seq<RR>, ks: seq<Key>, sigs: seq<RR> :|
      SignedWith(records, origin, keys, window, signed, order, chain, ks, sigs);
    var base, keyRRs := Base(records, origin), KeyRecords(records, keys);
    SignedParts(records, origin, keys, window, signed, order, chain, ks, sigs);
    SignaturesAtNames(sigs, ks, base + keyRRs + chain, origin, keys, ZoneTtl(Unsigned(records)), window);
    NamesOfSigned(base, keyRRs, chain, sigs, origin, order, signed);
    TypesOfSigned(records, origin, keys, window, signed, order, chain, ks, sigs, n);
    BitmapFromChain(base, keyRRs, chain, sigs, origin, order, ZoneTtl(Unsigned(records)), signed, n);
    TypesWithoutName(base, n);
    BaseOwnsOrigin(records, origin);
    if n == origin && origin !in NamesOf(base) {
      assert TYPE_NSEC in TypesAt(signed, n) && TYPE_NSEC !in BitmapAt(signed, n);
    }
  }

  lemma TypesWithoutName(base: seq<RR>, n: string)
    ensures n !in NamesOf(base) ==> TypesAt(base, n) == {}
  {
    hide CanonicalName;
  }

  // ---------------------------------------------------------------- signatures

  predicate CoversKey(rr: RR, k: Key) {
    rr.rrtype == TYPE_RRSIG && rr.data.RRSIG? && CanonicalName(rr.name) == k.0 && rr.data.sig.covered == k.1
  }

  function SignaturesFor(signed: seq<RR>, k: Key): seq<RR> {
    Filter(signed, (rr: RR) => CoversKey(rr, k))
  }

  /** Every record set of a signed zone has exactly one signature; it was made over the records of the
      set, by the key-signing key for DNSKEY and by the zone-signing key otherwise. */
  lemma OneSignatureEach(records: seq<RR>, origin: string, keys: KeyPair, window: Window, signed: seq<RR>, k: Key)
    requires SignableZone(records, origin, keys) && IsSigned(records, origin, keys, window, signed)
    requires k in KeysOf(signed)
    ensures |SignaturesFor(signed, k)| == 1
    ensures IsSignatureFor(SignaturesFor(signed, k)[0], k, signed, origin, keys, ZoneTtl(Unsigned(records)), window)
  {
    hide CanonicalName, IsOwnerName, Base, IsNsecChain, Enumerates, RRsetOf, IsSignatureFor, CoversKey;
    var order: seq<string>, chain: seq<RR>, ks: seq<Key>, sigs: seq<RR> :|
      SignedWith(records, origin, keys, window, signed, order, chain, ks, sigs);
    var all, ttl := ToSign(records, origin, keys, chain), ZoneTtl(Unsigned(records));
    SignedParts(records, origin, keys, window, signed, order, chain, ks, sigs);
    KeysOfSigned(all, sigs, signed);
    NoSignaturesBefore(Base(records, origin), KeyRecords(records, keys), chain, sigs, origin, order);
    var i := IndexOfKey(ks, KeysOf(all), k);
    SignaturesAmong(all, sigs, ks, origin, keys, ttl, window, k, i);
    FilterOfConcat(all, sigs, (rr: RR) => CoversKey(rr, k));
    FilterOfPermutation(signed, all + sigs, (rr: RR) => CoversKey(rr, k));
    SingletonPermutation(SignaturesFor(signed, k), sigs[i]);
    SignatureOfSame(sigs[i], k, all, sigs, signed, origin, keys, ttl, window);
  }

  lemma SingletonPermutation(s: seq<RR>, x: RR)
    requires multiset(s) == multiset([x])
    ensures s == [x]
  {
    assert |s| == |multiset(s)| == 1;
    assert s[0] in multiset(s);
  }

  lemma IndexOfKey(ks: seq<Key>, names: set<Key>, k: Key) returns (i: nat)
    requires Enumerates(ks, names) && k in names
    ensures i < |ks| && ks[i] == k && forall j :: 0 <= j < |ks| ==> (ks[j] == k <==> j == i)
  {
    assert k in ks;
    i :| 0 <= i < |ks| && ks[i] == k;
  }

  lemma KeysOfSigned(all: seq<RR>, sigs: seq<RR>, signed: seq<RR>)
    requires multiset(signed) == multiset(all + sigs)
    requires forall i :: 0 <= i < |sigs| ==> sigs[i].rrtype == TYPE_RRSIG
    ensures KeysOf(signed) == KeysOf(all)
    ensures forall k: Key :: k in KeysOf(all) ==> k.1 != TYPE_RRSIG
  {
    hide CanonicalName;
    forall x ensures x in signed <==> x in all || x in sigs { PermutationMembers(signed, all + sigs, x); }
  }

  lemma NoSignaturesBefore(base: seq<RR>, keyRRs: seq<RR>, chain: seq<RR>, sigs: seq<RR>, origin: string,
                           order: seq<string>)
    requires PartsFit(base, keyRRs, chain, sigs, origin, order)
    ensures var all := base + keyRRs + chain; forall i :: 0 <= i < |all| ==> all[i].rrtype != TYPE_RRSIG
  {
    hide CanonicalName, Enumerates;
    var all := base + keyRRs + chain;
    forall i | 0 <= i < |all| ensures all[i].rrtype != TYPE_RRSIG {
      if i < |base| {
        assert !IsSigningType(base[i].rrtype);
      } else if i < |base| + 2 {
        assert KeyOf(keyRRs[i - |base|]).1 == TYPE_DNSKEY;
      } else {
        assert KeyOf(chain[i - |base| - 2]).1 == TYPE_NSEC;
      }
    }
  }

  lemma SignaturesAmong(all: seq<RR>, sigs: seq<RR>, ks: seq<Key>, origin: string, keys: KeyPair, ttl: Word32,
                        window: Window, k: Key, i: nat)
    requires SignsEach(sigs, ks, all, origin, keys, ttl, window)
    requires i < |ks| && forall j :: 0 <= j < |ks| ==> (ks[j] == k <==> j == i)
    requires forall j :: 0 <= j < |all| ==> all[j].rrtype != TYPE_RRSIG
    ensures SignaturesFor(all, k) == [] && SignaturesFor(sigs, k) == [sigs[i]]
  {
    hide CanonicalName, Enumerates, IsSignatureFor;
    FilterNone(all, (rr: RR) => CoversKey(rr, k));
    forall j | 0 <= j < |sigs| ensures CoversKey(sigs[j], k) <==> j == i {
      SignatureShape(sigs[j], ks[j], all, origin, keys, ttl, window);
      assert ks[j] == (ks[j].0, ks[j].1) && k == (k.0, k.1);
    }
    FilterOnly(sigs, (rr: RR) => CoversKey(rr, k), i);
  }

  lemma SignatureOfSame(sig: RR, k: Key, all: seq<RR>, sigs: seq<RR>, signed: seq<RR>, origin: string, keys: KeyPair,
                        ttl: Word32, window: Window)
    requires IsSignatureFor(sig, k, all, origin, keys, ttl, window) && k.1 != TYPE_RRSIG
    requires multiset(signed) == multiset(all + sigs)
    requires forall i :: 0 <= i < |sigs| ==> sigs[i].rrtype == TYPE_RRSIG
    ensures IsSignatureFor(sig, k, signed, origin, keys, ttl, window)
  {
    hide CanonicalName, RRsetOf, SignRRset;
    RRsetOfPermutation(signed, all + sigs, k);
    RRsetOfConcat(all, sigs, k);
    RRsetOfNone(sigs, k);
    assert RRsetOf(all, k) + [] == RRsetOf(all, k);
  }
}
