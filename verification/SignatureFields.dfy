/** What stands in the signatures of a signed zone, field by field, and that a validator accepts them. */
module SignatureFields {
  import opened Wrappers
  import opened Names
  import opened Records
  import opened Filters
  import opened Signer
  import opened SignedZone
  import V = Validator

  // ---------------------------------------------------------------- labels and TTL

  lemma {:induction false} PartsAreDots(s: string)
    ensures |SplitDots(s)| == multiset(s)['.'] + 1
  {
    if s != "" {
      PartsAreDots(s[1..]);
      assert s == [s[0]] + s[1..];
    }
  }

  /** The dots of a canonical name, its last one included, are as many as its parts. */
  lemma LabelsAreDots(name: string)
    ensures var n := CanonicalName(name);
      (TrimSuffix(n, ".") == "" <==> n == ".") && (n != "." ==> OwnerLabelCount(name) == multiset(n)['.'])
  {
    hide SplitDots;
    var n := CanonicalName(name);
    CanonicalEndsInDot(name);
    var body := n[..|n| - 1];
    assert n == body + "." && TrimSuffix(n, ".") == body;
    PartsAreDots(body);
  }

  lemma CanonicalEndsInDot(name: string)
    ensures EndsInDot(CanonicalName(name))
  {
    var f := Fqdn(name);
    assert f[|f| - 1] == '.' && Lower(f)[|f| - 1] == LowerChar(f[|f| - 1]);
  }

  predicate SoaWithTtl(rr: RR) {
    rr.rrtype == TYPE_SOA && rr.data.SOA? && rr.ttl > 0
  }

  /** The TTL of the first SOA that has one above zero, or 300 seconds. */
  ghost predicate IsZoneTtl(records: seq<RR>, ttl: Word32) {
    || (ttl == 300 && forall i :: 0 <= i < |records| ==> !SoaWithTtl(records[i]))
    || exists i :: 0 <= i < |records| && FirstSoaAt(records, i) && ttl == records[i].ttl
  }

  predicate FirstSoaAt(records: seq<RR>, i: nat)
    requires i < |records|
  {
    SoaWithTtl(records[i]) && forall j :: 0 <= j < i ==> !SoaWithTtl(records[j])
  }

  lemma {:induction false} ZoneTtlMeans(records: seq<RR>)
    ensures IsZoneTtl(records, ZoneTtl(records))
  {
    if |records| > 0 && !SoaWithTtl(records[0]) {
      ZoneTtlMeans(records[1..]);
      var rest := records[1..];
      assert forall i :: 1 <= i < |records| ==> records[i] == rest[i - 1];
      if i :| 0 <= i < |rest| && FirstSoaAt(rest, i) && ZoneTtl(rest) == rest[i].ttl {
        assert FirstSoaAt(records, i + 1);
      }
    } else if |records| > 0 {
      assert FirstSoaAt(records, 0);
    }
  }

  lemma {:induction false} UnsignedTtl(records: seq<RR>)
    ensures ZoneTtl(Unsigned(records)) == ZoneTtl(records)
  {
    if |records| > 0 {
      UnsignedTtl(records[1..]);
      var rest := Unsigned(records[1..]);
      assert ([records[0]] + rest)[1..] == rest && [] + rest == rest;
    }
  }

  // ---------------------------------------------------------------- the fields of a signature

  predicate IsOfSet(rr: RR, owner: string, covered: Word16) {
    CanonicalName(rr.name) == owner && rr.rrtype == covered
  }

  /** The zone-wide fields: the validity window, the algorithm and tag of the key-signing key for DNSKEY and of the
      zone-signing key otherwise, the zone as signer, the zone's TTL, and the number of labels of the owner. */
  ghost predicate HasZoneFields(sig: RR, zone: seq<RR>, origin: string, keys: KeyPair, window: Window) {
    && sig.data.RRSIG? && sig.rrtype == TYPE_RRSIG && sig.rclass == CLASS_INET && IsZoneTtl(zone, sig.ttl)
    && var f, owner := sig.data.sig, CanonicalName(sig.name);
       && f.inception == window.inception && f.expiration == window.expiration && f.signer == origin
       && f.algorithm == SigningKey(f.covered, keys).algorithm && f.keyTag == SigningKey(f.covered, keys).tag
       && f.labels == (if owner == "." then 0 else multiset(owner)['.'] % 256)
  }

  function SigningKey(covered: Word16, keys: KeyPair): KeyMaterial {
    if covered == TYPE_DNSKEY then keys.ksk else keys.zsk
  }

  /** The set it is made for: one of its TTLs is the original one, and the text is what the key makes of just these
      fields and records. */
  ghost predicate IsMadeOver(sig: RR, members: seq<RR>, keys: KeyPair) {
    sig.data.RRSIG? && members != [] &&
    var f := sig.data.sig;
    && (exists rr <- members :: rr.ttl == f.origTtl && rr.name == sig.name)
    && exists list :: multiset(list) == multiset(members)
         && SigningKey(f.covered, keys).sign(f.(signature := ""), list) == Some(f.signature)
  }

  lemma SignatureFieldsOf(sig: RR, k: Key, list: seq<RR>, zone: seq<RR>, origin: string, keys: KeyPair, window: Window)
    requires |list| > 0 && list[0].rrtype == k.1 && CanonicalName(list[0].name) == k.0
    requires SignRRset(SignerFor(keys, k.1), list, origin, ZoneTtl(zone), window) == Some(sig)
    ensures HasZoneFields(sig, zone, origin, keys, window)
    ensures sig.data.sig.covered == k.1 && CanonicalName(sig.name) == k.0
    ensures sig.data.sig.origTtl == list[0].ttl && sig.name == list[0].name
    ensures SigningKey(k.1, keys).sign(sig.data.sig.(signature := ""), list) == Some(sig.data.sig.signature)
  {
    hide CanonicalName, IsZoneTtl, ZoneTtl, OwnerLabelCount, TrimSuffix;
    ZoneTtlMeans(zone);
    LabelsAreDots(list[0].name);
    assert Template(SignerFor(keys, k.1), list, origin, window) == sig.data.sig.(signature := "");
  }

  lemma SignatureIsMade(sig: RR, k: Key, signed: seq<RR>, zone: seq<RR>, origin: string, keys: KeyPair, window: Window)
    requires IsSignatureFor(sig, k, signed, origin, keys, ZoneTtl(zone), window)
    ensures HasZoneFields(sig, zone, origin, keys, window) && IsMadeOver(sig, RRsetOf(signed, k), keys)
    ensures (CanonicalName(sig.name), sig.data.sig.covered) == k
  {
    hide RRsetOf, CanonicalName, ZoneTtl, SignRRset, HasZoneFields, SignerFor, SigningKey;
    var list: seq<RR> :| |list| > 0 && multiset(list) == multiset(RRsetOf(signed, k))
      && SignRRset(SignerFor(keys, k.1), list, origin, ZoneTtl(zone), window) == Some(sig);
    KeyOfMembers(signed, k, list);
    SignatureFieldsOf(sig, k, list, zone, origin, keys, window);
    ZoneFieldsHold(sig, zone, origin, keys, window);
    assert list[0] in multiset(list) && list[0] in RRsetOf(signed, k);
  }

  lemma ZoneFieldsHold(sig: RR, zone: seq<RR>, origin: string, keys: KeyPair, window: Window)
    requires HasZoneFields(sig, zone, origin, keys, window)
    ensures sig.data.RRSIG?
  {
    hide IsZoneTtl, CanonicalName;
  }

  /** All records of the owner and covered type of the signature, in order. */
  ghost predicate IsSetOf(signed: seq<RR>, sig: RR, members: seq<RR>) {
    sig.data.RRSIG?
    && IsSelection(signed, (rr: RR) => IsOfSet(rr, CanonicalName(sig.name), sig.data.sig.covered), members)
  }

  /** Every signature of a signed zone has the fields it should and is made for one of its record sets, all of it. */
  lemma EverySignatureIsMade(records: seq<RR>, origin: string, keys: KeyPair, window: Window, signed: seq<RR>, sig: RR)
    requires SignableZone(records, origin, keys) && IsSigned(records, origin, keys, window, signed)
    requires sig in signed && sig.rrtype == TYPE_RRSIG
    ensures HasZoneFields(sig, records, origin, keys, window)
    ensures exists members :: IsMadeOver(sig, members, keys) && IsSetOf(signed, sig, members)
  {
    hide CanonicalName, IsOwnerName, Base, IsNsecChain, Enumerates, RRsetOf, IsSignatureFor, IsMadeOver, ZoneTtl;
    hide HasZoneFields, SignableZone, IsSigned;
    var k := SignatureInZone(records, origin, keys, window, signed, sig);
    UnsignedTtl(records);
    SignatureIsMade(sig, k, signed, records, origin, keys, window);
    SetIsSelection(signed, k);
    ZoneFieldsHold(sig, records, origin, keys, window);
    assert IsMadeOver(sig, RRsetOf(signed, k), keys) && IsSetOf(signed, sig, RRsetOf(signed, k));
  }

  lemma SetIsSelection(signed: seq<RR>, k: Key)
    ensures IsSelection(signed, (rr: RR) => IsOfSet(rr, k.0, k.1), RRsetOf(signed, k))
  {
    hide CanonicalName;
    FilterSelects(signed, (rr: RR) => IsOfSet(rr, k.0, k.1));
    FilterSame(signed, (rr: RR) => IsOfSet(rr, k.0, k.1),
               (rr: RR) => CanonicalName(rr.name) == k.0 && rr.rrtype == k.1);
  }

  lemma SignatureInZone(records: seq<RR>, origin: string, keys: KeyPair, window: Window, signed: seq<RR>, sig: RR)
    returns (k: Key)
    requires SignableZone(records, origin, keys) && IsSigned(records, origin, keys, window, signed)
    requires sig in signed && sig.rrtype == TYPE_RRSIG
    ensures IsSignatureFor(sig, k, signed, origin, keys, ZoneTtl(Unsigned(records)), window)
  {
    hide CanonicalName, IsOwnerName, Base, IsNsecChain, Enumerates, RRsetOf, IsSignatureFor, KeysOf;
    var order: seq<string>, chain: seq<RR>, ks: seq<Key>, sigs: seq<RR> :|
      SignedWith(records, origin, keys, window, signed, order, chain, ks, sigs);
    var all, ttl := ToSign(records, origin, keys, chain), ZoneTtl(Unsigned(records));
    SignedParts(records, origin, keys, window, signed, order, chain, ks, sigs);
    KeysOfSigned(all, sigs, signed);
    NoSignaturesBefore(Base(records, origin), KeyRecords(records, keys), chain, sigs, origin, order);
    PermutationMembers(signed, all + sigs, sig);
    assert sig !in all;
    var i :| 0 <= i < |sigs| && sigs[i] == sig;
    k := ks[i];
    EnumeratesMember(ks, KeysOf(all), i);
    SignatureOfSame(sig, k, all, sigs, signed, origin, keys, ttl, window);
  }

  // ---------------------------------------------------------------- a validator accepts them

  /** The library and a key fit: it computes the key's tag and accepts what the key signs, whatever the order of the
      records and the TTL of the key record. */
  ghost predicate Fits(c: V.Crypto, key: KeyMaterial) {
    && key.dnskey.data.DNSKEY?
    && (forall ttl: Word32 :: c.keyTag(WithTtl(key.dnskey, ttl)) == key.tag)
    && (forall f, made, read, ttl: Word32 :: Accepts(c, key, f, made, read, ttl))
  }

  predicate Accepts(c: V.Crypto, key: KeyMaterial, f: SignatureFields, made: seq<RR>, read: seq<RR>, ttl: Word32) {
    key.sign(f, made).Some? && multiset(made) == multiset(read) ==>
      c.verify(f.(signature := key.sign(f, made).value), WithTtl(key.dnskey, ttl), read)
  }

  /** The signed zone stands up to validation: with keys that fit, every record set passes with its own signature and
      the keys at the origin exactly while the clock is in the window, and never outside it. */
  lemma SignedSetValidatesIff(records: seq<RR>, origin: string, keys: KeyPair, window: Window, signed: seq<RR>, k: Key,
                              env: V.Env)
    requires SignableZone(records, origin, keys) && IsSigned(records, origin, keys, window, signed)
    requires k in KeysOf(signed) && Fits(env.crypto, keys.ksk) && Fits(env.crypto, keys.zsk)
    ensures V.SetHolds(env, RRsetOf(signed, k), SignaturesFor(signed, k), RRsetOf(signed, (origin, TYPE_DNSKEY)))
       <==> window.inception <= env.now <= window.expiration
  {
    hide SignableZone, IsSigned, KeysOf, Fits, RRsetOf, SignaturesFor, IsSignatureFor, HasZoneFields, IsMadeOver;
    hide V.KeyVerifies;
    OneSignatureEach(records, origin, keys, window, signed, k);
    var sig := SignaturesFor(signed, k)[0];
    assert SignaturesFor(signed, k) == [sig];
    UnsignedTtl(records);
    SignatureIsMade(sig, k, signed, records, origin, keys, window);
    WindowOf(sig, records, origin, keys, window);
    var key := SignerFor(keys, k.1);
    var record := KeyAtOrigin(records, origin, keys, window, signed, key);
    KeyAccepts(env.crypto, keys, sig, RRsetOf(signed, k), record, k, records, origin, window);
    MadeOverSome(sig, RRsetOf(signed, k), keys);
    OneSignatureHoldsIff(env, RRsetOf(signed, k), sig, RRsetOf(signed, (origin, TYPE_DNSKEY)), record);
  }

  lemma OneSignatureHoldsIff(env: V.Env, members: seq<RR>, sig: RR, dnskeys: seq<RR>, record: RR)
    requires members != [] && sig.data.RRSIG? && record in dnskeys
    requires V.KeyVerifies(env.crypto, sig.data.sig, record, members)
    ensures V.SetHolds(env, members, [sig], dnskeys)
       <==> sig.data.sig.inception <= env.now <= sig.data.sig.expiration
  {
    hide V.KeyVerifies;
    assert sig in [sig] && dnskeys != [];
    assert forall other <- [sig] :: other == sig;
  }

  lemma WindowOf(sig: RR, zone: seq<RR>, origin: string, keys: KeyPair, window: Window)
    requires HasZoneFields(sig, zone, origin, keys, window)
    ensures sig.data.RRSIG?
    ensures sig.data.sig.inception == window.inception && sig.data.sig.expiration == window.expiration
  {
    hide IsZoneTtl, CanonicalName;
  }

  lemma MadeOverSome(sig: RR, members: seq<RR>, keys: KeyPair)
    requires IsMadeOver(sig, members, keys)
    ensures members != []
  {
  }

  lemma KeyAtOrigin(records: seq<RR>, origin: string, keys: KeyPair, window: Window, signed: seq<RR>, key: KeyMaterial)
    returns (record: RR)
    requires SignableZone(records, origin, keys) && IsSigned(records, origin, keys, window, signed)
    requires key == keys.ksk || key == keys.zsk
    ensures record in RRsetOf(signed, (origin, TYPE_DNSKEY))
    ensures record == WithTtl(key.dnskey, ZoneTtl(Unsigned(records)))
  {
    hide CanonicalName, IsOwnerName, Base, SignsEach, IsNsecChain, Enumerates;
    var order: seq<string>, chain: seq<RR>, ks: seq<Key>, sigs: seq<RR> :|
      SignedWith(records, origin, keys, window, signed, order, chain, ks, sigs);
    SignedParts(records, origin, keys, window, signed, order, chain, ks, sigs);
    var base, keyRRs := Base(records, origin), KeyRecords(records, keys);
    var i := if key == keys.ksk then 0 else 1;
    record := keyRRs[i];
    assert record in keyRRs && KeyOf(keyRRs[i]) == (origin, TYPE_DNSKEY);
    PermutationMembers(signed, base + keyRRs + chain + sigs, record);
    FilterHas(signed, (rr: RR) => CanonicalName(rr.name) == origin && rr.rrtype == TYPE_DNSKEY, record);
    InDnskeys(signed, origin, record);
  }

  lemma InDnskeys(signed: seq<RR>, origin: string, record: RR)
    requires record in signed && KeyOf(record) == (origin, TYPE_DNSKEY)
    ensures record in RRsetOf(signed, (origin, TYPE_DNSKEY))
  {
    hide CanonicalName;
    var k := (origin, TYPE_DNSKEY);
    FilterHas(signed, (rr: RR) => CanonicalName(rr.name) == k.0 && rr.rrtype == k.1, record);
  }

  lemma KeyAccepts(c: V.Crypto, keys: KeyPair, sig: RR, members: seq<RR>, record: RR, k: Key, zone: seq<RR>,
                   origin: string, window: Window)
    requires Fits(c, keys.ksk) && Fits(c, keys.zsk) && IsMadeOver(sig, members, keys)
    requires HasZoneFields(sig, zone, origin, keys, window) && sig.data.sig.covered == k.1
    requires exists ttl :: record == WithTtl(SignerFor(keys, k.1).dnskey, ttl)
    ensures V.KeyVerifies(c, sig.data.sig, record, members)
  {
    hide IsZoneTtl, CanonicalName;
    var f, key := sig.data.sig, SigningKey(k.1, keys);
    var ttl :| record == WithTtl(key.dnskey, ttl);
    var list :| multiset(list) == multiset(members) && key.sign(f.(signature := ""), list) == Some(f.signature);
    assert Accepts(c, key, f.(signature := ""), list, members, ttl);
    assert f.(signature := "").(signature := f.signature) == f;
  }
}
