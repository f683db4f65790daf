/** Signing a zone: the records are filtered, given one apex SOA with a raised serial, and extended by
    two DNSKEY records, a chain of NSEC records and one signature per record set. Signing itself is a
    parameter; sorting is any rearrangement, since the comparator in use is not an order. */
module Signer {
  import opened Arithmetic
  import opened Wrappers
  import opened Names
  import opened Records
  import opened Filters

  type Key = (string, Word16)

  /** A public key with the signing operation of its private half, which may fail. */
  datatype KeyMaterial = KeyMaterial(dnskey: RR, algorithm: nat, tag: Word16,
                                     sign: (SignatureFields, seq<RR>) -> Option<string>)

  datatype KeyPair = KeyPair(ksk: KeyMaterial, zsk: KeyMaterial)

  /** Validity window of the new signatures. */
  datatype Window = Window(inception: Word32, expiration: Word32)

  predicate KeysOwnedBy(keys: KeyPair, origin: string) {
    && keys.ksk.dnskey.name == origin && keys.ksk.dnskey.rrtype == TYPE_DNSKEY
    && keys.zsk.dnskey.name == origin && keys.zsk.dnskey.rrtype == TYPE_DNSKEY
  }

  // ---------------------------------------------------------------- preparing the unsigned records

  predicate IsSigningType(t: Word16) {
    t == TYPE_RRSIG || t == TYPE_NSEC || t == TYPE_DNSKEY
  }

  function Unsigned(records: seq<RR>): seq<RR> {
    Filter(records, (rr: RR) => !IsSigningType(rr.rrtype))
  }

  method FilterUnsignedRecords(records: seq<RR>) returns (out: seq<RR>)
    ensures out == Unsigned(records)
  {
    out := [];
    for i := 0 to |records|
      invariant out == Unsigned(records[..i])
    {
      assert records[..i + 1] == records[..i] + [records[i]];
      FilterOfConcat(records[..i], [records[i]], (rr: RR) => !IsSigningType(rr.rrtype));
      if !IsSigningType(records[i].rrtype) {
        out := out + [records[i]];
      }
    }
    assert records[..|records|] == records;
  }

  /** The TTL of the first SOA that has one above zero, else 300. */
  function ZoneTtl(records: seq<RR>): Word32 {
    if |records| == 0 then 300
    else if records[0].rrtype == TYPE_SOA && records[0].data.SOA? && records[0].ttl > 0 then records[0].ttl
    else ZoneTtl(records[1..])
  }

  method ZoneTtlOf(records: seq<RR>) returns (ttl: Word32)
    ensures ttl == ZoneTtl(records)
  {
    for i := 0 to |records|
      invariant ZoneTtl(records[i..]) == ZoneTtl(records)
    {
      if records[i].rrtype == TYPE_SOA && records[i].data.SOA? && records[i].ttl > 0 {
        return records[i].ttl;
      }
    }
    return 300;
  }

  predicate IsApexSoa(rr: RR, origin: string) {
    rr.rrtype == TYPE_SOA && CanonicalName(rr.name) == origin
  }

  function ApexSoas(records: seq<RR>, origin: string): seq<RR> {
    Filter(records, (rr: RR) => IsApexSoa(rr, origin))
  }

  function NotApexSoas(records: seq<RR>, origin: string): seq<RR> {
    Filter(records, (rr: RR) => !IsApexSoa(rr, origin))
  }

  function FirstOf<T>(s: seq<T>): seq<T> {
    if |s| == 0 then [] else [s[0]]
  }

  /** Keeps the first apex SOA, moved to the end. */
  method EnsureUniqueApexSoa(records: seq<RR>, origin: string) returns (out: seq<RR>)
    ensures out == NotApexSoas(records, origin) + FirstOf(ApexSoas(records, origin))
  {
    hide IsApexSoa, NotApexSoas, ApexSoas;
    out := [];
    var apex: Option<RR> := None;
    ApexNone(origin);
    for i := 0 to |records|
      invariant out == NotApexSoas(records[..i], origin)
      invariant FirstOf(ApexSoas(records[..i], origin)) == if apex.Some? then [apex.value] else []
    {
      assert records[..i + 1] == records[..i] + [records[i]];
      ApexOneMore(records[..i], records[i], origin);
      if IsApexSoa(records[i], origin) {
        if apex.None? {
          apex := Some(records[i]);
        }
      } else {
        out := out + [records[i]];
      }
    }
    assert records[..|records|] == records;
    if apex.Some? {
      out := out + [apex.value];
    }
  }

  lemma ApexNone(origin: string)
    ensures ApexSoas([], origin) == [] && NotApexSoas([], origin) == []
  {
  }

  lemma ApexOneMore(done: seq<RR>, rr: RR, origin: string)
    ensures ApexSoas(done + [rr], origin)
         == if IsApexSoa(rr, origin) then ApexSoas(done, origin) + [rr] else ApexSoas(done, origin)
    ensures NotApexSoas(done + [rr], origin)
         == if IsApexSoa(rr, origin) then NotApexSoas(done, origin) else NotApexSoas(done, origin) + [rr]
  {
    hide IsApexSoa;
    FilterOfConcat(done, [rr], (rr: RR) => IsApexSoa(rr, origin));
    FilterOfConcat(done, [rr], (rr: RR) => !IsApexSoa(rr, origin));
  }

  function RaisedSerial(serial: Word32): Word32 {
    (serial + 1) % 0x1_0000_0000
  }

  /** The serial raised when the record carries SOA data; any other record unchanged. */
  function Raised(rr: RR): RR {
    if rr.data.SOA? then rr.(data := SOA(rr.data.soa.(serial := RaisedSerial(rr.data.soa.serial)))) else rr
  }

  /** Raises the serial of the first apex SOA and drops the further ones; done tells whether the first
      was met already. */
  function BumpedFrom(records: seq<RR>, origin: string, done: bool): seq<RR> {
    if |records| == 0 then []
    else if IsApexSoa(records[0], origin) then
      (if done then [] else [Raised(records[0])]) + BumpedFrom(records[1..], origin, true)
    else [records[0]] + BumpedFrom(records[1..], origin, done)
  }

  lemma BumpedStep(out: seq<RR>, tail: seq<RR>, origin: string, done: bool)
    requires |tail| > 0
    ensures out + BumpedFrom(tail, origin, done)
         == (out + if !IsApexSoa(tail[0], origin) then [tail[0]] else if done then [] else [Raised(tail[0])])
            + BumpedFrom(tail[1..], origin, done || IsApexSoa(tail[0], origin))
  {
    hide IsApexSoa, Raised;
  }

  method BumpSoaSerial(records: seq<RR>, origin: string) returns (out: seq<RR>)
    ensures out == BumpedFrom(records, origin, false)
  {
    hide IsApexSoa, Raised, BumpedFrom;
    out := [];
    var bumped := false;
    assert records[0..] == records && [] + BumpedFrom(records, origin, false) == BumpedFrom(records, origin, false);
    for i := 0 to |records|
      invariant BumpedFrom(records, origin, false) == out + BumpedFrom(records[i..], origin, bumped)
    {
      BumpedStep(out, records[i..], origin, bumped);
      assert records[i..][1..] == records[i + 1..];
      if IsApexSoa(records[i], origin) {
        if !bumped {
          out := out + [Raised(records[i])];
          bumped := true;
        } else {
          assert out + [] == out;
        }
      } else {
        out := out + [records[i]];
      }
    }
    BumpedEmpty(origin, bumped);
    assert records[|records|..] == [] && out + [] == out;
  }

  lemma BumpedEmpty(origin: string, done: bool)
    ensures BumpedFrom([], origin, done) == []
  {
  }

  /** The unsigned records a signed zone is built from. */
  function Base(records: seq<RR>, origin: string): seq<RR> {
    var u := Unsigned(records);
    NotApexSoas(u, origin) + Mapped(FirstOf(ApexSoas(u, origin)))
  }

  function Mapped(rrs: seq<RR>): seq<RR> {
    seq(|rrs|, i requires 0 <= i < |rrs| => Raised(rrs[i]))
  }

  lemma {:induction false} BumpedUnique(others: seq<RR>, origin: string, soa: seq<RR>)
    requires forall i :: 0 <= i < |others| ==> !IsApexSoa(others[i], origin)
    requires |soa| <= 1 && forall i :: 0 <= i < |soa| ==> IsApexSoa(soa[i], origin)
    ensures BumpedFrom(others + soa, origin, false) == others + Mapped(soa)
  {
    hide IsApexSoa, Raised;
    if |others| == 0 {
      assert others + soa == soa;
      assert |soa| == 1 ==> soa[1..] == [];
    } else {
      assert (others + soa)[1..] == others[1..] + soa;
      BumpedUnique(others[1..], origin, soa);
      assert others == [others[0]] + others[1..];
    }
  }

  lemma ApexParts(records: seq<RR>, origin: string)
    ensures var others := NotApexSoas(records, origin);
      forall i :: 0 <= i < |others| ==> others[i] in records && !IsApexSoa(others[i], origin)
    ensures var soas := ApexSoas(records, origin);
      forall i :: 0 <= i < |soas| ==> soas[i] in records && IsApexSoa(soas[i], origin)
  {
    var others, soas := NotApexSoas(records, origin), ApexSoas(records, origin);
    assert forall i :: 0 <= i < |others| ==> others[i] in others;
    assert forall i :: 0 <= i < |soas| ==> soas[i] in soas;
  }

  // ---------------------------------------------------------------- types and names

  function NamesOf(records: seq<RR>): set<string> {
    set rr <- records :: CanonicalName(rr.name)
  }

  function TypesAt(records: seq<RR>, n: string): set<Word16> {
    set rr <- records | CanonicalName(rr.name) == n :: rr.rrtype
  }

  method CollectTypesAtName(records: seq<RR>) returns (types: map<string, set<Word16>>)
    ensures types.Keys == NamesOf(records)
    ensures forall n <- types :: types[n] == TypesAt(records, n) + {TYPE_RRSIG, TYPE_NSEC}
  {
    hide CanonicalName;
    types := map[];
    for i := 0 to |records|
      invariant types.Keys == NamesOf(records[..i])
      invariant forall n <- types :: types[n] == TypesAt(records[..i], n) + {TYPE_RRSIG, TYPE_NSEC}
    {
      var rr, done := records[i], records[..i];
      assert records[..i + 1] == done + [rr];
      var name := CanonicalName(rr.name);
      TypesOfOneMore(done, rr);
      var present := if name in types then types[name] else {};
      types := types[name := present + {rr.rrtype} + {TYPE_RRSIG} + {TYPE_NSEC}];
    }
    assert records[..|records|] == records;
  }

  lemma TypesOfOneMore(done: seq<RR>, rr: RR)
    ensures NamesOf(done + [rr]) == NamesOf(done) + {CanonicalName(rr.name)}
    ensures forall n: string ::
      (TypesAt(done + [rr], n) == TypesAt(done, n) + if n == CanonicalName(rr.name) then {rr.rrtype} else {})
    ensures CanonicalName(rr.name) !in NamesOf(done) ==> TypesAt(done, CanonicalName(rr.name)) == {}
  {
    hide CanonicalName;
    assert forall x :: x in done + [rr] <==> x in done || x == rr;
  }

  // ---------------------------------------------------------------- the NSEC chain

  predicate Ascending(types: seq<Word16>) {
    forall i, j :: 0 <= i < j < |types| ==> types[i] < types[j]
  }

  /** The elements of a type set in ascending order. */
  method SortedTypes(types: set<Word16>) returns (s: seq<Word16>)
    ensures Ascending(s) && forall t: Word16 :: t in s <==> t in types
  {
    s := [];
    var rest := types;
    while rest != {}
      invariant rest <= types
      invariant Ascending(s) && forall t: Word16 :: t in s <==> t in types && t !in rest
      invariant forall t <- s, u <- rest :: t < u
    {
      var least :| least in rest;
      var others := rest - {least};
      while others != {}
        invariant others <= rest && least in rest && least !in others
        invariant forall t <- rest :: t in others || least <= t
      {
        var t :| t in others;
        others := others - {t};
        if t < least {
          least := t;
        }
      }
      AppendLargest(s, least);
      s := s + [least];
      rest := rest - {least};
    }
  }

  lemma AppendLargest(s: seq<Word16>, t: Word16)
    requires Ascending(s) && forall u <- s :: u < t
    ensures Ascending(s + [t]) && forall u: Word16 :: u in s + [t] <==> u in s || u == t
  {
    assert forall i :: 0 <= i < |s| ==> s[i] in s;
  }

  /** order lists every element of names once. */
  ghost predicate Enumerates<T(!new)>(order: seq<T>, names: set<T>) {
    Distinct(order) && forall x :: x in order <==> x in names
  }

  function NextOf(order: seq<string>, i: nat): string
    requires i < |order|
  {
    if i + 1 < |order| then order[i + 1] else order[0]
  }

  /** rr is the NSEC record of the i-th name: it points to the next name in a circle and its bitmap is
      strictly ascending and holds exactly the types given for the name. */
  predicate IsLink(rr: RR, order: seq<string>, i: nat, types: set<Word16>, ttl: Word32)
    requires i < |order|
  {
    && rr.name == order[i] && rr.rrtype == TYPE_NSEC && rr.rclass == CLASS_INET && rr.ttl == ttl
    && rr.data.NSEC? && rr.data.next == NextOf(order, i)
    && Ascending(rr.data.types) && forall t: Word16 :: t in rr.data.types <==> t in types
  }

  predicate IsNsecChain(chain: seq<RR>, order: seq<string>, types: map<string, set<Word16>>, ttl: Word32) {
    && |chain| == |order|
    && forall i :: 0 <= i < |chain| ==> order[i] in types && IsLink(chain[i], order, i, types[order[i]], ttl)
  }

  method BuildNsecChain(types: map<string, set<Word16>>, ttl: Word32)
    returns (chain: seq<RR>, ghost order: seq<string>)
    ensures Enumerates(order, types.Keys) && IsNsecChain(chain, order, types, ttl)
  {
    var listed := Listed(types.Keys);
    var names := Rearranged(listed);
    RearrangedEnumerates(listed, names, types.Keys);
    order := names;
    chain := [];
    for i := 0 to |names|
      invariant |chain| == i
      invariant forall k :: 0 <= k < i ==>
        names[k] in types && IsLink(chain[k], names, k, types[names[k]], ttl)
    {
      assert names[i] in names;
      var link := NewLink(names, i, types[names[i]], ttl);
      chain := chain + [link];
    }
  }

  method NewLink(names: seq<string>, i: nat, types: set<Word16>, ttl: Word32) returns (link: RR)
    requires i < |names|
    ensures IsLink(link, names, i, types, ttl)
  {
    var bitmap := SortedTypes(types);
    SmallMod(i + 1, |names|);
    link := RR(names[i], TYPE_NSEC, CLASS_INET, ttl, NSEC(names[(i + 1) % |names|], bitmap));
  }

  /** A walk over a map's keys, in no particular order. */
  method Listed<T(==, !new)>(keys: set<T>) returns (s: seq<T>)
    ensures Enumerates(s, keys)
  {
    s := [];
    var todo := keys;
    while todo != {}
      invariant todo <= keys && Distinct(s)
      invariant forall x :: x in s <==> x in keys && x !in todo
    {
      var k :| k in todo;
      todo := todo - {k};
      s := s + [k];
    }
  }

  lemma {:induction false} DistinctIffMultiplicity<T(!new)>(s: seq<T>)
    ensures Distinct(s) <==> forall x :: multiset(s)[x] <= 1
  {
    if |s| > 0 {
      var rest := s[1..];
      assert s == [s[0]] + rest;
      DistinctIffMultiplicity(rest);
      assert forall i :: 0 <= i < |rest| ==> rest[i] == s[i + 1];
      assert Distinct(s) <==> Distinct(rest) && s[0] !in rest;
      assert s[0] in rest <==> multiset(rest)[s[0]] > 0;
      assert forall x :: multiset(s)[x] == multiset(rest)[x] + if x == s[0] then 1 else 0;
    }
  }

  lemma RearrangedEnumerates<T(!new)>(s: seq<T>, r: seq<T>, names: set<T>)
    requires Enumerates(s, names) && multiset(r) == multiset(s)
    ensures Enumerates(r, names)
  {
    DistinctIffMultiplicity(s);
    DistinctIffMultiplicity(r);
    forall x ensures x in r <==> x in names {
      assert x in r <==> x in multiset(r);
      assert x in s <==> x in multiset(s);
    }
  }

  // ---------------------------------------------------------------- record sets and signatures

  /** The records of one canonical name and type, in order. */
  function RRsetOf(records: seq<RR>, key: Key): seq<RR> {
    Filter(records, (rr: RR) => CanonicalName(rr.name) == key.0 && rr.rrtype == key.1)
  }

  function KeyOf(rr: RR): Key {
    (CanonicalName(rr.name), rr.rrtype)
  }

  function KeysOf(records: seq<RR>): set<Key> {
    set rr <- records | rr.rrtype != TYPE_RRSIG :: KeyOf(rr)
  }

  /** The first loop of the grouping: record sets in order of appearance. */
  method CollectRRsets(records: seq<RR>) returns (order: seq<Key>, grouped: map<Key, seq<RR>>)
    ensures Enumerates(order, KeysOf(records))
    ensures grouped.Keys == KeysOf(records)
    ensures forall k <- grouped :: |grouped[k]| > 0 && grouped[k] == RRsetOf(records, k)
  {
    hide CanonicalName, KeysOf, RRsetOf, KeyOf, Enumerates;
    order, grouped := [], map[];
    GroupNone();
    for i := 0 to |records|
      invariant Enumerates(order, KeysOf(records[..i]))
      invariant grouped.Keys == KeysOf(records[..i])
      invariant forall k <- grouped :: |grouped[k]| > 0 && grouped[k] == RRsetOf(records[..i], k)
    {
      var rr, done := records[i], records[..i];
      assert records[..i + 1] == done + [rr];
      GroupOneMore(done, rr);
      if rr.rrtype != TYPE_RRSIG {
        var key := KeyOf(rr);
        if key !in grouped {
          EnumeratesOneMore(order, KeysOf(done), key);
          order := order + [key];
        } else {
          assert KeysOf(done) + {key} == KeysOf(done);
        }
        grouped := grouped[key := (if key in grouped then grouped[key] else []) + [rr]];
      }
    }
    assert records[..|records|] == records;
  }

  /** Groups the records, signatures aside, by canonical name and type. */
  method GroupRRsets(records: seq<RR>) returns (keys: seq<Key>, sets: map<Key, seq<RR>>)
    ensures Enumerates(keys, KeysOf(records))
    ensures sets.Keys == KeysOf(records)
    ensures forall k <- sets :: |sets[k]| > 0 && multiset(sets[k]) == multiset(RRsetOf(records, k))
  {
    hide KeysOf, RRsetOf;
    var order, grouped := CollectRRsets(records);
    keys := Rearranged(order);
    RearrangedEnumerates(order, keys, KeysOf(records));
    sets := map[];
    for i := 0 to |keys|
      invariant sets.Keys == set k <- keys[..i]
      invariant forall k <- sets :: |sets[k]| > 0 && multiset(sets[k]) == multiset(RRsetOf(records, k))
    {
      assert keys[i] in keys;
      var sorted := Rearranged(grouped[keys[i]]);
      assert keys[..i + 1] == keys[..i] + [keys[i]];
      sets := sets[keys[i] := sorted];
    }
    assert keys[..|keys|] == keys;
  }

  lemma EnumeratesOneMore<T(!new)>(order: seq<T>, names: set<T>, x: T)
    requires Enumerates(order, names) && x !in names
    ensures Enumerates(order + [x], names + {x})
  {
    assert forall i :: 0 <= i < |order| ==> order[i] in order;
    assert forall y :: y in order + [x] <==> y in order || y == x;
  }

  lemma GroupNone()
    ensures KeysOf([]) == {} && Enumerates([], KeysOf([]))
  {
  }

  lemma GroupOneMore(done: seq<RR>, rr: RR)
    ensures KeysOf(done + [rr]) == if rr.rrtype != TYPE_RRSIG then KeysOf(done) + {KeyOf(rr)} else KeysOf(done)
    ensures rr.rrtype == TYPE_RRSIG ==> KeyOf(rr) !in KeysOf(done)
    ensures forall k: Key ::
      RRsetOf(done + [rr], k) == if k == KeyOf(rr) then RRsetOf(done, k) + [rr] else RRsetOf(done, k)
    ensures rr.rrtype != TYPE_RRSIG && KeyOf(rr) !in KeysOf(done) ==> RRsetOf(done, KeyOf(rr)) == []
  {
    hide CanonicalName;
    assert forall x :: x in done + [rr] <==> x in done || x == rr;
    forall k: Key
      ensures RRsetOf(done + [rr], k) == if k == KeyOf(rr) then RRsetOf(done, k) + [rr] else RRsetOf(done, k)
    {
      FilterOfConcat(done, [rr], (rr: RR) => CanonicalName(rr.name) == k.0 && rr.rrtype == k.1);
    }
    if RRsetOf(done, KeyOf(rr)) != [] {
      var x := RRsetOf(done, KeyOf(rr))[0];
      assert x in RRsetOf(done, KeyOf(rr));
      assert KeyOf(x) == KeyOf(rr) && x in done;
    }
  }

  function OwnerLabelCount(name: string): nat {
    |SplitDots(TrimSuffix(CanonicalName(name), "."))|
  }

  /** The unsigned part of a signature over a record set. */
  function Template(key: KeyMaterial, rrset: seq<RR>, origin: string, window: Window): SignatureFields
    requires |rrset| > 0
  {
    var owner := rrset[0].name;
    SignatureFields(rrset[0].rrtype, key.algorithm,
      if TrimSuffix(CanonicalName(owner), ".") == "" then 0 else OwnerLabelCount(owner) % 256,
      rrset[0].ttl, window.expiration, window.inception, key.tag, origin, "")
  }

  function SignRRset(key: KeyMaterial, rrset: seq<RR>, origin: string, ttl: Word32, window: Window): Option<RR>
    requires |rrset| > 0
  {
    var template := Template(key, rrset, origin, window);
    match key.sign(template, rrset)
    case None => None
    case Some(text) =>
      Some(RR(rrset[0].name, TYPE_RRSIG, CLASS_INET, ttl, RRSIG(template.(signature := text))))
  }

  function SignerFor(keys: KeyPair, qtype: Word16): KeyMaterial {
    if qtype == TYPE_DNSKEY then keys.ksk else keys.zsk
  }

  /** sig is the signature of the right key over the record set of k in all. */
  ghost predicate IsSignatureFor(sig: RR, k: Key, all: seq<RR>, origin: string, keys: KeyPair, ttl: Word32,
                                 window: Window) {
    exists rrset :: |rrset| > 0 && multiset(rrset) == multiset(RRsetOf(all, k))
      && SignRRset(SignerFor(keys, k.1), rrset, origin, ttl, window) == Some(sig)
  }

  /** One signature for each record set of all, in the order of ks. */
  ghost predicate SignsEach(sigs: seq<RR>, ks: seq<Key>, all: seq<RR>, origin: string, keys: KeyPair, ttl: Word32,
                            window: Window) {
    && Enumerates(ks, KeysOf(all)) && |sigs| == |ks|
    && forall i :: 0 <= i < |ks| ==> IsSignatureFor(sigs[i], ks[i], all, origin, keys, ttl, window)
  }

  // ---------------------------------------------------------------- the signed zone

  function WithTtl(rr: RR, ttl: Word32): RR {
    rr.(ttl := ttl)
  }

  /** Everything that gets signed: the base records, both public keys, the chain. */
  function ToSign(records: seq<RR>, origin: string, keys: KeyPair, chain: seq<RR>): seq<RR> {
    var ttl := ZoneTtl(Unsigned(records));
    Base(records, origin) + [WithTtl(keys.ksk.dnskey, ttl), WithTtl(keys.zsk.dnskey, ttl)] + chain
  }

  /** The type sets the chain is built from: the base records' own, and DNSKEY at the origin. */
  function ChainTypes(base: seq<RR>, origin: string): map<string, set<Word16>> {
    var own := map n | n in NamesOf(base) :: TypesAt(base, n) + {TYPE_RRSIG, TYPE_NSEC};
    own[origin := (if origin in own then own[origin] else {}) + {TYPE_DNSKEY}]
  }

  ghost predicate SignedWith(records: seq<RR>, origin: string, keys: KeyPair, window: Window, signed: seq<RR>,
                             order: seq<string>, chain: seq<RR>, ks: seq<Key>, sigs: seq<RR>) {
    var ttl := ZoneTtl(Unsigned(records));
    var types := ChainTypes(Base(records, origin), origin);
    var all := ToSign(records, origin, keys, chain);
    && Enumerates(order, types.Keys) && IsNsecChain(chain, order, types, ttl)
    && SignsEach(sigs, ks, all, origin, keys, ttl, window)
    && multiset(signed) == multiset(all + sigs)
  }

  /** signed is a signed form of records. */
  ghost predicate IsSigned(records: seq<RR>, origin: string, keys: KeyPair, window: Window, signed: seq<RR>) {
    exists order, chain, ks, sigs :: SignedWith(records, origin, keys, window, signed, order, chain, ks, sigs)
  }

  datatype SigningError = NothingToSign | SignatureFailed

  /** Some record set of all that the key responsible for it does not sign. */
  ghost predicate SomeSignatureFails(all: seq<RR>, origin: string, keys: KeyPair, ttl: Word32, window: Window) {
    exists k, rrset :: k in KeysOf(all) && FailsAt(k, rrset, all, origin, keys, ttl, window)
  }

  predicate FailsAt(k: Key, rrset: seq<RR>, all: seq<RR>, origin: string, keys: KeyPair, ttl: Word32, window: Window) {
    |rrset| > 0 && multiset(rrset) == multiset(RRsetOf(all, k))
    && SignRRset(SignerFor(keys, k.1), rrset, origin, ttl, window).None?
  }

  /** Some record set of the zone with its keys and a chain does not get its signature. */
  ghost predicate ZoneSignatureFails(records: seq<RR>, origin: string, keys: KeyPair, window: Window) {
    var ttl := ZoneTtl(Unsigned(records));
    var types := ChainTypes(Base(records, origin), origin);
    exists order, chain :: Enumerates(order, types.Keys) && IsNsecChain(chain, order, types, ttl)
      && SomeSignatureFails(ToSign(records, origin, keys, chain), origin, keys, ttl, window)
  }

  lemma SignatureOf(k: Key, rrset: seq<RR>, all: seq<RR>, origin: string, keys: KeyPair, ttl: Word32, window: Window)
    requires |rrset| > 0 && multiset(rrset) == multiset(RRsetOf(all, k))
    ensures var sig := SignRRset(SignerFor(keys, k.1), rrset, origin, ttl, window);
      sig.Some? ==> IsSignatureFor(sig.value, k, all, origin, keys, ttl, window)
  {
  }

  lemma EnumeratesMember<T(!new)>(order: seq<T>, names: set<T>, i: nat)
    requires Enumerates(order, names) && i < |order|
    ensures order[i] in names
  {
    assert order[i] in order;
  }

  method SignAll(all: seq<RR>, origin: string, keys: KeyPair, ttl: Word32, window: Window)
    returns (r: Option<seq<RR>>, ghost ks: seq<Key>)
    ensures r.Some? ==> SignsEach(r.value, ks, all, origin, keys, ttl, window)
    ensures r.None? ==> SomeSignatureFails(all, origin, keys, ttl, window)
  {
    hide SignRRset, RRsetOf, KeysOf, IsSignatureFor, Enumerates;
    var order, sets := GroupRRsets(all);
    ks := order;
    var sigs: seq<RR> := [];
    for i := 0 to |order|
      invariant |sigs| == i
      invariant forall k :: 0 <= k < i ==> IsSignatureFor(sigs[k], ks[k], all, origin, keys, ttl, window)
    {
      EnumeratesMember(order, KeysOf(all), i);
      var rrset := sets[order[i]];
      KeyOfMembers(all, order[i], rrset);
      var key := SignerFor(keys, rrset[0].rrtype);
      var sig := SignRRset(key, rrset, origin, ttl, window);
      SignatureOf(order[i], rrset, all, origin, keys, ttl, window);
      if sig.None? {
        assert FailsAt(order[i], rrset, all, origin, keys, ttl, window);
        return None, ks;
      }
      sigs := sigs + [sig.value];
    }
    return Some(sigs), ks;
  }

  /** Signs a zone. The origin is in canonical form. */
  method SignZone(origin: string, records: seq<RR>, keys: KeyPair, window: Window)
    returns (r: Result<seq<RR>, SigningError>)
    ensures Unsigned(records) == [] <==> r == Err(NothingToSign)
    ensures r.Ok? ==> IsSigned(records, origin, keys, window, r.value)
    ensures r == Err(SignatureFailed) ==> ZoneSignatureFails(records, origin, keys, window)
  {
    hide IsNsecChain, Enumerates, SignsEach, SomeSignatureFails, Unsigned, ZoneTtl, ChainTypes, NotApexSoas;
    hide ApexSoas, Mapped;
    var unsigned := FilterUnsignedRecords(records);
    if |unsigned| == 0 {
      return Err(NothingToSign);
    }
    var ttl := ZoneTtlOf(unsigned);
    var base := UnsignedBase(unsigned, origin);
    var types := TypesForChain(base, origin);
    var chain, order := BuildNsecChain(types, ttl);
    var all := base + [WithTtl(keys.ksk.dnskey, ttl), WithTtl(keys.zsk.dnskey, ttl)] + chain;
    var sigs, ks := SignAll(all, origin, keys, ttl, window);
    if sigs.None? {
      return Err(SignatureFailed);
    }
    var sorted := Rearranged(all + sigs.value);
    assert SignedWith(records, origin, keys, window, sorted, order, chain, ks, sigs.value);
    return Ok(sorted);
  }

  method TypesForChain(base: seq<RR>, origin: string) returns (types: map<string, set<Word16>>)
    ensures types == ChainTypes(base, origin)
  {
    hide CanonicalName, TypesAt, NamesOf;
    types := CollectTypesAtName(base);
    types := types[origin := (if origin in types then types[origin] else {}) + {TYPE_DNSKEY}];
  }

  method UnsignedBase(unsigned: seq<RR>, origin: string) returns (base: seq<RR>)
    ensures base == NotApexSoas(unsigned, origin) + Mapped(FirstOf(ApexSoas(unsigned, origin)))
  {
    hide IsApexSoa, NotApexSoas, ApexSoas;
    ApexParts(unsigned, origin);
    var unique := EnsureUniqueApexSoa(unsigned, origin);
    BumpedUnique(NotApexSoas(unsigned, origin), origin, FirstOf(ApexSoas(unsigned, origin)));
    base := BumpSoaSerial(unique, origin);
  }

  lemma KeyOfMembers(all: seq<RR>, k: Key, rrset: seq<RR>)
    requires multiset(rrset) == multiset(RRsetOf(all, k)) && |rrset| > 0
    ensures rrset[0].rrtype == k.1 && CanonicalName(rrset[0].name) == k.0
  {
    hide CanonicalName;
    assert rrset[0] in multiset(rrset);
    assert rrset[0] in RRsetOf(all, k);
  }
}
