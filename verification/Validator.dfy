/** Validating signed responses along a chain of trust from the root anchors. Cryptography and the
    answers of the resolver are arbitrary functions; the resolver may answer every look-up differently. */
module Validator {
  import opened Wrappers
  import opened Names
  import opened LabelSuffixes
  import opened Records
  import opened Filters

  /** Key tags, digests and signature checks of the DNS library. */
  datatype Crypto = Crypto(keyTag: RR -> nat, verify: (SignatureFields, RR, seq<RR>) -> bool,
                           toDs: (RR, nat) -> Option<RR>)

  /** lookup(n, name, type) is the resolver's reply to the n-th look-up. */
  datatype Env = Env(crypto: Crypto, anchors: seq<RR>, lookup: (nat, string, Word16) -> Option<Message>, now: Word32)

  // ---------------------------------------------------------------- one record set

  /** The key has the signature's tag and verifies it. */
  predicate KeyVerifies(c: Crypto, sig: SignatureFields, key: RR, rrset: seq<RR>) {
    key.data.DNSKEY? && sig.keyTag == c.keyTag(key) && c.verify(sig, key, rrset)
  }

  /** The record is a signature in its validity period that one of the keys verifies. */
  predicate SignatureHolds(env: Env, rrset: seq<RR>, sig: RR, keys: seq<RR>) {
    && sig.data.RRSIG? && sig.data.sig.inception <= env.now <= sig.data.sig.expiration
    && exists key <- keys :: KeyVerifies(env.crypto, sig.data.sig, key, rrset)
  }

  predicate SetHolds(env: Env, rrset: seq<RR>, sigs: seq<RR>, keys: seq<RR>) {
    rrset != [] && sigs != [] && keys != [] && forall sig <- sigs :: SignatureHolds(env, rrset, sig, keys)
  }

  /** What a signature needs, by its fields: the clock between inception and expiration, both included, and a key
      with its tag that verifies the set. */
  predicate VerifiesNow(env: Env, sig: RR, rrset: seq<RR>, keys: seq<RR>) {
    && sig.data.RRSIG? && sig.data.sig.inception <= env.now && env.now <= sig.data.sig.expiration
    && exists key <- keys ::
         && key.data.DNSKEY? && env.crypto.keyTag(key) == sig.data.sig.keyTag
         && env.crypto.verify(sig.data.sig, key, rrset)
  }

  /** Every signature must hold; one that does not rejects the set. */
  method ValidateSet(env: Env, rrset: seq<RR>, sigs: seq<RR>, keys: seq<RR>) returns (ok: bool)
    ensures ok == SetHolds(env, rrset, sigs, keys)
    ensures ok <==>
      rrset != [] && sigs != [] && keys != [] && forall sig <- sigs :: VerifiesNow(env, sig, rrset, keys)
  {
    if |rrset| == 0 || |sigs| == 0 || |keys| == 0 {
      return false;
    }
    for i := 0 to |sigs|
      invariant forall j :: 0 <= j < i ==> SignatureHolds(env, rrset, sigs[j], keys)
    {
      var sig := sigs[i];
      assert sig in sigs;
      if !sig.data.RRSIG? || env.now < sig.data.sig.inception || env.now > sig.data.sig.expiration {
        return false;
      }
      var verified := false;
      var k := 0;
      while k < |keys| && !verified
        invariant 0 <= k <= |keys|
        invariant verified <==> exists j :: 0 <= j < k && KeyVerifies(env.crypto, sig.data.sig, keys[j], rrset)
      {
        verified := KeyVerifies(env.crypto, sig.data.sig, keys[k], rrset);
        k := k + 1;
      }
      if !verified {
        assert !SignatureHolds(env, rrset, sig, keys);
        return false;
      }
    }
    return true;
  }

  // ---------------------------------------------------------------- keys and digests

  const FLAG_SEP := 1

  predicate IsEntryPoint(key: RR) {
    key.data.DNSKEY? && key.data.flags % 2 == FLAG_SEP
  }

  /** The digest record of the key agrees with ds, up to the case of the digest text. */
  predicate DigestMatches(c: Crypto, ds: RR, key: RR) {
    ds.data.DS? && IsEntryPoint(key) &&
    match c.toDs(key, ds.data.digestType)
    case None => false
    case Some(made) =>
      && made.data.DS? && made.data.keyTag == ds.data.keyTag && made.data.algorithm == ds.data.algorithm
      && made.data.digestType == ds.data.digestType && Lower(made.data.digest) == Lower(ds.data.digest)
  }

  predicate SomeDigestMatches(c: Crypto, dss: seq<RR>, keys: seq<RR>) {
    exists ds <- dss, key <- keys :: DigestMatches(c, ds, key)
  }

  method DsMatchesKsk(c: Crypto, dss: seq<RR>, keys: seq<RR>) returns (found: bool)
    ensures found == SomeDigestMatches(c, dss, keys)
  {
    hide DigestMatches;
    for i := 0 to |dss|
      invariant forall j, key :: 0 <= j < i && key in keys ==> !DigestMatches(c, dss[j], key)
    {
      for k := 0 to |keys|
        invariant forall j :: 0 <= j < k ==> !DigestMatches(c, dss[i], keys[j])
      {
        if DigestMatches(c, dss[i], keys[k]) {
          return true;
        }
      }
    }
    return false;
  }

  /** An anchor that is a key equals one of the keys. */
  predicate SameKey(c: Crypto, anchor: RR, key: RR) {
    && anchor.data.DNSKEY? && key.data.DNSKEY? && c.keyTag(anchor) == c.keyTag(key)
    && anchor.data.algorithm == key.data.algorithm && anchor.data.flags == key.data.flags
    && anchor.data.protocol == key.data.protocol && Lower(anchor.data.publicKey) == Lower(key.data.publicKey)
  }

  predicate Anchored(env: Env, keys: seq<RR>) {
    || SomeDigestMatches(env.crypto, env.anchors, keys)
    || exists anchor <- env.anchors, key <- keys :: SameKey(env.crypto, anchor, key)
  }

  method AnchorsMatchRootTrust(env: Env, keys: seq<RR>) returns (found: bool)
    ensures found == Anchored(env, keys)
  {
    hide SameKey, SomeDigestMatches;
    found := DsMatchesKsk(env.crypto, env.anchors, keys);
    if found {
      return;
    }
    for i := 0 to |env.anchors|
      invariant forall j, key :: 0 <= j < i && key in keys ==> !SameKey(env.crypto, env.anchors[j], key)
    {
      for k := 0 to |keys|
        invariant forall j :: 0 <= j < k ==> !SameKey(env.crypto, env.anchors[i], keys[j])
      {
        if SameKey(env.crypto, env.anchors[i], keys[k]) {
          return true;
        }
      }
    }
    return false;
  }

  // ---------------------------------------------------------------- zone cuts

  /** The zones from the top-level one down to the signer, as texts. */
  method ZoneCutPath(signer: string) returns (cuts: seq<string>)
    requires EndsInDot(signer)
    ensures cuts == Cuts(signer)
  {
    hide SplitDots, JoinDots, HasSuffix;
    if signer == "." {
      return [];
    }
    var parts := SplitDots(TrimSuffix(signer, "."));
    cuts := [];
    for i := 0 to |parts|
      invariant |cuts| == i && forall j :: 0 <= j < i ==> cuts[j] == JoinDots(parts[|parts| - 1 - j..]) + "."
    {
      cuts := cuts + [JoinDots(parts[|parts| - 1 - i..]) + "."];
    }
  }

  function Cuts(signer: string): seq<string> {
    if signer == "." then []
    else
      var parts := SplitDots(TrimSuffix(signer, "."));
      seq(|parts|, i requires 0 <= i < |parts| => JoinDots(parts[|parts| - 1 - i..]) + ".")
  }

  /** The label suffixes of a name, escapes honoured, shortest first. */
  function LabelCuts(signer: string): seq<string> {
    var parts := Labels(signer);
    seq(|parts|, i requires 0 <= i < |parts| => JoinDots(parts[|parts| - 1 - i..]) + ".")
  }

  /** The cuts are the label suffixes of the signer, shortest first, exactly when no dot of the signer is
      escaped; otherwise there are too many of them. */
  lemma CutsAreSuffixesIff(signer: string)
    requires IsFqdn(signer) && signer != "."
    ensures var escaped := HasEscapedDot(TrimSuffix(signer, "."), false);
      (Cuts(signer) == LabelCuts(signer) <==> !escaped) && (escaped <==> |Cuts(signer)| > |LabelCuts(signer)|)
  {
    hide SplitDots, SplitEscaped, JoinDots, HasEscapedDot, TrailingBackslashes;
    var body := TrimSuffix(signer, ".");
    TrimmedDotReturns(signer);
    assert signer[..|signer| - 1] == body;
    CutsAgreeIffNoEscapedDot(body, false);
  }

  /** The label suffixes have the labels they should, and the last of them is the signer. */
  lemma LabelCutsAreSuffixes(signer: string, i: nat)
    requires IsFqdn(signer) && signer != "." && "" !in Labels(signer) && i < |Labels(signer)|
    ensures var parts := Labels(signer);
      && Labels(Fqdn(JoinDots(parts[|parts| - 1 - i..]))) == parts[|parts| - 1 - i..]
      && |LabelCuts(signer)| == |parts| && LabelCuts(signer)[|parts| - 1] == signer
  {
    hide SplitEscaped, JoinDots, TrailingBackslashes;
    var parts, body := Labels(signer), signer[..|signer| - 1];
    LabelsOfSuffix(signer, |parts| - 1 - i);
    JoinOfSplitEscaped(body, false);
    assert parts[0..] == parts && signer == body + ".";
  }

  const ESCAPED_BODY := "a\\.b.com"

  /** The witness: "b.com." is a cut of a signer whose labels are "a\.b" and "com". */
  lemma EscapedDotAddsCut()
    ensures var signer := ESCAPED_BODY + ".";
      && IsFqdn(signer) && |Cuts(signer)| == 3 && Cuts(signer)[1] == "b.com." && |LabelCuts(signer)| < 3
  {
    hide SplitDots, SplitEscaped, JoinDots, HasEscapedDot, TrailingBackslashes;
    var signer, parts := ESCAPED_BODY + ".", ["a\\", "b", "com"];
    assert signer[..|ESCAPED_BODY|] == ESCAPED_BODY && TrimSuffix(signer, ".") == ESCAPED_BODY;
    JoinOfThree(parts[0], parts[1], parts[2]);
    assert JoinDots(parts) == ESCAPED_BODY;
    SplitOfJoin(parts);
    assert Cuts(signer)[1] == JoinDots(parts[1..]) + "." && parts[1..] == ["b", "com"];
    JoinOfTwo("b", "com");
    EscapedBody();
    CutsAreSuffixesIff(signer);
  }

  lemma EscapedBody()
    ensures HasEscapedDot(ESCAPED_BODY, false) && TrailingBackslashes(ESCAPED_BODY) == 0
  {
    assert ESCAPED_BODY[1..][0] == '\\' && ESCAPED_BODY[1..][1..][0] == '.';
    assert HasEscapedDot(ESCAPED_BODY[1..][1..], true);
    assert HasEscapedDot(ESCAPED_BODY[1..], false);
  }

  lemma JoinOfTwo(a: string, b: string)
    ensures JoinDots([a, b]) == a + "." + b
  {
    assert [a, b][1..] == [b];
  }

  lemma JoinOfThree(a: string, b: string, c: string)
    ensures JoinDots([a, b, c]) == a + "." + (b + "." + c)
  {
    assert [a, b, c][1..] == [b, c];
    JoinOfTwo(b, c);
  }

  lemma TrimmedDotReturns(s: string)
    requires EndsInDot(s)
    ensures TrimSuffix(s, ".") + "." == s
  {
  }

  // ---------------------------------------------------------------- the chain

  predicate IsNamed(rr: RR, name: string, qtype: Word16) {
    rr.rrtype == qtype && CanonicalName(rr.name) == CanonicalName(name)
  }

  predicate SignsType(rr: RR, name: string, qtype: Word16) {
    && !IsNamed(rr, name, qtype)
    && rr.rrtype == TYPE_RRSIG && rr.data.RRSIG? && rr.data.sig.covered == qtype
    && CanonicalName(rr.name) == CanonicalName(name)
  }

  /** The records of a name and type in the three sections of a reply, and the signatures over them. */
  function Named(m: Message, name: string, qtype: Word16): seq<RR> {
    Filter(m.answer + m.authority + m.extra, (rr: RR) => IsNamed(rr, name, qtype))
  }

  function SigsFor(m: Message, name: string, qtype: Word16): seq<RR> {
    Filter(m.answer + m.authority + m.extra, (rr: RR) => SignsType(rr, name, qtype))
  }

  method FetchSignedRRset(env: Env, n: nat, name: string, qtype: Word16) returns (reply: Option<(seq<RR>, seq<RR>)>)
    ensures reply == Fetched(env, n, name, qtype)
  {
    hide CanonicalName, SignsType, IsNamed, Filter;
    var resp := env.lookup(n, Fqdn(name), qtype);
    if resp.None? || resp.value.rcode != RCODE_SUCCESS {
      return None;
    }
    var rrset, sigs := SplitReply(resp.value, name, qtype);
    return Some((rrset, sigs));
  }

  method SplitReply(m: Message, name: string, qtype: Word16) returns (rrset: seq<RR>, sigs: seq<RR>)
    ensures rrset == Named(m, name, qtype) && sigs == SigsFor(m, name, qtype)
  {
    hide CanonicalName, SignsType, IsNamed, Filter;
    var all := m.answer + m.authority + m.extra;
    rrset, sigs := [], [];
    ghost var inSet := (rr: RR) => IsNamed(rr, name, qtype);
    ghost var isSig := (rr: RR) => SignsType(rr, name, qtype);
    FilterOfNothing(all, inSet);
    FilterOfNothing(all, isSig);
    for i := 0 to |all|
      invariant rrset == Filter(all[..i], inSet) && sigs == Filter(all[..i], isSig)
    {
      FilterStep(all, i, inSet);
      FilterStep(all, i, isSig);
      NotBoth(all[i], name, qtype);
      if IsNamed(all[i], name, qtype) {
        rrset := rrset + [all[i]];
      } else if SignsType(all[i], name, qtype) {
        sigs := sigs + [all[i]];
      }
    }
    assert all[..|all|] == all;
  }

  lemma FilterOfNothing<T>(s: seq<T>, keep: T -> bool)
    ensures Filter(s[..0], keep) == []
  {
  }

  lemma NotBoth(rr: RR, name: string, qtype: Word16)
    ensures IsNamed(rr, name, qtype) ==> !SignsType(rr, name, qtype)
  {
  }

  function Fetched(env: Env, n: nat, name: string, qtype: Word16): Option<(seq<RR>, seq<RR>)> {
    var resp := env.lookup(n, Fqdn(name), qtype);
    if resp.None? || resp.value.rcode != RCODE_SUCCESS then None
    else Some((Named(resp.value, name, qtype), SigsFor(resp.value, name, qtype)))
  }

  /** The root key set fetched by the n-th look-up is self-signed and anchored. */
  predicate RootHolds(env: Env, n: nat, keys: seq<RR>) {
    var reply := Fetched(env, n, ".", TYPE_DNSKEY);
    && env.anchors != [] && reply.Some? && keys == reply.value.0
    && SetHolds(env, keys, reply.value.1, keys) && Anchored(env, keys)
  }

  /** The n-th and following look-up give a DS set that verifies under the parent's keys, and a
      self-signed child key set with an entry point that hashes to one of the DS records. */
  predicate DelegationHolds(env: Env, n: nat, zone: string, parent: seq<RR>, child: seq<RR>) {
    var ds := Fetched(env, n, zone, TYPE_DS);
    var reply := Fetched(env, n + 1, zone, TYPE_DNSKEY);
    && ds.Some? && SetHolds(env, ds.value.0, ds.value.1, parent)
    && reply.Some? && child == reply.value.0 && SetHolds(env, child, reply.value.1, child)
    && SomeDigestMatches(env.crypto, ds.value.0, child)
  }

  ghost predicate NoDelegation(env: Env, n: nat, zone: string, parent: seq<RR>) {
    forall child :: !DelegationHolds(env, n, zone, parent, child)
  }

  /** chain lists the key sets of the root and of every cut, each established from the one before it;
      look-ups are numbered from n. */
  ghost predicate ChainHolds(env: Env, n: nat, cuts: seq<string>, chain: seq<seq<RR>>) {
    && |chain| == |cuts| + 1 && RootHolds(env, n, chain[0])
    && forall i, j :: 0 <= i < |cuts| && j == i + 1 ==> DelegationHolds(env, n + 1 + 2 * i, cuts[i], chain[i], chain[j])
  }

  /** The key set at the end of a chain that holds. */
  ghost predicate Establishes(env: Env, n: nat, zone: string, keys: seq<RR>) {
    exists chain :: ChainHolds(env, n, Cuts(zone), chain) && keys == chain[|chain| - 1]
  }

  method ValidateRootZone(env: Env, n: nat) returns (keys: Option<seq<RR>>)
    ensures keys.Some? ==> RootHolds(env, n, keys.value)
    ensures keys.None? ==> forall ks :: !RootHolds(env, n, ks)
  {
    hide SetHolds, Anchored, Fetched;
    if |env.anchors| == 0 {
      return None;
    }
    var reply := FetchSignedRRset(env, n, ".", TYPE_DNSKEY);
    if reply.None? {
      return None;
    }
    var ok := ValidateSet(env, reply.value.0, reply.value.1, reply.value.0);
    if !ok {
      return None;
    }
    var anchored := AnchorsMatchRootTrust(env, reply.value.0);
    return if anchored then Some(reply.value.0) else None;
  }

  method ValidateZoneDelegation(env: Env, n: nat, zone: string, parent: seq<RR>) returns (keys: Option<seq<RR>>)
    ensures keys.Some? ==> DelegationHolds(env, n, zone, parent, keys.value)
    ensures keys.None? ==> NoDelegation(env, n, zone, parent)
  {
    hide SetHolds, Fetched, SomeDigestMatches;
    var ds := FetchSignedRRset(env, n, zone, TYPE_DS);
    if ds.None? {
      return None;
    }
    var ok := ValidateSet(env, ds.value.0, ds.value.1, parent);
    if !ok {
      return None;
    }
    var reply := FetchSignedRRset(env, n + 1, zone, TYPE_DNSKEY);
    if reply.None? {
      return None;
    }
    ok := ValidateSet(env, reply.value.0, reply.value.1, reply.value.0);
    if !ok {
      return None;
    }
    var matches := DsMatchesKsk(env.crypto, ds.value.0, reply.value.0);
    return if matches then Some(reply.value.0) else None;
  }

  /** Walks from the root to the signer's zone; next is the number of the following look-up. */
  method EstablishTrust(env: Env, n: nat, zone: string) returns (keys: Option<seq<RR>>, next: nat)
    requires EndsInDot(zone)
    ensures keys.Some? ==> Establishes(env, n, zone, keys.value) && next == n + 1 + 2 * |Cuts(zone)|
    ensures keys.None? ==> forall ks :: !Establishes(env, n, zone, ks)
  {
    hide RootHolds, DelegationHolds, Cuts;
    next := n + 1;
    keys := ValidateRootZone(env, n);
    if keys.None? {
      return;
    }
    var cuts := ZoneCutPath(zone);
    ghost var chain := [keys.value];
    for i := 0 to |cuts|
      invariant keys.Some? && next == n + 1 + 2 * i && |chain| == i + 1 && keys.value == chain[i]
      invariant RootHolds(env, n, chain[0])
      invariant forall a, b :: 0 <= a < i && b == a + 1 ==>
        DelegationHolds(env, n + 1 + 2 * a, cuts[a], chain[a], chain[b])
    {
      keys := ValidateZoneDelegation(env, next, cuts[i], keys.value);
      if keys.None? {
        BrokenChain(env, n, zone, chain, i);
        return;
      }
      chain := chain + [keys.value];
      next := next + 2;
    }
    assert ChainHolds(env, n, cuts, chain);
  }

  /** Key sets along a chain are determined by the look-ups, so one broken link breaks every chain. */
  lemma BrokenChain(env: Env, n: nat, zone: string, chain: seq<seq<RR>>, i: nat)
    requires i < |Cuts(zone)| && |chain| == i + 1 && RootHolds(env, n, chain[0])
    requires forall a, b :: 0 <= a < i && b == a + 1 ==>
      DelegationHolds(env, n + 1 + 2 * a, Cuts(zone)[a], chain[a], chain[b])
    requires NoDelegation(env, n + 1 + 2 * i, Cuts(zone)[i], chain[i])
    ensures forall ks :: !Establishes(env, n, zone, ks)
  {
    hide Cuts, SetHolds, Anchored, Fetched, SomeDigestMatches;
    forall other ensures !ChainHolds(env, n, Cuts(zone), other) {
      if ChainHolds(env, n, Cuts(zone), other) {
        ChainLink(env, n, Cuts(zone), other, i);
        SameChain(env, n, Cuts(zone), chain, other, i);
      }
    }
  }

  lemma ChainLink(env: Env, n: nat, cuts: seq<string>, chain: seq<seq<RR>>, i: nat)
    requires ChainHolds(env, n, cuts, chain) && i < |cuts|
    ensures DelegationHolds(env, n + 1 + 2 * i, cuts[i], chain[i], chain[i + 1])
  {
  }

  lemma {:induction false} SameChain(env: Env, n: nat, cuts: seq<string>, a: seq<seq<RR>>, b: seq<seq<RR>>, i: nat)
    requires i < |a| && i < |b| && i <= |cuts|
    requires RootHolds(env, n, a[0]) && RootHolds(env, n, b[0])
    requires forall x, y :: 0 <= x < i && y == x + 1 ==> DelegationHolds(env, n + 1 + 2 * x, cuts[x], a[x], a[y])
    requires forall x, y :: 0 <= x < i && y == x + 1 ==> DelegationHolds(env, n + 1 + 2 * x, cuts[x], b[x], b[y])
    ensures a[i] == b[i]
  {
    hide SetHolds, Anchored, Fetched, SomeDigestMatches;
    if i > 0 {
      SameChain(env, n, cuts, a, b, i - 1);
      assert DelegationHolds(env, n + 1 + 2 * (i - 1), cuts[i - 1], a[i - 1], a[i]);
      assert DelegationHolds(env, n + 1 + 2 * (i - 1), cuts[i - 1], b[i - 1], b[i]);
    }
  }

  // ---------------------------------------------------------------- a whole response

  function Signatures(m: Message): seq<RR> {
    Filter(m.answer + m.authority + m.extra, (rr: RR) => rr.data.RRSIG?)
  }

  predicate IsCovered(rr: RR, sig: RR)
    requires sig.data.RRSIG?
  {
    && rr.rrtype != TYPE_RRSIG && rr.rrtype == sig.data.sig.covered && rr.rclass == sig.rclass
    && CanonicalName(rr.name) == CanonicalName(sig.name)
  }

  /** The records a signature covers: same type, class and owner; signatures themselves aside. */
  function Covered(m: Message, sig: RR): seq<RR>
    requires sig.data.RRSIG?
  {
    Filter(m.answer + m.authority + m.extra, (rr: RR) => IsCovered(rr, sig))
  }

  function SignerZone(sig: RR): string
    requires sig.data.RRSIG?
  {
    CanonicalName(sig.data.sig.signer)
  }

  /** The signature holds over its records with the given keys. */
  predicate Proves(env: Env, m: Message, sig: RR, keys: seq<RR>) {
    sig.data.RRSIG? && Covered(m, sig) != [] && keys != [] && SignatureHolds(env, Covered(m, sig), sig, keys)
  }

  datatype Status = Authenticated | Insecure | Bogus

  /** Every zone in the table has the keys that some run of look-ups establishes for it. */
  ghost predicate TableHolds(env: Env, trusted: map<string, seq<RR>>) {
    forall z <- trusted :: exists n :: Establishes(env, n, z, trusted[z])
  }

  /** The signature holds with keys that some run of look-ups establishes for its signer. */
  ghost predicate Backed(env: Env, m: Message, sig: RR) {
    sig.data.RRSIG? && exists n, keys :: Establishes(env, n, SignerZone(sig), keys) && Proves(env, m, sig, keys)
  }

  /** What a rejection rests on: a signer that some run of look-ups fails to establish, or a signature
      that does not hold with keys established for its signer. */
  ghost predicate Refutes(env: Env, m: Message, sig: RR) {
    sig.data.RRSIG? &&
    (|| (exists n :: Unestablished(env, n, SignerZone(sig)))
     || (exists n, keys :: Establishes(env, n, SignerZone(sig), keys) && !Proves(env, m, sig, keys)))
  }

  ghost predicate Unestablished(env: Env, n: nat, zone: string) {
    forall keys :: !Establishes(env, n, zone, keys)
  }

  type TrustTable = map<string, seq<RR>>

  /** One signature of the first loop: its signer's keys are established from look-up n0 on, unless the table has
      them. */
  ghost predicate TrustStep(env: Env, sig: RR, n0: nat, t0: TrustTable, n: nat, t: TrustTable) {
    sig.data.RRSIG? && (
      if SignerZone(sig) in t0 then n == n0 && t == t0
      else
        && n == n0 + 1 + 2 * |Cuts(SignerZone(sig))|
        && exists keys :: NewlyTrusted(env, SignerZone(sig), n0, t0, t, keys))
  }

  ghost predicate NewlyTrusted(env: Env, zone: string, n0: nat, t0: TrustTable, t: TrustTable, keys: seq<RR>) {
    Establishes(env, n0, zone, keys) && t == t0[zone := keys]
  }

  /** The first loop as a whole: after the signatures, n look-ups were made and t holds the signers' keys. */
  ghost predicate TrustRun(env: Env, sigs: seq<RR>, n: nat, t: TrustTable)
    decreases |sigs|
  {
    if |sigs| == 0 then n == 0 && t == map[]
    else exists n0, t0 {:trigger TrustStep(env, sigs[|sigs| - 1], n0, t0, n, t)} ::
      TrustRun(env, sigs[..|sigs| - 1], n0, t0) && TrustStep(env, sigs[|sigs| - 1], n0, t0, n, t)
  }

  /** The keys at the end of a chain are determined by the look-ups. */
  lemma EstablishedOnce(env: Env, n: nat, zone: string, a: seq<RR>, b: seq<RR>)
    requires Establishes(env, n, zone, a) && Establishes(env, n, zone, b)
    ensures a == b
  {
    hide RootHolds, DelegationHolds, Cuts;
    var x :| ChainHolds(env, n, Cuts(zone), x) && a == x[|x| - 1];
    var y :| ChainHolds(env, n, Cuts(zone), y) && b == y[|y| - 1];
    SameChain(env, n, Cuts(zone), x, y, |Cuts(zone)|);
  }

  /** So is the whole run. */
  lemma {:induction false} TrustRunOnce(env: Env, sigs: seq<RR>, n: nat, t: TrustTable, n1: nat, t1: TrustTable)
    requires TrustRun(env, sigs, n, t) && TrustRun(env, sigs, n1, t1)
    ensures n == n1 && t == t1
    decreases |sigs|
  {
    hide Establishes, Cuts, CanonicalName;
    if |sigs| > 0 {
      var sig, init := sigs[|sigs| - 1], sigs[..|sigs| - 1];
      var n0: nat, t0: TrustTable :| TrustRun(env, init, n0, t0) && TrustStep(env, sig, n0, t0, n, t);
      var m0: nat, u0: TrustTable :| TrustRun(env, init, m0, u0) && TrustStep(env, sig, m0, u0, n1, t1);
      TrustRunOnce(env, init, n0, t0, m0, u0);
      if SignerZone(sig) !in t0 {
        var k :| NewlyTrusted(env, SignerZone(sig), n0, t0, t, k);
        var l :| NewlyTrusted(env, SignerZone(sig), n0, t0, t1, l);
        EstablishedOnce(env, n0, SignerZone(sig), k, l);
      }
    }
  }

  ghost predicate RunExists(env: Env, sigs: seq<RR>) {
    exists n, t :: TrustRun(env, sigs, n, t)
  }

  lemma {:induction false} RunNeedsPrefix(env: Env, sigs: seq<RR>, k: nat)
    requires k <= |sigs| && RunExists(env, sigs)
    ensures RunExists(env, sigs[..k])
    decreases |sigs|
  {
    hide TrustStep;
    if k < |sigs| {
      var n, t :| TrustRun(env, sigs, n, t);
      var n0: nat, t0: TrustTable :|
        TrustRun(env, sigs[..|sigs| - 1], n0, t0) && TrustStep(env, sigs[|sigs| - 1], n0, t0, n, t);
      RunNeedsPrefix(env, sigs[..|sigs| - 1], k);
      assert sigs[..|sigs| - 1][..k] == sigs[..k];
    } else {
      assert sigs[..k] == sigs;
    }
  }

  /** A signer that is not established where the run meets it ends every run. */
  lemma BrokenRun(env: Env, sigs: seq<RR>, i: nat, n: nat, t: TrustTable)
    requires i < |sigs| && sigs[i].data.RRSIG? && TrustRun(env, sigs[..i], n, t)
    requires SignerZone(sigs[i]) !in t && Unestablished(env, n, SignerZone(sigs[i]))
    ensures !RunExists(env, sigs)
  {
    hide Establishes, Cuts, CanonicalName;
    if RunExists(env, sigs) {
      RunNeedsPrefix(env, sigs, i + 1);
      var n1, t1 :| TrustRun(env, sigs[..i + 1], n1, t1);
      assert sigs[..i + 1][..i] == sigs[..i];
      var n0: nat, t0: TrustTable :| TrustRun(env, sigs[..i], n0, t0) && TrustStep(env, sigs[i], n0, t0, n1, t1);
      TrustRunOnce(env, sigs[..i], n, t, n0, t0);
    }
  }

  lemma RunGrows(env: Env, sigs: seq<RR>, i: nat, n0: nat, t0: TrustTable, n: nat, t: TrustTable)
    requires i < |sigs| && TrustRun(env, sigs[..i], n0, t0) && TrustStep(env, sigs[i], n0, t0, n, t)
    ensures TrustRun(env, sigs[..i + 1], n, t)
  {
    hide TrustStep;
    assert sigs[..i + 1][..i] == sigs[..i];
  }

  /** Every signature holds with the keys that this very run of look-ups establishes for its signer. */
  ghost predicate Authentic(env: Env, m: Message) {
    exists n, t :: TrustRun(env, Signatures(m), n, t) && AllProve(env, m, t)
  }

  ghost predicate AllProve(env: Env, m: Message, t: TrustTable) {
    forall sig <- Signatures(m) :: sig.data.RRSIG? && SignerZone(sig) in t && Proves(env, m, sig, t[SignerZone(sig)])
  }

  /** A signature outside its validity period, anywhere in a response, rules out authenticity. */
  lemma AuthenticIsCurrent(env: Env, m: Message)
    requires Authentic(env, m)
    ensures forall rr <- AllRecords(m) :: rr.data.RRSIG? ==>
      rr.data.sig.inception <= env.now <= rr.data.sig.expiration
  {
    hide TrustRun, CanonicalName, Covered, KeyVerifies;
    forall rr | rr in AllRecords(m) && rr.data.RRSIG?
      ensures rr.data.sig.inception <= env.now <= rr.data.sig.expiration
    {
      FilterHas(AllRecords(m), (x: RR) => x.data.RRSIG?, rr);
      assert rr in Signatures(m);
    }
  }

  /** The signature is in date and verified, over all records of the response of its owner, class and covered type and
      no others, by a key established for its signer. */
  ghost predicate BackedByFields(env: Env, m: Message, sig: RR)
    requires sig.data.RRSIG?
  {
    exists n, keys, rrset :: Establishes(env, n, CanonicalName(sig.data.sig.signer), keys)
      && SelectsCovered(m, sig, rrset) && rrset != [] && VerifiesNow(env, sig, rrset, keys)
  }

  ghost predicate SelectsCovered(m: Message, sig: RR, rrset: seq<RR>)
    requires sig.data.RRSIG?
  {
    IsSelection(AllRecords(m), (rr: RR) => rr.rrtype != TYPE_RRSIG && rr.rrtype == sig.data.sig.covered
                                           && rr.rclass == sig.rclass
                                           && CanonicalName(rr.name) == CanonicalName(sig.name), rrset)
  }

  lemma BackedMeans(env: Env, m: Message, sig: RR)
    requires Backed(env, m, sig)
    ensures BackedByFields(env, m, sig)
  {
    hide CanonicalName, Establishes;
    var n, keys :| Establishes(env, n, SignerZone(sig), keys) && Proves(env, m, sig, keys);
    var byFields := (rr: RR) => rr.rrtype != TYPE_RRSIG && rr.rrtype == sig.data.sig.covered
                                && rr.rclass == sig.rclass && CanonicalName(rr.name) == CanonicalName(sig.name);
    FilterSelects(AllRecords(m), byFields);
    FilterSame(AllRecords(m), byFields, (rr: RR) => IsCovered(rr, sig));
    assert SelectsCovered(m, sig, Covered(m, sig));
    SignaturesAreCurrent(env, Covered(m, sig), [sig], keys);
    assert sig in [sig];
  }

  // ---------------------------------------------------------------- a chain, by the fields of its signatures

  predicate CoversType(rr: RR, name: string, qtype: Word16) {
    && rr.rrtype == TYPE_RRSIG && rr.data.RRSIG? && rr.data.sig.covered == qtype
    && CanonicalName(rr.name) == CanonicalName(name)
  }

  /** The k-th look-up gave a successful reply with records of the name and type and with signatures over them; each
      of these signatures is in its validity period and verified, over just those records, by one of the keys. */
  ghost predicate SignedReply(env: Env, k: nat, name: string, qtype: Word16, keys: seq<RR>) {
    var reply := env.lookup(k, Fqdn(name), qtype);
    && reply.Some? && reply.value.rcode == RCODE_SUCCESS
    && (exists rr <- AllRecords(reply.value) :: CoversType(rr, name, qtype))
    && exists rrset :: SignedSet(env, reply.value, name, qtype, keys, rrset)
  }

  ghost predicate SignedSet(env: Env, m: Message, name: string, qtype: Word16, keys: seq<RR>, rrset: seq<RR>) {
    && rrset != []
    && IsSelection(AllRecords(m), (rr: RR) => rr.rrtype == qtype && CanonicalName(rr.name) == CanonicalName(name),
                   rrset)
    && forall rr <- AllRecords(m) :: CoversType(rr, name, qtype) ==> VerifiesNow(env, rr, rrset, keys)
  }

  lemma HeldSetIsSigned(env: Env, k: nat, name: string, qtype: Word16, keys: seq<RR>)
    requires qtype != TYPE_RRSIG
    requires var reply := Fetched(env, k, name, qtype); reply.Some? && SetHolds(env, reply.value.0, reply.value.1, keys)
    ensures SignedReply(env, k, name, qtype, keys)
  {
    hide CanonicalName, SignatureHolds, VerifiesNow, Filter;
    var m := env.lookup(k, Fqdn(name), qtype).value;
    var rrset, sigs := Named(m, name, qtype), SigsFor(m, name, qtype);
    var isNamed := (rr: RR) => rr.rrtype == qtype && CanonicalName(rr.name) == CanonicalName(name);
    FilterSelects(AllRecords(m), isNamed);
    FilterSame(AllRecords(m), isNamed, (rr: RR) => IsNamed(rr, name, qtype));
    forall rr | rr in AllRecords(m) ensures rr in sigs <==> CoversType(rr, name, qtype) {
      FilterHas(AllRecords(m), (x: RR) => SignsType(x, name, qtype), rr);
    }
    SignaturesAreCurrent(env, rrset, sigs, keys);
    assert sigs[0] in sigs;
    FilterHas(AllRecords(m), (x: RR) => SignsType(x, name, qtype), sigs[0]);
    assert SignedSet(env, m, name, qtype, keys, rrset);
  }

  lemma SignaturesAreCurrent(env: Env, rrset: seq<RR>, sigs: seq<RR>, keys: seq<RR>)
    requires SetHolds(env, rrset, sigs, keys)
    ensures forall sig <- sigs :: VerifiesNow(env, sig, rrset, keys)
  {
    forall sig | sig in sigs ensures VerifiesNow(env, sig, rrset, keys) {
      var key :| key in keys && KeyVerifies(env.crypto, sig.data.sig, key, rrset);
    }
  }

  /** Along a chain of trust no signature is out of date: the root's key set is signed by itself, every DS set by its
      parent's keys, every child's key set by itself. */
  lemma ChainIsSigned(env: Env, n: nat, cuts: seq<string>, chain: seq<seq<RR>>)
    requires ChainHolds(env, n, cuts, chain)
    ensures SignedReply(env, n, ".", TYPE_DNSKEY, chain[0])
    ensures forall i :: 0 <= i < |cuts| ==>
      && SignedReply(env, n + 1 + 2 * i, cuts[i], TYPE_DS, chain[i])
      && SignedReply(env, n + 2 + 2 * i, cuts[i], TYPE_DNSKEY, chain[i + 1])
  {
    hide SetHolds, Fetched, Anchored, SomeDigestMatches, SignedReply;
    HeldSetIsSigned(env, n, ".", TYPE_DNSKEY, chain[0]);
    forall i | 0 <= i < |cuts|
      ensures SignedReply(env, n + 1 + 2 * i, cuts[i], TYPE_DS, chain[i])
      ensures SignedReply(env, n + 2 + 2 * i, cuts[i], TYPE_DNSKEY, chain[i + 1])
    {
      ChainLink(env, n, cuts, chain, i);
      HeldSetIsSigned(env, n + 1 + 2 * i, cuts[i], TYPE_DS, chain[i]);
      HeldSetIsSigned(env, n + 2 + 2 * i, cuts[i], TYPE_DNSKEY, chain[i + 1]);
    }
  }

  /** A key that may be vouched for: its secure-entry-point flag is set. */
  predicate VouchedBy(c: Crypto, ds: RR, key: RR) {
    && ds.data.DS? && key.data.DNSKEY? && key.data.flags % 2 == 1
    && var made := c.toDs(key, ds.data.digestType);
       && made.Some? && made.value.data.DS? && made.value.data.digestType == ds.data.digestType
       && made.value.data.keyTag == ds.data.keyTag && made.value.data.algorithm == ds.data.algorithm
       && Lower(made.value.data.digest) == Lower(ds.data.digest)
  }

  /** And the chain hangs on the anchors: one of them is the digest of an entry point of the root, or equals one of
      its keys; every further key set has an entry point whose digest is in the DS set of its parent. */
  lemma ChainIsVouchedFor(env: Env, n: nat, cuts: seq<string>, chain: seq<seq<RR>>)
    requires ChainHolds(env, n, cuts, chain)
    ensures || (exists anchor <- env.anchors, key <- chain[0] :: VouchedBy(env.crypto, anchor, key))
            || (exists anchor <- env.anchors, key <- chain[0] ::
                  anchor.data.DNSKEY? && key.data.DNSKEY? && anchor.data.flags == key.data.flags
                  && anchor.data.protocol == key.data.protocol && anchor.data.algorithm == key.data.algorithm
                  && env.crypto.keyTag(anchor) == env.crypto.keyTag(key)
                  && Lower(anchor.data.publicKey) == Lower(key.data.publicKey))
    ensures forall i :: 0 <= i < |cuts| ==> ChildVouchedFor(env, n + 1 + 2 * i, cuts[i], chain[i + 1])
  {
    hide SetHolds, Fetched, CanonicalName;
    forall i | 0 <= i < |cuts| ensures ChildVouchedFor(env, n + 1 + 2 * i, cuts[i], chain[i + 1]) {
      ChainLink(env, n, cuts, chain, i);
      DelegationIsVouchedFor(env, n + 1 + 2 * i, cuts[i], chain[i], chain[i + 1]);
    }
    if SomeDigestMatches(env.crypto, env.anchors, chain[0]) {
      var ds, key :| ds in env.anchors && key in chain[0] && DigestMatches(env.crypto, ds, key);
      assert VouchedBy(env.crypto, ds, key);
    } else {
      var anchor, key :| anchor in env.anchors && key in chain[0] && SameKey(env.crypto, anchor, key);
    }
  }

  ghost predicate ChildVouchedFor(env: Env, k: nat, zone: string, keys: seq<RR>) {
    var reply := env.lookup(k, Fqdn(zone), TYPE_DS);
    reply.Some? && exists ds <- AllRecords(reply.value), key <- keys ::
      ds.rrtype == TYPE_DS && CanonicalName(ds.name) == CanonicalName(zone) && VouchedBy(env.crypto, ds, key)
  }

  lemma DelegationIsVouchedFor(env: Env, k: nat, zone: string, parent: seq<RR>, child: seq<RR>)
    requires DelegationHolds(env, k, zone, parent, child)
    ensures ChildVouchedFor(env, k, zone, child)
  {
    hide SetHolds, CanonicalName;
    var m := env.lookup(k, Fqdn(zone), TYPE_DS).value;
    var dss := Named(m, zone, TYPE_DS);
    var ds, key :| ds in dss && key in child && DigestMatches(env.crypto, ds, key);
    FilterHas(AllRecords(m), (x: RR) => IsNamed(x, zone, TYPE_DS), ds);
    assert VouchedBy(env.crypto, ds, key);
  }

  /** A response without signatures is insecure. One with signatures is authenticated exactly when every one of
      them holds with the keys established for its signer, and otherwise rejected; then some signer is not
      established or some signature does not hold. */
  method Validate(env: Env, m: Message) returns (status: Status)
    ensures status == Insecure <==> Signatures(m) == []
    ensures status == Authenticated <==> Signatures(m) != [] && Authentic(env, m)
    ensures status == Authenticated ==> forall sig <- Signatures(m) :: Backed(env, m, sig)
    ensures status == Bogus ==> exists sig <- Signatures(m) :: Refutes(env, m, sig)
    ensures status == Authenticated ==> forall rr <- AllRecords(m) :: rr.data.RRSIG? ==>
      rr.data.sig.inception <= env.now <= rr.data.sig.expiration
  {
    hide Signatures, Covered, SignatureHolds, Establishes, Unestablished, CanonicalName, TrustRun, Proves;
    var sigs := CollectSignatures(m);
    if |sigs| == 0 {
      return Insecure;
    }
    ghost var n;
    var trusted, broken;
    trusted, broken, n := EstablishAll(env, m, sigs);
    if broken.Some? {
      return Bogus;
    }
    for i := 0 to |sigs|
      invariant forall j :: 0 <= j < i ==> Proves(env, m, sigs[j], trusted[SignerZone(sigs[j])])
    {
      assert sigs[i] in sigs;
      var keys := trusted[SignerZone(sigs[i])];
      var ok := ProveOne(env, m, sigs[i], keys);
      if !ok {
        RefutedByRun(env, m, sigs[i], n, trusted);
        return Bogus;
      }
    }
    assert AllProve(env, m, trusted);
    AuthenticIsCurrent(env, m);
    return Authenticated;
  }

  /** One signature that does not hold with the run's keys rules out authenticity. */
  lemma RefutedByRun(env: Env, m: Message, sig: RR, n: nat, t: TrustTable)
    requires sig in Signatures(m) && sig.data.RRSIG? && TrustRun(env, Signatures(m), n, t) && TableHolds(env, t)
    requires SignerZone(sig) in t && !Proves(env, m, sig, t[SignerZone(sig)])
    ensures !Authentic(env, m) && Refutes(env, m, sig)
  {
    hide Signatures, Establishes, Proves, TrustRun, CanonicalName;
    if Authentic(env, m) {
      var n1: nat, t1: TrustTable :| TrustRun(env, Signatures(m), n1, t1) && AllProve(env, m, t1);
      TrustRunOnce(env, Signatures(m), n, t, n1, t1);
    }
  }

  // ---------------------------------------------------------------- records without a signature

  /** Some signature of the response covers the record. */
  predicate HasSignature(m: Message, rr: RR) {
    exists sig <- Signatures(m) :: sig.data.RRSIG? && rr in Covered(m, sig)
  }

  /** Some signature of the response is for the type, class and owner of the record. */
  predicate IsMatched(m: Message, rr: RR) {
    exists sig <- Signatures(m) :: sig.data.RRSIG? && IsCovered(rr, sig)
  }

  /** Some signature over the record holds with the keys that the table has for its signer. */
  predicate IsVerified(env: Env, m: Message, t: TrustTable, rr: RR) {
    exists sig <- Signatures(m) :: VerifiesRecord(env, m, t, rr, sig)
  }

  predicate VerifiesRecord(env: Env, m: Message, t: TrustTable, rr: RR, sig: RR) {
    && sig.data.RRSIG? && SignerZone(sig) in t && rr in Covered(m, sig)
    && SignatureHolds(env, Covered(m, sig), sig, t[SignerZone(sig)])
  }

  /** In a response that passes, a record is verified with the keys of this run exactly if it has a matching
      signature. So all of them are, signatures aside, exactly if each has one; the verdict does not ask for that. */
  lemma VerifiedIffMatched(env: Env, m: Message, n: nat, t: TrustTable)
    requires Authentic(env, m) && TrustRun(env, Signatures(m), n, t)
    ensures forall rr <- AllRecords(m) :: IsVerified(env, m, t, rr) <==> IsMatched(m, rr)
  {
    hide CanonicalName, Signatures, SignatureHolds, TrustRun, Establishes, IsCovered;
    var n1: nat, t1: TrustTable :| TrustRun(env, Signatures(m), n1, t1) && AllProve(env, m, t1);
    TrustRunOnce(env, Signatures(m), n, t, n1, t1);
    forall rr, sig: RR | sig.data.RRSIG? ensures rr in Covered(m, sig) <==> rr in AllRecords(m) && IsCovered(rr, sig) {
      FilterHas(AllRecords(m), (x: RR) => IsCovered(x, sig), rr);
    }
    forall rr | rr in AllRecords(m) && IsMatched(m, rr) ensures IsVerified(env, m, t, rr) {
      var sig :| sig in Signatures(m) && sig.data.RRSIG? && IsCovered(rr, sig);
      assert Proves(env, m, sig, t[SignerZone(sig)]);
      assert VerifiesRecord(env, m, t, rr, sig);
    }
  }

  function WithAnswer(m: Message, rr: RR): Message {
    m.(answer := m.answer + [rr])
  }

  /** Such a record changes neither the signatures nor what they cover, so it passes with the rest. */
  lemma UnsignedRecordPasses(env: Env, m: Message, rr: RR)
    requires !rr.data.RRSIG? && rr.rrtype != TYPE_RRSIG
    requires forall sig <- Signatures(m) :: sig.data.RRSIG? ==> !IsCovered(rr, sig)
    ensures Signatures(WithAnswer(m, rr)) == Signatures(m) && Authentic(env, WithAnswer(m, rr)) == Authentic(env, m)
    ensures !HasSignature(WithAnswer(m, rr), rr)
  {
    hide CanonicalName, IsCovered, Filter, TrustRun, SignatureHolds;
    var w := WithAnswer(m, rr);
    var rest := m.authority + m.extra;
    assert AllRecords(w) == m.answer + [rr] + rest && AllRecords(m) == m.answer + rest;
    FilterSkips(m.answer, rr, rest, (x: RR) => x.data.RRSIG?);
    forall sig | sig in Signatures(m) && sig.data.RRSIG?
      ensures Covered(w, sig) == Covered(m, sig) && rr !in Covered(w, sig)
    {
      FilterSkips(m.answer, rr, rest, (x: RR) => IsCovered(x, sig));
      FilterHas(AllRecords(w), (x: RR) => IsCovered(x, sig), rr);
    }
    assert forall t :: AllProve(env, w, t) <==> AllProve(env, m, t);
  }

  method CollectSignatures(m: Message) returns (sigs: seq<RR>)
    ensures sigs == Signatures(m)
    ensures forall i :: 0 <= i < |sigs| ==> sigs[i].data.RRSIG?
  {
    var all := m.answer + m.authority + m.extra;
    sigs := [];
    for i := 0 to |all|
      invariant sigs == Filter(all[..i], (rr: RR) => rr.data.RRSIG?)
    {
      FilterStep(all, i, (rr: RR) => rr.data.RRSIG?);
      if all[i].data.RRSIG? {
        sigs := sigs + [all[i]];
      }
    }
    assert all[..|all|] == all;
    assert forall i :: 0 <= i < |sigs| ==> sigs[i] in sigs;
  }

  /** The first loop: keys for every signer, each signer looked up once. */
  method EstablishAll(env: Env, m: Message, sigs: seq<RR>)
    returns (trusted: TrustTable, broken: Option<RR>, ghost n: nat)
    requires forall i :: 0 <= i < |sigs| ==> sigs[i].data.RRSIG?
    ensures broken.None? ==> TrustRun(env, sigs, n, trusted) && TableHolds(env, trusted)
    ensures broken.None? ==> forall i :: 0 <= i < |sigs| ==> SignerZone(sigs[i]) in trusted
    ensures broken.Some? ==> !RunExists(env, sigs) && broken.value in sigs && Refutes(env, m, broken.value)
  {
    hide Establishes, Covered, CanonicalName, Proves, TrustRun, Cuts, RunExists;
    trusted, broken := map[], None;
    var next := 0;
    n := 0;
    NoRun(env, sigs);
    for i := 0 to |sigs|
      invariant broken.None? && TableHolds(env, trusted) && n == next && TrustRun(env, sigs[..i], n, trusted)
      invariant forall j :: 0 <= j < i ==> SignerZone(sigs[j]) in trusted
    {
      var zone := SignerZone(sigs[i]);
      if zone in trusted {
        RunGrows(env, sigs, i, n, trusted, n, trusted);
        continue;
      }
      CanonicalEndsInDot(sigs[i].data.sig.signer);
      var keys;
      keys, next := EstablishTrust(env, next, zone);
      if keys.None? {
        broken := Some(sigs[i]);
        assert Unestablished(env, n, zone);
        BrokenRun(env, sigs, i, n, trusted);
        return;
      }
      assert NewlyTrusted(env, zone, n, trusted, trusted[zone := keys.value], keys.value);
      RunGrows(env, sigs, i, n, trusted, next, trusted[zone := keys.value]);
      trusted, n := trusted[zone := keys.value], next;
    }
    assert sigs[..|sigs|] == sigs;
  }

  lemma NoRun(env: Env, sigs: seq<RR>)
    ensures TrustRun(env, sigs[..0], 0, map[])
  {
  }

  lemma CanonicalEndsInDot(s: string)
    ensures EndsInDot(CanonicalName(s))
  {
  }

  /** The second loop's body. */
  method ProveOne(env: Env, m: Message, sig: RR, keys: seq<RR>) returns (ok: bool)
    requires sig.data.RRSIG?
    ensures ok == Proves(env, m, sig, keys)
  {
    hide Covered, SignatureHolds;
    var rrset := CoveredSet(m, sig);
    if |rrset| == 0 {
      return false;
    }
    ok := ValidateSet(env, rrset, [sig], keys);
  }

  method CoveredSet(m: Message, sig: RR) returns (rrset: seq<RR>)
    requires sig.data.RRSIG?
    ensures rrset == Covered(m, sig)
  {
    hide IsCovered, Filter;
    var all := m.answer + m.authority + m.extra;
    rrset := [];
    ghost var keep := (rr: RR) => IsCovered(rr, sig);
    FilterOfNothing(all, keep);
    for i := 0 to |all|
      invariant rrset == Filter(all[..i], keep)
    {
      FilterStep(all, i, keep);
      if IsCovered(all[i], sig) {
        rrset := rrset + [all[i]];
      }
    }
    assert all[..|all|] == all;
  }
}
