/** Keys of the response cache: the question, and the client subnet when one is known. */
module CacheKeys {
  import opened Arithmetic
  import opened Wrappers
  import opened Names
  import opened Records

  type Byte = n: nat | n < 256

  /** An address by its bits, and its text. How an IPv6 address prints is left to the library. */
  datatype Ip = V4(bits: nat) | V6(bits: nat)

  datatype Subnet = Subnet(family: Word16, address: Option<Ip>, prefix: Byte)

  /** Settings for keys of queries that carry no subnet. */
  datatype EcsContext = EcsContext(enabled: bool, client: Option<Ip>, len4: Byte, len6: Byte)

  // ---------------------------------------------------------------- texts of addresses

  function Text4(bits: nat): string {
    JoinDots([Decimal(bits / 0x100_0000), Decimal(bits / 0x1_0000 % 256), Decimal(bits / 0x100 % 256),
              Decimal(bits % 256)])
  }

  /** The library's text of an IPv6 address: different addresses print differently, in hexadecimal digits,
      colons and dots, and never as a plain number. */
  ghost predicate Prints(text6: nat -> string) {
    && (forall a, b :: text6(a) == text6(b) ==> a == b)
    && (forall a :: IsAddressText(text6(a)))
  }

  predicate IsAddressText(s: string) {
    '|' !in s && exists i :: 0 <= i < |s| && (s[i] == '.' || s[i] == ':')
  }

  function Text(ip: Ip, text6: nat -> string): string {
    if ip.V4? then Text4(ip.bits) else text6(ip.bits)
  }

  lemma DecimalIsDotless(n: nat)
    ensures Dotless(Decimal(n)) && '|' !in Decimal(n)
  {
  }

  lemma DigitsJoin(parts: seq<string>)
    requires forall i :: 0 <= i < |parts| ==> '|' !in parts[i]
    ensures '|' !in JoinDots(parts)
  {
    if |parts| > 1 {
      DigitsJoin(parts[1..]);
    }
  }

  lemma Text4IsAddress(bits: nat)
    ensures IsAddressText(Text4(bits))
  {
    hide Decimal;
    var parts := [Decimal(bits / 0x100_0000), Decimal(bits / 0x1_0000 % 256), Decimal(bits / 0x100 % 256),
                  Decimal(bits % 256)];
    DecimalIsDotless(bits / 0x100_0000);
    DecimalIsDotless(bits / 0x1_0000 % 256);
    DecimalIsDotless(bits / 0x100 % 256);
    DecimalIsDotless(bits % 256);
    DigitsJoin(parts);
    assert JoinDots(parts)[|parts[0]|] == '.';
  }

  lemma Text4IsInjective(a: nat, b: nat)
    requires Text4(a) == Text4(b)
    ensures a == b
  {
    hide JoinDots, Decimal;
    var p := [Decimal(a / 0x100_0000), Decimal(a / 0x1_0000 % 256), Decimal(a / 0x100 % 256), Decimal(a % 256)];
    var q := [Decimal(b / 0x100_0000), Decimal(b / 0x1_0000 % 256), Decimal(b / 0x100 % 256), Decimal(b % 256)];
    forall n: nat ensures Dotless(Decimal(n)) {
      DecimalIsDotless(n);
    }
    SplitOfJoin(p);
    SplitOfJoin(q);
    assert p[0] == q[0] && p[1] == q[1] && p[2] == q[2] && p[3] == q[3];
    DecimalIsInjective(a / 0x100_0000, b / 0x100_0000);
    DecimalIsInjective(a / 0x1_0000 % 256, b / 0x1_0000 % 256);
    DecimalIsInjective(a / 0x100 % 256, b / 0x100 % 256);
    DecimalIsInjective(a % 256, b % 256);
    FourBytes(a);
    FourBytes(b);
  }

  lemma FourBytes(a: nat)
    ensures a == a / 0x100_0000 * 0x100_0000 + a / 0x1_0000 % 256 * 0x1_0000 + a / 0x100 % 256 * 0x100 + a % 256
  {
  }

  // ---------------------------------------------------------------- the client's prefix

  function Clamp(len: Byte, max: Byte): (r: Byte) {
    if len > max then max else len
  }

  /** The largest multiple of p that is not above x. */
  function RoundedDown(x: nat, p: nat): nat
    requires p > 0
  {
    x / p * p
  }

  /** The address with everything after the first len bits cleared. */
  function Masked(bits: nat, width: nat, len: nat): nat
    requires len <= width
  {
    RoundedDown(bits, Pow2(width - len))
  }

  function BuildEcsSubnet(client: Ip, len4: Byte, len6: Byte): Subnet {
    match client
    case V4(bits) => Subnet(1, Some(V4(Masked(bits, 32, Clamp(len4, 32)))), Clamp(len4, 32))
    case V6(bits) => Subnet(2, Some(V6(Masked(bits, 128, Clamp(len6, 128)))), Clamp(len6, 128))
  }

  /** Two addresses have the same masked form exactly when their first len bits agree. */
  lemma MaskedKeepsPrefix(a: nat, b: nat, width: nat, len: nat)
    requires len <= width
    ensures Masked(a, width, len) == Masked(b, width, len) <==> a / Pow2(width - len) == b / Pow2(width - len)
  {
    hide Pow2;
    var p := Pow2(width - len);
    var x, y := a / p, b / p;
    if x < y {
      ScaledGrows(x, y, p);
    } else if y < x {
      ScaledGrows(y, x, p);
    }
  }

  lemma ScaledGrows(x: nat, y: nat, p: nat)
    requires x < y && p > 0
    ensures x * p < y * p
  {
  }

  // ---------------------------------------------------------------- keys

  function QuestionKey(q: Question): string {
    NormalizeName(q.name) + "|" + Decimal(q.qtype) + "|" + Decimal(q.qclass)
  }

  function FormatSuffix(s: Subnet, text6: nat -> string): string {
    match s.address
    case None => Decimal(s.family) + "|/" + Decimal(s.prefix)
    case Some(ip) => (if s.family == 1 then "1" else "2") + "|" + Text(ip, text6) + "|" + Decimal(s.prefix)
  }

  /** The subnet of the query itself, or else the one built from the client's address. */
  function EffectiveSubnet(carried: Option<Subnet>, ecs: EcsContext): Option<Subnet> {
    if carried.Some? then carried
    else if !ecs.enabled || ecs.client.None? then None
    else Some(BuildEcsSubnet(ecs.client.value, ecs.len4, ecs.len6))
  }

  /** Which subnet a query is filed under: its own if it carries one, else none if the option is off or the client is
      unknown, else the client's family with as many leading bits as the setting says, at most all; the address is the
      client's with the other bits zero. */
  lemma SubnetFields(carried: Option<Subnet>, ecs: EcsContext)
    ensures var s := EffectiveSubnet(carried, ecs);
      match (carried, ecs.client)
      case (Some(own), _) => s == Some(own)
      case (None, None) => s == None
      case (None, Some(V4(bits))) =>
        if !ecs.enabled then s == None
        else
          var n := if ecs.len4 <= 32 then ecs.len4 else 32;
          s.Some? && s.value.family == 1 && s.value.prefix == n && s.value.address.Some? && s.value.address.value.V4?
          && LeadingBits(s.value.address.value.bits, bits, 32, n)
      case (None, Some(V6(bits))) =>
        if !ecs.enabled then s == None
        else
          var n := if ecs.len6 <= 128 then ecs.len6 else 128;
          s.Some? && s.value.family == 2 && s.value.prefix == n && s.value.address.Some? && s.value.address.value.V6?
          && LeadingBits(s.value.address.value.bits, bits, 128, n)
  {
    hide RoundedDown, Pow2;
    match (carried, ecs.client) {
      case (None, Some(V4(bits))) => MaskedBits(bits, 32, Clamp(ecs.len4, 32));
      case (None, Some(V6(bits))) => MaskedBits(bits, 128, Clamp(ecs.len6, 128));
      case _ =>
    }
  }

  /** The address up to its first n bits: a multiple of the remaining power, and less than one such step below. */
  predicate LeadingBits(masked: nat, bits: nat, width: nat, n: nat)
    requires n <= width
  {
    masked % Pow2(width - n) == 0 && masked <= bits < masked + Pow2(width - n)
  }

  lemma MaskedBits(bits: nat, width: nat, n: nat)
    requires n <= width
    ensures LeadingBits(Masked(bits, width, n), bits, width, n)
  {
    RoundedDownIs(bits, Pow2(width - n));
  }

  lemma RoundedDownIs(x: nat, p: nat)
    requires p > 0
    ensures RoundedDown(x, p) % p == 0 && RoundedDown(x, p) <= x < RoundedDown(x, p) + p
  {
    assert x == x / p * p + x % p;
    QuotientIs(RoundedDown(x, p), p, x / p, 0);
  }

  function ScopedKey(q: Question, s: Subnet, text6: nat -> string): string {
    QuestionKey(q) + "|ecs:" + FormatSuffix(s, text6)
  }

  function CacheKey(q: Question, carried: Option<Subnet>, ecs: EcsContext, text6: nat -> string): string {
    match EffectiveSubnet(carried, ecs)
    case None => QuestionKey(q)
    case Some(s) => ScopedKey(q, s, text6)
  }

  /** Two subnets that mean the same to the cache. With an address, all families but 1 count as 2. */
  predicate SameScope(a: Option<Subnet>, b: Option<Subnet>, text6: nat -> string) {
    match (a, b)
    case (None, None) => true
    case (Some(s), Some(t)) =>
      s.prefix == t.prefix && (
        if s.address.None? || t.address.None? then s.address == t.address && s.family == t.family
        else (s.family == 1 <==> t.family == 1) && Text(s.address.value, text6) == Text(t.address.value, text6))
    case _ => false
  }

  predicate SameQuestion(p: Question, q: Question) {
    NormalizeName(p.name) == NormalizeName(q.name) && p.qtype == q.qtype && p.qclass == q.qclass
  }

  function AfterLastBar(s: string): string {
    if s == "" || s[|s| - 1] == '|' then "" else AfterLastBar(s[..|s| - 1]) + [s[|s| - 1]]
  }

  function BeforeLastBar(s: string): string {
    if s == "" then "" else if s[|s| - 1] == '|' then s[..|s| - 1] else BeforeLastBar(s[..|s| - 1])
  }

  lemma {:induction false} LastField(a: string, x: string)
    requires '|' !in x
    ensures AfterLastBar(a + "|" + x) == x && BeforeLastBar(a + "|" + x) == a
  {
    var s := a + "|" + x;
    if x == "" {
      assert s[..|s| - 1] == a;
    } else {
      assert s[..|s| - 1] == a + "|" + x[..|x| - 1];
      LastField(a, x[..|x| - 1]);
      assert x[..|x| - 1] + [x[|x| - 1]] == x;
    }
  }

  lemma QuestionKeyIsInjective(p: Question, q: Question)
    ensures QuestionKey(p) == QuestionKey(q) <==> SameQuestion(p, q)
  {
    hide NormalizeName, Decimal;
    QuestionKeyFields(p);
    QuestionKeyFields(q);
    if QuestionKey(p) == QuestionKey(q) {
      DecimalIsInjective(p.qtype, q.qtype);
      DecimalIsInjective(p.qclass, q.qclass);
    }
  }

  lemma QuestionKeyFields(q: Question)
    ensures var key := QuestionKey(q);
      && AfterLastBar(key) == Decimal(q.qclass) && AfterLastBar(BeforeLastBar(key)) == Decimal(q.qtype)
      && BeforeLastBar(BeforeLastBar(key)) == NormalizeName(q.name)
  {
    hide NormalizeName, Decimal, AfterLastBar, BeforeLastBar;
    DecimalIsDotless(q.qclass);
    DecimalIsDotless(q.qtype);
    LastField(NormalizeName(q.name) + "|" + Decimal(q.qtype), Decimal(q.qclass));
    LastField(NormalizeName(q.name), Decimal(q.qtype));
  }

  /** The fields behind the question key: the last one of a subnet key, and the text before it. */
  function LastPart(s: Subnet): string {
    if s.address.None? then "/" + Decimal(s.prefix) else Decimal(s.prefix)
  }

  function FamilyPart(s: Subnet): string {
    if s.address.None? then Decimal(s.family) else if s.family == 1 then "1" else "2"
  }

  lemma PartsHaveNoBar(s: Subnet)
    ensures '|' !in LastPart(s) && '|' !in FamilyPart(s) && '|' !in ("ecs:" + FamilyPart(s))
  {
    DecimalIsDotless(s.prefix);
    DecimalIsDotless(s.family);
  }

  lemma TextIsAddress(ip: Ip, text6: nat -> string)
    requires Prints(text6)
    ensures IsAddressText(Text(ip, text6))
  {
    hide IsAddressText, Text4;
    if ip.V4? {
      Text4IsAddress(ip.bits);
    }
  }

  lemma NoBarInAddress(s: Subnet, text6: nat -> string)
    requires Prints(text6)
    ensures s.address.Some? ==> '|' !in Text(s.address.value, text6)
  {
    hide Text, Prints;
    if s.address.Some? {
      TextIsAddress(s.address.value, text6);
    }
  }

  lemma ScopedKeyText(q: Question, s: Subnet, text6: nat -> string)
    ensures var base := QuestionKey(q) + "|" + ("ecs:" + FamilyPart(s));
      ScopedKey(q, s, text6) ==
        (if s.address.None? then base else base + "|" + Text(s.address.value, text6)) + "|" + LastPart(s)
  {
    hide QuestionKey, Text, Decimal;
    var key, family, prefix := QuestionKey(q), FamilyPart(s), Decimal(s.prefix);
    if s.address.None? {
      assert key + "|ecs:" + (family + "|/" + prefix) == key + "|" + ("ecs:" + family) + "|" + ("/" + prefix);
    } else {
      var text := Text(s.address.value, text6);
      assert key + "|ecs:" + (family + "|" + text + "|" + prefix)
          == key + "|" + ("ecs:" + family) + "|" + text + "|" + prefix;
    }
  }

  /** The fields of a key with a subnet, from the right. */
  lemma ScopedKeyFields(q: Question, s: Subnet, text6: nat -> string)
    requires Prints(text6)
    ensures var key := ScopedKey(q, s, text6);
      && AfterLastBar(key) == LastPart(s)
      && (s.address.None? ==> AfterLastBar(BeforeLastBar(key)) == "ecs:" + FamilyPart(s)
                              && BeforeLastBar(BeforeLastBar(key)) == QuestionKey(q))
      && (s.address.Some? ==> AfterLastBar(BeforeLastBar(key)) == Text(s.address.value, text6)
                              && AfterLastBar(BeforeLastBar(BeforeLastBar(key))) == "ecs:" + FamilyPart(s)
                              && BeforeLastBar(BeforeLastBar(BeforeLastBar(key))) == QuestionKey(q))
  {
    hide NormalizeName, Decimal, QuestionKey, Text, Prints, AfterLastBar, BeforeLastBar, ScopedKey, FormatSuffix;
    hide LastPart, FamilyPart, IsAddressText;
    PartsHaveNoBar(s);
    NoBarInAddress(s, text6);
    var base := QuestionKey(q) + "|" + ("ecs:" + FamilyPart(s));
    LastField(QuestionKey(q), "ecs:" + FamilyPart(s));
    ScopedKeyText(q, s, text6);
    if s.address.None? {
      LastField(base, LastPart(s));
    } else {
      var text := Text(s.address.value, text6);
      LastField(base + "|" + text, LastPart(s));
      LastField(base, text);
    }
  }

  lemma AddressIsNoNumber(text: string)
    requires IsAddressText(text)
    ensures !AllDigits(text)
  {
    var i :| 0 <= i < |text| && (text[i] == '.' || text[i] == ':');
    assert !IsDigit(text[i]);
  }

  lemma SlashIsNoNumber(s: Subnet)
    requires s.address.None?
    ensures !AllDigits(LastPart(s))
  {
    assert LastPart(s)[0] == '/' && !IsDigit('/');
  }

  /** A key without a subnet is never one with a subnet. */
  lemma PlainKeyIsNotScoped(p: Question, q: Question, s: Subnet, text6: nat -> string)
    requires Prints(text6)
    ensures QuestionKey(p) != ScopedKey(q, s, text6)
  {
    hide NormalizeName, Decimal, Text, Prints, QuestionKey, ScopedKey, AfterLastBar, BeforeLastBar, AllDigits;
    QuestionKeyFields(p);
    ScopedKeyFields(q, s, text6);
    DecimalIsRead(p.qclass);
    DecimalIsRead(p.qtype);
    if s.address.None? {
      SlashIsNoNumber(s);
    } else {
      TextIsAddress(s.address.value, text6);
      AddressIsNoNumber(Text(s.address.value, text6));
    }
  }

  lemma ScopedKeysAgree(p: Question, s: Subnet, q: Question, t: Subnet, text6: nat -> string)
    requires Prints(text6) && ScopedKey(p, s, text6) == ScopedKey(q, t, text6)
    ensures QuestionKey(p) == QuestionKey(q) && SameScope(Some(s), Some(t), text6)
  {
    hide NormalizeName, Decimal, QuestionKey, ScopedKey, Text, Prints, AfterLastBar, BeforeLastBar, AllDigits;
    ScopedKeyFields(p, s, text6);
    ScopedKeyFields(q, t, text6);
    SameLastPart(s, t);
    if s.address.Some? == t.address.Some? {
      SameFamilyPart(s, t);
    }
  }

  /** The last field tells whether there is an address, and the prefix length. */
  lemma SameLastPart(s: Subnet, t: Subnet)
    requires LastPart(s) == LastPart(t)
    ensures s.prefix == t.prefix && s.address.Some? == t.address.Some?
  {
    hide Decimal, AllDigits;
    DecimalIsRead(s.prefix);
    DecimalIsRead(t.prefix);
    if s.address.None? {
      SlashIsNoNumber(s);
    }
    if t.address.None? {
      SlashIsNoNumber(t);
    }
    if s.address.None? && t.address.None? {
      assert LastPart(s)[1..] == Decimal(s.prefix) && LastPart(t)[1..] == Decimal(t.prefix);
    }
    DecimalIsInjective(s.prefix, t.prefix);
  }

  lemma SameFamilyPart(s: Subnet, t: Subnet)
    requires "ecs:" + FamilyPart(s) == "ecs:" + FamilyPart(t) && s.address.Some? == t.address.Some?
    ensures if s.address.None? then s.family == t.family else (s.family == 1 <==> t.family == 1)
  {
    hide Decimal;
    assert ("ecs:" + FamilyPart(s))[4..] == FamilyPart(s) && ("ecs:" + FamilyPart(t))[4..] == FamilyPart(t);
    if s.address.None? {
      DecimalIsInjective(s.family, t.family);
    }
  }

  /** Two queries share a key exactly when they ask the same question for the same scope. */
  lemma CacheKeyIsInjective(p: Question, carriedP: Option<Subnet>, ecsP: EcsContext,
                            q: Question, carriedQ: Option<Subnet>, ecsQ: EcsContext, text6: nat -> string)
    requires Prints(text6)
    ensures CacheKey(p, carriedP, ecsP, text6) == CacheKey(q, carriedQ, ecsQ, text6)
       <==> SameQuestion(p, q) && SameScope(EffectiveSubnet(carriedP, ecsP), EffectiveSubnet(carriedQ, ecsQ), text6)
  {
    hide QuestionKey, Text, SameQuestion, Prints, BuildEcsSubnet, Decimal;
    QuestionKeyIsInjective(p, q);
    match (EffectiveSubnet(carriedP, ecsP), EffectiveSubnet(carriedQ, ecsQ)) {
      case (None, None) =>
      case (Some(s), None) => PlainKeyIsNotScoped(q, p, s, text6);
      case (None, Some(t)) => PlainKeyIsNotScoped(p, q, t, text6);
      case (Some(s), Some(t)) =>
        if ScopedKey(p, s, text6) == ScopedKey(q, t, text6) {
          ScopedKeysAgree(p, s, q, t, text6);
        }
    }
  }

  /** For clients without a subnet of their own: the scope is the address family and the first bits of the
      address, as many as the settings say. */
  lemma ClientScope(a: Ip, b: Ip, len4: Byte, len6: Byte, text6: nat -> string)
    requires Prints(text6)
    ensures SameScope(Some(BuildEcsSubnet(a, len4, len6)), Some(BuildEcsSubnet(b, len4, len6)), text6)
       <==> (a.V4? <==> b.V4?) &&
            (if a.V4? then a.bits / Pow2(32 - Clamp(len4, 32)) == b.bits / Pow2(32 - Clamp(len4, 32))
             else a.bits / Pow2(128 - Clamp(len6, 128)) == b.bits / Pow2(128 - Clamp(len6, 128)))
  {
    hide Masked, Pow2, Text4, IsAddressText;
    var s, t := BuildEcsSubnet(a, len4, len6), BuildEcsSubnet(b, len4, len6);
    if a.V4? && b.V4? {
      MaskedKeepsPrefix(a.bits, b.bits, 32, Clamp(len4, 32));
      if Text(s.address.value, text6) == Text(t.address.value, text6) {
        Text4IsInjective(s.address.value.bits, t.address.value.bits);
      }
    } else if a.V6? && b.V6? {
      MaskedKeepsPrefix(a.bits, b.bits, 128, Clamp(len6, 128));
    }
  }

  /** The family is lost for any family but 1: these two subnets share a key. */
  lemma ForeignFamilyCollides(text6: nat -> string)
    ensures SameScope(Some(Subnet(2, Some(V6(0)), 0)), Some(Subnet(3, Some(V6(0)), 0)), text6)
  {
  }
}
