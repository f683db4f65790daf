/** Resource records, messages and the printed form of record data. A record's header type and its
    data are independent, as in the DNS library: a record of type SOA need not carry SOA data. */
module Records {
  import opened Names

  type Word16 = n: nat | n < 0x1_0000
  type Word32 = n: nat | n < 0x1_0000_0000

  const TYPE_A: Word16 := 1
  const TYPE_NS: Word16 := 2
  const TYPE_CNAME: Word16 := 5
  const TYPE_SOA: Word16 := 6
  const TYPE_HINFO: Word16 := 13
  const TYPE_AAAA: Word16 := 28
  const TYPE_DS: Word16 := 43
  const TYPE_RRSIG: Word16 := 46
  const TYPE_NSEC: Word16 := 47
  const TYPE_DNSKEY: Word16 := 48
  const TYPE_ANY: Word16 := 255

  const CLASS_INET: Word16 := 1
  const CLASS_NONE: Word16 := 254
  const CLASS_ANY: Word16 := 255

  const RCODE_SUCCESS := 0
  const RCODE_SERVER_FAILURE := 2
  const RCODE_NAME_ERROR := 3
  const RCODE_REFUSED := 5

  /** The most aliases followed in a row, by the resolver and by the authoritative answers alike. */
  const MAX_ALIASES := 8

  /** An address field: absent, or the text the library prints for it. */
  datatype Address = NoAddress | Address(text: string)

  datatype SoaFields = SoaFields(ns: string, mbox: string, serial: Word32, refresh: Word32, retry: Word32,
                                 expire: Word32, minttl: Word32)

  datatype SignatureFields = SignatureFields(covered: Word16, algorithm: nat, labels: nat, origTtl: Word32,
                                             expiration: Word32, inception: Word32, keyTag: Word16,
                                             signer: string, signature: string)

  datatype RData =
    | A(addr: Address)
    | AAAA(addr: Address)
    | NS(host: string)
    | CNAME(target: string)
    | MX(preference: Word16, exchange: string)
    | TXT(chunks: seq<string>)
    | SOA(soa: SoaFields)
    | NSEC(next: string, types: seq<Word16>)
    | RRSIG(sig: SignatureFields)
    | DNSKEY(flags: Word16, protocol: nat, algorithm: nat, publicKey: string)
    | DS(keyTag: Word16, algorithm: nat, digestType: nat, digest: string)
    | OPT
    | Other(text: string)

  datatype RR = RR(name: string, rrtype: Word16, rclass: Word16, ttl: Word32, data: RData)

  datatype Question = Question(name: string, qtype: Word16, qclass: Word16)

  datatype Message = Message(rcode: nat, answer: seq<RR>, authority: seq<RR>, extra: seq<RR>)

  /** The records of all sections. */
  function AllRecords(m: Message): seq<RR> {
    m.answer + m.authority + m.extra
  }

  // ---------------------------------------------------------------- printing

  function Decimal(n: nat): (s: string)
    ensures s != "" && forall i :: 0 <= i < |s| ==> '0' <= s[i] <= '9'
  {
    if n < 10 then [(48 + n) as char] else Decimal(n / 10) + Decimal(n % 10)
  }

  predicate IsDigit(c: char) {
    '0' <= c <= '9'
  }

  predicate AllDigits(s: string) {
    forall i :: 0 <= i < |s| ==> IsDigit(s[i])
  }

  function DigitsValue(s: string): nat
    requires AllDigits(s)
  {
    if s == "" then 0
    else
      assert IsDigit(s[|s| - 1]);
      10 * DigitsValue(s[..|s| - 1]) + (s[|s| - 1] as int - '0' as int)
  }

  lemma DecimalIsRead(n: nat)
    ensures AllDigits(Decimal(n)) && DigitsValue(Decimal(n)) == n
  {
    if n >= 10 {
      DecimalIsRead(n / 10);
      var s := Decimal(n);
      assert |Decimal(n % 10)| == 1;
      assert s[..|s| - 1] == Decimal(n / 10) && s[|s| - 1] == Decimal(n % 10)[0];
    } else {
      assert Decimal(n)[..0] == "";
    }
  }

  /** Different numbers print differently. */
  lemma DecimalIsInjective(m: nat, n: nat)
    requires Decimal(m) == Decimal(n)
    ensures m == n
  {
    DecimalIsRead(m);
    DecimalIsRead(n);
  }

  function JoinWith(parts: seq<string>, sep: string): string {
    if |parts| == 0 then "" else if |parts| == 1 then parts[0]
    else parts[0] + sep + JoinWith(parts[1..], sep)
  }

  function PrintAddress(a: Address): string {
    match a
    case NoAddress => "<nil>"
    case Address(text) => text
  }

  /** The printed value by which the store compares and sorts record data. */
  function DataValue(data: RData): string {
    match data
    case A(addr) => PrintAddress(addr)
    case AAAA(addr) => PrintAddress(addr)
    case NS(host) => host
    case CNAME(target) => target
    case MX(preference, exchange) => Decimal(preference) + " " + exchange
    case TXT(chunks) => JoinWith(chunks, " ")
    case SOA(f) =>
      JoinWith([f.ns, f.mbox, Decimal(f.serial), Decimal(f.refresh), Decimal(f.retry), Decimal(f.expire),
                Decimal(f.minttl)], " ")
    case NSEC(next, types) => JoinWith([next] + seq(|types|, i requires 0 <= i < |types| => Decimal(types[i])), " ")
    case RRSIG(f) =>
      JoinWith([Decimal(f.covered), Decimal(f.algorithm), Decimal(f.labels), Decimal(f.origTtl),
                Decimal(f.expiration), Decimal(f.inception), Decimal(f.keyTag), f.signer, f.signature], " ")
    case DNSKEY(flags, protocol, algorithm, publicKey) =>
      JoinWith([Decimal(flags), Decimal(protocol), Decimal(algorithm), publicKey], " ")
    case DS(keyTag, algorithm, digestType, digest) =>
      JoinWith([Decimal(keyTag), Decimal(algorithm), Decimal(digestType), digest], " ")
    case OPT => ""
    case Other(text) => text
  }

  /** Record data with its domain names lower-cased, as the library compares them. */
  function FoldNames(data: RData): RData {
    match data
    case NS(host) => NS(Lower(host))
    case CNAME(target) => CNAME(Lower(target))
    case MX(preference, exchange) => MX(preference, Lower(exchange))
    case SOA(f) => SOA(f.(ns := Lower(f.ns), mbox := Lower(f.mbox)))
    case NSEC(next, types) => NSEC(Lower(next), types)
    case RRSIG(f) => RRSIG(f.(signer := Lower(f.signer)))
    case _ => data
  }

  /** Equal up to TTL and the case of names. */
  predicate IsDuplicate(a: RR, b: RR) {
    && a.rclass == b.rclass && a.rrtype == b.rrtype && Lower(a.name) == Lower(b.name)
    && FoldNames(a.data) == FoldNames(b.data)
  }

  // ---------------------------------------------------------------- sequences of records

  /** The elements of s that satisfy keep, in order. */
  function Filter<T>(s: seq<T>, keep: T -> bool): (r: seq<T>)
    ensures |r| <= |s|
    ensures forall x <- r :: x in s && keep(x)
  {
    if |s| == 0 then [] else (if keep(s[0]) then [s[0]] else []) + Filter(s[1..], keep)
  }

  lemma FilterOfConcat<T>(a: seq<T>, b: seq<T>, keep: T -> bool)
    ensures Filter(a + b, keep) == Filter(a, keep) + Filter(b, keep)
  {
    if |a| == 0 {
      assert a + b == b;
    } else {
      assert (a + b)[1..] == a[1..] + b;
      FilterOfConcat(a[1..], b, keep);
    }
  }

  lemma {:induction false} FilterCounts<T>(s: seq<T>, keep: T -> bool, x: T)
    ensures multiset(Filter(s, keep))[x] == if keep(x) then multiset(s)[x] else 0
  {
    if |s| > 0 {
      assert s == [s[0]] + s[1..];
      FilterCounts(s[1..], keep, x);
    }
  }

  /** One more element of s through the filter, as a loop over s meets it. */
  lemma FilterStep<T>(s: seq<T>, i: nat, keep: T -> bool)
    requires i < |s|
    ensures Filter(s[..i + 1], keep) == if keep(s[i]) then Filter(s[..i], keep) + [s[i]] else Filter(s[..i], keep)
  {
    assert s[..i + 1] == s[..i] + [s[i]];
    FilterOfConcat(s[..i], [s[i]], keep);
  }

  lemma FilterHas<T>(s: seq<T>, keep: T -> bool, x: T)
    ensures x in Filter(s, keep) <==> x in s && keep(x)
  {
    if |s| > 0 {
      FilterHas(s[1..], keep, x);
      assert x in s <==> x == s[0] || x in s[1..];
    }
  }

  /** Library sorting with a comparator that need not be an order: any rearrangement. */
  method Rearranged<T(==)>(s: seq<T>) returns (r: seq<T>)
    ensures multiset(r) == multiset(s) && |r| == |s|
  {
    assert multiset(s) == multiset(s) && |s| == |s|;
    r :| multiset(r) == multiset(s) && |r| == |s|;
  }
}
