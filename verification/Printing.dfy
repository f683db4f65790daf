/** What the printed value of record data tells: it tells the data apart, so that removal by printed value is removal
    by data; TXT chunks are told apart up to where their blanks are. */
module Printing {
  import opened Wrappers
  import opened Names
  import opened Records
  import opened Filters
  import opened ZoneData

  // ---------------------------------------------------------------- cutting at blanks

  /** The text cut at every blank. */
  function Pieces(s: string): (parts: seq<string>)
    ensures |parts| >= 1
  {
    if s == "" then [""]
    else if s[0] == ' ' then [""] + Pieces(s[1..])
    else Prepend(s[0], Pieces(s[1..]))
  }

  lemma {:induction false} PiecesOfWord(s: string)
    requires ' ' !in s
    ensures Pieces(s) == [s]
  {
    if s != "" {
      PiecesOfWord(s[1..]);
      assert [s[0]] + s[1..] == s && [s[1..]][1..] == [];
    }
  }

  lemma {:induction false} PiecesOfConcat(a: string, b: string)
    ensures Pieces(a + " " + b) == Pieces(a) + Pieces(b)
  {
    var s := a + " " + b;
    if a == "" {
      assert s[1..] == b;
    } else {
      assert s[1..] == a[1..] + " " + b;
      PiecesOfConcat(a[1..], b);
      if a[0] != ' ' {
        PrependOfConcat(a[0], Pieces(a[1..]), Pieces(b));
      }
    }
  }

  lemma {:induction false} JoinOfPieces(s: string)
    ensures JoinWith(Pieces(s), " ") == s
  {
    if s != "" {
      JoinOfPieces(s[1..]);
      var rest := Pieces(s[1..]);
      if s[0] == ' ' {
        assert ([""] + rest)[1..] == rest;
      } else {
        var first := Prepend(s[0], rest);
        assert first[1..] == rest[1..] && first[0] == [s[0]] + rest[0];
        if |rest| > 1 {
          var tail := " " + JoinWith(rest[1..], " ");
          assert JoinWith(rest, " ") == rest[0] + tail && JoinWith(first, " ") == first[0] + tail;
        }
      }
    }
  }

  /** The pieces of all parts, in order. */
  function AllPieces(parts: seq<string>): seq<string> {
    if |parts| == 0 then [] else Pieces(parts[0]) + AllPieces(parts[1..])
  }

  lemma {:induction false} PiecesOfJoin(parts: seq<string>)
    requires |parts| >= 1
    ensures Pieces(JoinWith(parts, " ")) == AllPieces(parts)
  {
    if |parts| > 1 {
      PiecesOfJoin(parts[1..]);
      PiecesOfConcat(parts[0], JoinWith(parts[1..], " "));
    } else {
      assert AllPieces(parts[1..]) == [];
    }
  }

  /** Two lists of parts are joined to the same text exactly if they have the same pieces. */
  lemma JoinsAlikeIff(a: seq<string>, b: seq<string>)
    requires |a| >= 1 && |b| >= 1
    ensures JoinWith(a, " ") == JoinWith(b, " ") <==> AllPieces(a) == AllPieces(b)
  {
    PiecesOfJoin(a);
    PiecesOfJoin(b);
    JoinOfPieces(JoinWith(a, " "));
    JoinOfPieces(JoinWith(b, " "));
  }

  ghost predicate Words(parts: seq<string>) {
    forall i :: 0 <= i < |parts| ==> ' ' !in parts[i]
  }

  lemma {:induction false} PiecesOfWords(parts: seq<string>)
    requires Words(parts)
    ensures AllPieces(parts) == parts
  {
    if |parts| > 0 {
      PiecesOfWord(parts[0]);
      PiecesOfWords(parts[1..]);
      assert parts == [parts[0]] + parts[1..];
    }
  }

  lemma WordsJoinAlike(a: seq<string>, b: seq<string>)
    requires Words(a) && Words(b) && |a| >= 1 && |b| >= 1 && JoinWith(a, " ") == JoinWith(b, " ")
    ensures a == b
  {
    JoinsAlikeIff(a, b);
    PiecesOfWords(a);
    PiecesOfWords(b);
  }

  // ---------------------------------------------------------------- record data

  /** A name, an address or a base-64 text: not empty and without blanks. */
  predicate PlainText(s: string) {
    s != "" && forall i :: 0 <= i < |s| ==> !IsSpace(s[i])
  }

  /** The texts in the data are plain; an address is there and is no "<nil>". */
  predicate Plain(data: RData) {
    match data
    case A(addr) => addr.Address? && PlainText(addr.text) && addr.text != "<nil>"
    case AAAA(addr) => addr.Address? && PlainText(addr.text) && addr.text != "<nil>"
    case NS(host) => PlainText(host)
    case CNAME(target) => PlainText(target)
    case MX(_, exchange) => PlainText(exchange)
    case TXT(_) => false
    case SOA(f) => PlainText(f.ns) && PlainText(f.mbox)
    case NSEC(next, _) => PlainText(next)
    case RRSIG(f) => PlainText(f.signer) && PlainText(f.signature)
    case DNSKEY(_, _, _, publicKey) => PlainText(publicKey)
    case DS(_, _, _, digest) => PlainText(digest)
    case OPT => true
    case Other(text) => Trimmed(text)
  }

  /** Data of the same kind. */
  predicate SameForm(a: RData, b: RData) {
    match a
    case A(_) => b.A?
    case AAAA(_) => b.AAAA?
    case NS(_) => b.NS?
    case CNAME(_) => b.CNAME?
    case MX(_, _) => b.MX?
    case TXT(_) => b.TXT?
    case SOA(_) => b.SOA?
    case NSEC(_, _) => b.NSEC?
    case RRSIG(_) => b.RRSIG?
    case DNSKEY(_, _, _, _) => b.DNSKEY?
    case DS(_, _, _, _) => b.DS?
    case OPT => b.OPT?
    case Other(_) => b.Other?
  }

  lemma PlainIsWord(s: string)
    ensures PlainText(s) ==> ' ' !in s && Trimmed(s)
  {
  }

  lemma DecimalIsPlain(n: nat)
    ensures PlainText(Decimal(n))
  {
    var s := Decimal(n);
    forall i | 0 <= i < |s| ensures !IsSpace(s[i]) {
      assert '0' <= s[i] <= '9';
    }
  }

  function Numbered(ns: seq<nat>): seq<string> {
    seq(|ns|, i requires 0 <= i < |ns| => Decimal(ns[i]))
  }

  lemma NumberedAgree(a: seq<nat>, b: seq<nat>)
    requires Numbered(a) == Numbered(b)
    ensures a == b
  {
    assert |a| == |Numbered(a)| == |Numbered(b)| == |b|;
    forall i | 0 <= i < |a| ensures a[i] == b[i] {
      assert Numbered(a)[i] == Numbered(b)[i];
      DecimalIsInjective(a[i], b[i]);
    }
  }

  lemma PlainNumbers(ns: seq<nat>)
    ensures AllPlain(Numbered(ns))
  {
    forall i | 0 <= i < |ns| ensures PlainText(Numbered(ns)[i]) {
      DecimalIsPlain(ns[i]);
    }
  }

  /** The words that make up the printed value. */
  function Fields(data: RData): seq<string>
    requires Plain(data)
  {
    match data
    case A(addr) => [addr.text]
    case AAAA(addr) => [addr.text]
    case NS(host) => [host]
    case CNAME(target) => [target]
    case MX(preference, exchange) => [Decimal(preference), exchange]
    case SOA(f) => [f.ns, f.mbox] + Numbered([f.serial, f.refresh, f.retry, f.expire, f.minttl])
    case NSEC(next, types) => [next] + Numbered(types)
    case RRSIG(f) =>
      Numbered([f.covered, f.algorithm, f.labels, f.origTtl, f.expiration, f.inception, f.keyTag])
      + [f.signer, f.signature]
    case DNSKEY(flags, protocol, algorithm, publicKey) => Numbered([flags, protocol, algorithm]) + [publicKey]
    case DS(keyTag, algorithm, digestType, digest) => Numbered([keyTag, algorithm, digestType]) + [digest]
    case OPT => [""]
    case Other(text) => [text]
  }

  lemma NumberedMany(ns: seq<nat>)
    ensures |ns| == 3 ==> Numbered(ns) == [Decimal(ns[0]), Decimal(ns[1]), Decimal(ns[2])]
    ensures |ns| == 5 ==>
      Numbered(ns) == [Decimal(ns[0]), Decimal(ns[1]), Decimal(ns[2]), Decimal(ns[3]), Decimal(ns[4])]
    ensures |ns| == 7 ==>
      Numbered(ns) == [Decimal(ns[0]), Decimal(ns[1]), Decimal(ns[2]), Decimal(ns[3]), Decimal(ns[4]),
                       Decimal(ns[5]), Decimal(ns[6])]
  {
  }

  predicate IsText(data: RData) {
    data.OPT? || data.Other?
  }

  lemma FieldsPrint(data: RData)
    requires Plain(data)
    ensures DataValue(data) == JoinWith(Fields(data), " ")
  {
    hide Decimal, Numbered, PlainText;
    match data {
      case MX(preference, exchange) =>
        assert [Decimal(preference), exchange][1..] == [exchange];
      case SOA(f) =>
        NumberedMany([f.serial, f.refresh, f.retry, f.expire, f.minttl]);
        assert Fields(data) == [f.ns, f.mbox, Decimal(f.serial), Decimal(f.refresh), Decimal(f.retry),
                                Decimal(f.expire), Decimal(f.minttl)];
      case NSEC(next, types) =>
        NsecFields(types);
      case RRSIG(f) =>
        NumberedMany([f.covered, f.algorithm, f.labels, f.origTtl, f.expiration, f.inception, f.keyTag]);
        assert Fields(data) == [Decimal(f.covered), Decimal(f.algorithm), Decimal(f.labels), Decimal(f.origTtl),
                                Decimal(f.expiration), Decimal(f.inception), Decimal(f.keyTag), f.signer, f.signature];
      case DNSKEY(flags, protocol, algorithm, publicKey) =>
        NumberedMany([flags, protocol, algorithm]);
        assert Fields(data) == [Decimal(flags), Decimal(protocol), Decimal(algorithm), publicKey];
      case DS(keyTag, algorithm, digestType, digest) =>
        NumberedMany([keyTag, algorithm, digestType]);
        assert Fields(data) == [Decimal(keyTag), Decimal(algorithm), Decimal(digestType), digest];
      case _ =>
    }
  }

  lemma NsecFields(types: seq<Word16>)
    ensures Numbered(types) == seq(|types|, i requires 0 <= i < |types| => Decimal(types[i]))
  {
  }

  ghost predicate AllPlain(parts: seq<string>) {
    forall i :: 0 <= i < |parts| ==> PlainText(parts[i])
  }

  lemma PlainConcat(a: seq<string>, b: seq<string>)
    requires AllPlain(a) && AllPlain(b)
    ensures AllPlain(a + b)
  {
    hide PlainText;
  }

  lemma FieldsArePlain(data: RData)
    requires Plain(data) && !IsText(data)
    ensures |Fields(data)| >= 1 && AllPlain(Fields(data))
  {
    hide PlainText, Decimal, Numbered;
    match data {
      case MX(preference, _) => DecimalIsPlain(preference);
      case SOA(f) =>
        PlainNumbers([f.serial, f.refresh, f.retry, f.expire, f.minttl]);
        PlainConcat([f.ns, f.mbox], Numbered([f.serial, f.refresh, f.retry, f.expire, f.minttl]));
      case NSEC(next, types) =>
        PlainNumbers(types);
        PlainConcat([next], Numbered(types));
      case RRSIG(f) =>
        var ns := [f.covered, f.algorithm, f.labels, f.origTtl, f.expiration, f.inception, f.keyTag];
        PlainNumbers(ns);
        PlainConcat(Numbered(ns), [f.signer, f.signature]);
      case DNSKEY(flags, protocol, algorithm, publicKey) =>
        PlainNumbers([flags, protocol, algorithm]);
        PlainConcat(Numbered([flags, protocol, algorithm]), [publicKey]);
      case DS(keyTag, algorithm, digestType, digest) =>
        PlainNumbers([keyTag, algorithm, digestType]);
        PlainConcat(Numbered([keyTag, algorithm, digestType]), [digest]);
      case _ =>
    }
  }

  lemma PartsAgree(a: seq<string>, b: seq<string>, c: seq<string>, d: seq<string>)
    requires a + b == c + d && |a| == |c|
    ensures a == c && b == d
  {
    assert (a + b)[..|a|] == a && (c + d)[..|a|] == c && (a + b)[|a|..] == b && (c + d)[|a|..] == d;
  }

  lemma FieldsAgree(a: RData, b: RData)
    requires Plain(a) && Plain(b) && SameForm(a, b) && Fields(a) == Fields(b)
    ensures a == b
  {
    hide PlainText, Decimal;
    match a {
      case MX(preference, exchange) =>
        assert [Decimal(preference), exchange][0] == [Decimal(b.preference), b.exchange][0];
        assert [Decimal(preference), exchange][1] == [Decimal(b.preference), b.exchange][1];
        DecimalIsInjective(preference, b.preference);
      case SOA(f) =>
        var g := b.soa;
        var m := [f.serial, f.refresh, f.retry, f.expire, f.minttl];
        var n := [g.serial, g.refresh, g.retry, g.expire, g.minttl];
        PartsAgree([f.ns, f.mbox], Numbered(m), [g.ns, g.mbox], Numbered(n));
        NumberedAgree(m, n);
        SoaAgrees(f, g, m, n);
      case NSEC(next, types) =>
        PartsAgree([next], Numbered(types), [b.next], Numbered(b.types));
        NumberedAgree(types, b.types);
      case RRSIG(f) => SignaturesAgree(f, b.sig);
      case DNSKEY(flags, protocol, algorithm, publicKey) =>
        var m, n := [flags, protocol, algorithm], [b.flags, b.protocol, b.algorithm];
        PartsAgree(Numbered(m), [publicKey], Numbered(n), [b.publicKey]);
        NumberedAgree(m, n);
        assert m[0] == n[0] && m[1] == n[1] && m[2] == n[2];
      case DS(keyTag, algorithm, digestType, digest) =>
        var m, n := [keyTag, algorithm, digestType], [b.keyTag, b.algorithm, b.digestType];
        PartsAgree(Numbered(m), [digest], Numbered(n), [b.digest]);
        NumberedAgree(m, n);
        assert m[0] == n[0] && m[1] == n[1] && m[2] == n[2];
      case _ =>
    }
  }

  lemma SoaAgrees(f: SoaFields, g: SoaFields, m: seq<nat>, n: seq<nat>)
    requires m == [f.serial, f.refresh, f.retry, f.expire, f.minttl] && m == n
    requires n == [g.serial, g.refresh, g.retry, g.expire, g.minttl] && [f.ns, f.mbox] == [g.ns, g.mbox]
    ensures f == g
  {
    assert m[0] == n[0] && m[1] == n[1] && m[2] == n[2] && m[3] == n[3] && m[4] == n[4];
    assert [f.ns, f.mbox][0] == [g.ns, g.mbox][0] && [f.ns, f.mbox][1] == [g.ns, g.mbox][1];
  }

  lemma SignaturesAgree(f: SignatureFields, g: SignatureFields)
    requires Numbered([f.covered, f.algorithm, f.labels, f.origTtl, f.expiration, f.inception, f.keyTag])
             + [f.signer, f.signature]
          == Numbered([g.covered, g.algorithm, g.labels, g.origTtl, g.expiration, g.inception, g.keyTag])
             + [g.signer, g.signature]
    ensures f == g
  {
    hide Numbered;
    var m := [f.covered, f.algorithm, f.labels, f.origTtl, f.expiration, f.inception, f.keyTag];
    var n := [g.covered, g.algorithm, g.labels, g.origTtl, g.expiration, g.inception, g.keyTag];
    NumberedSize(m);
    NumberedSize(n);
    PartsAgree(Numbered(m), [f.signer, f.signature], Numbered(n), [g.signer, g.signature]);
    NumberedAgree(m, n);
    assert m[0] == n[0] && m[1] == n[1] && m[2] == n[2] && m[3] == n[3] && m[4] == n[4] && m[5] == n[5];
    assert m[6] == n[6];
    assert [f.signer, f.signature][0] == [g.signer, g.signature][0];
    assert [f.signer, f.signature][1] == [g.signer, g.signature][1];
  }

  lemma NumberedSize(ns: seq<nat>)
    ensures |Numbered(ns)| == |ns|
  {
  }

  /** Plain data of one kind prints alike exactly if it is the same. */
  lemma PrintsAlikeIff(a: RData, b: RData)
    requires Plain(a) && Plain(b) && SameForm(a, b)
    ensures DataValue(a) == DataValue(b) <==> a == b
  {
    hide Plain, Fields, DataValue;
    if DataValue(a) == DataValue(b) {
      if IsText(a) {
        TextsPrintThemselves(a, b);
      } else {
        SameFormSameKind(a, b);
        FieldsPrint(a);
        FieldsPrint(b);
        FieldsArePlain(a);
        FieldsArePlain(b);
        PlainAreWords(Fields(a));
        PlainAreWords(Fields(b));
        WordsJoinAlike(Fields(a), Fields(b));
        FieldsAgree(a, b);
      }
    }
  }

  lemma TextsPrintThemselves(a: RData, b: RData)
    requires IsText(a) && SameForm(a, b) && DataValue(a) == DataValue(b)
    ensures a == b
  {
  }

  lemma SameFormSameKind(a: RData, b: RData)
    requires SameForm(a, b)
    ensures IsText(a) == IsText(b)
  {
  }

  lemma PlainAreWords(parts: seq<string>)
    requires AllPlain(parts)
    ensures Words(parts)
  {
    forall i | 0 <= i < |parts| ensures ' ' !in parts[i] {
      PlainIsWord(parts[i]);
    }
  }

  /** The one exception: TXT records print alike exactly if their chunks, cut at blanks, have the same pieces; no chunk
      at all prints like one empty chunk. */
  lemma TxtPrintsAlikeIff(a: seq<string>, b: seq<string>)
    ensures DataValue(TXT(a)) == DataValue(TXT(b)) <==> ChunkPieces(a) == ChunkPieces(b)
  {
    var c, d := if a == [] then [""] else a, if b == [] then [""] else b;
    assert JoinWith(a, " ") == JoinWith(c, " ") && JoinWith(b, " ") == JoinWith(d, " ");
    JoinsAlikeIff(c, d);
  }

  function ChunkPieces(chunks: seq<string>): seq<string> {
    AllPieces(if chunks == [] then [""] else chunks)
  }

  // ---------------------------------------------------------------- removal

  /** Plain data prints without blanks around it. */
  lemma PlainPrintsTrimmed(data: RData)
    requires Plain(data)
    ensures TrimSpace(DataValue(data)) == DataValue(data)
  {
    hide Plain, Fields, DataValue;
    TrimSpaceIsTrimmed(DataValue(data));
    if IsText(data) {
      TextIsTrimmed(data);
    } else {
      FieldsPrint(data);
      FieldsArePlain(data);
      JoinIsTrimmed(Fields(data));
    }
  }

  lemma TextIsTrimmed(data: RData)
    requires Plain(data) && IsText(data)
    ensures Trimmed(DataValue(data))
  {
  }

  lemma {:induction false} JoinIsTrimmed(parts: seq<string>)
    requires |parts| >= 1 && AllPlain(parts)
    ensures var s := JoinWith(parts, " "); s != "" && !IsSpace(s[0]) && !IsSpace(s[|s| - 1])
  {
    hide IsSpace;
    assert parts[0] != "" && !IsSpace(parts[0][0]);
    if |parts| > 1 {
      JoinIsTrimmed(parts[1..]);
    }
  }

  /** Removing by the printed value of plain data leaves exactly the records whose data differs. */
  lemma RemovalIsByData(rrs: seq<RR>, data: RData)
    requires Plain(data) && forall i :: 0 <= i < |rrs| ==> Plain(rrs[i].data) && SameForm(rrs[i].data, data)
    ensures Kept(rrs, DataValue(data)) == Filter(rrs, (rr: RR) => rr.data != data)
    ensures IsSelection(rrs, (rr: RR) => rr.data != data, Kept(rrs, DataValue(data)))
  {
    hide Plain, SameForm, DataValue, TrimSpace;
    PlainPrintsTrimmed(data);
    forall i | 0 <= i < |rrs| ensures DataValue(rrs[i].data) != TrimSpace(DataValue(data)) <==> rrs[i].data != data {
      PrintsAlikeIff(rrs[i].data, data);
    }
    FilterSame(rrs, (rr: RR) => DataValue(rr.data) != TrimSpace(DataValue(data)), (rr: RR) => rr.data != data);
    FilterSelects(rrs, (rr: RR) => rr.data != data);
  }

  /** An update that deletes a record by value: it is taken exactly if some stored record has that data, and then it
      leaves those with different data, in order, and every other list. */
  lemma DeletionIsByData(z: Zone, origin: string, rr: RR, n: string, t: Word16)
    requires IsNameInZone(rr.name, origin) && rr.rrtype != TYPE_SOA && rr.rclass == CLASS_NONE && Plain(rr.data)
    requires var list := RRset(z, NormalizeName(rr.name), rr.rrtype);
      forall i :: 0 <= i < |list| ==> Plain(list[i].data) && SameForm(list[i].data, rr.data)
    ensures var (o, list) := (ApplyUpdate(z, origin, rr), RRset(z, NormalizeName(rr.name), rr.rrtype));
      && (o.error.None? <==> exists x <- list :: x.data == rr.data)
      && (o.error.None? ==>
            if n == NormalizeName(rr.name) && t == rr.rrtype
            then IsSelection(list, (x: RR) => x.data != rr.data, RRset(o.zone, n, t))
            else RRset(o.zone, n, t) == RRset(z, n, t))
  {
    hide Plain, SameForm, DataValue, TrimSpace, IsNameInZone, NormalizeName, ApplyUpdate, IsSelection;
    var list := RRset(z, NormalizeName(rr.name), rr.rrtype);
    RemovalIsByData(list, rr.data);
    DeleteOwnValue(z, origin, rr);
    PlainPrintsTrimmed(rr.data);
    forall x | x in list ensures DataValue(x.data) == TrimSpace(DataValue(rr.data)) <==> x.data == rr.data {
      PrintsAlikeIff(x.data, rr.data);
    }
    if ApplyUpdate(z, origin, rr).error.None? {
      RRsetAfterUpdate(z, origin, rr, n, t);
    }
  }

  /** The same through the interface, where the value is typed: any text that trims to the printed form. */
  lemma TypedDeletionIsByData(z: Zone, name: string, qtype: Word16, data: RData, value: string)
    requires TrimSpace(value) == DataValue(data) && Plain(data)
    requires var list := RRset(z, NormalizeName(name), qtype);
      forall i :: 0 <= i < |list| ==> Plain(list[i].data) && SameForm(list[i].data, data)
    ensures var list := RRset(z, NormalizeName(name), qtype);
      && (CanRemoveMatching(z, name, qtype, TrimSpace(value)) <==> exists x <- list :: x.data == data)
      && IsSelection(list, (x: RR) => x.data != data,
                     RRset(WithoutMatching(z, name, qtype, TrimSpace(value)), NormalizeName(name), qtype))
  {
    hide Plain, SameForm, DataValue, TrimSpace, NormalizeName, IsSelection;
    var n := NormalizeName(name);
    var list := RRset(z, n, qtype);
    RemovalIsByData(list, data);
    var kept := Kept(list, DataValue(data));
    FilterAllIff(list, (x: RR) => x.data != data);
    if kept != list {
      RRsetRestored(z, n, if kept == [] then z[n] - {qtype} else z[n][qtype := kept], n, qtype);
    }
  }

  lemma SmallNumbers()
    ensures Decimal(1) == "1" && Decimal(2) == "2" && Decimal(3) == "3" && Decimal(4) == "4" && Decimal(5) == "5"
    ensures Decimal(10) == "10"
  {
    assert Decimal(10) == Decimal(1) + Decimal(0);
  }

  lemma JoinOfFront(first: string, rest: seq<string>)
    requires rest != []
    ensures JoinWith([first] + rest, " ") == first + " " + JoinWith(rest, " ")
  {
    assert ([first] + rest)[1..] == rest;
  }

  lemma SoaIsPrinted(ns: string, mbox: string)
    ensures DataValue(SOA(SoaFields(ns, mbox, 1, 2, 3, 4, 5))) == ns + " " + (mbox + " " + "1 2 3 4 5")
  {
    hide JoinWith, Decimal;
    SmallNumbers();
    JoinOfFront("4", ["5"]);
    JoinOfFront("3", ["4", "5"]);
    JoinOfFront("2", ["3", "4", "5"]);
    JoinOfFront("1", ["2", "3", "4", "5"]);
    JoinOfFront(mbox, ["1", "2", "3", "4", "5"]);
    JoinOfFront(ns, [mbox, "1", "2", "3", "4", "5"]);
    JoinOfWord("5");
    assert "1" + " " + ("2" + " " + ("3" + " " + ("4" + " " + "5"))) == "1 2 3 4 5";
    assert ["1"] + ["2", "3", "4", "5"] == ["1", "2", "3", "4", "5"] && ["2"] + ["3", "4", "5"] == ["2", "3", "4", "5"];
    assert ["3"] + ["4", "5"] == ["3", "4", "5"] && ["4"] + ["5"] == ["4", "5"];
    assert [ns] + [mbox, "1", "2", "3", "4", "5"] == [ns, mbox, "1", "2", "3", "4", "5"];
    assert [mbox] + ["1", "2", "3", "4", "5"] == [mbox, "1", "2", "3", "4", "5"];
  }

  lemma JoinOfWord(word: string)
    ensures JoinWith([word], " ") == word
  {
  }

  /** Printed values as they are typed. */
  lemma PrintedForms()
    ensures DataValue(MX(10, "mail.b.")) == "10 mail.b."
    ensures DataValue(SOA(SoaFields("ns.b.", "admin.b.", 1, 2, 3, 4, 5))) == "ns.b. admin.b. 1 2 3 4 5"
    ensures DataValue(TXT(["a", "b"])) == DataValue(TXT(["a b"])) == "a b"
  {
    hide JoinWith, Decimal;
    SmallNumbers();
    SoaIsPrinted("ns.b.", "admin.b.");
    JoinOfFront("a", ["b"]);
    JoinOfWord("b");
    JoinOfWord("a b");
    assert ["a"] + ["b"] == ["a", "b"];
  }
}
