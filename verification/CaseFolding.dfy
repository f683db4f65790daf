/** What it means that two names or records are equal after trimming and lower-casing: letter by letter and field by
    field. */
module CaseFolding {
  import opened Names
  import opened Records

  /** The same character, or a letter of the alphabet and its capital. */
  predicate SameLetter(c: char, d: char) {
    c == d || IsCapitalOf(c, d) || IsCapitalOf(d, c)
  }

  predicate IsCapitalOf(c: char, d: char) {
    65 <= c as int <= 90 && d as int == c as int + 32
  }

  predicate SameButCase(s: string, t: string) {
    |s| == |t| && forall i :: 0 <= i < |s| ==> SameLetter(s[i], t[i])
  }

  lemma LowerAgreesIff(s: string, t: string)
    ensures Lower(s) == Lower(t) <==> SameButCase(s, t)
  {
    if Lower(s) == Lower(t) {
      forall i | 0 <= i < |s| ensures SameLetter(s[i], t[i]) {
        assert Lower(s)[i] == LowerChar(s[i]) && Lower(t)[i] == LowerChar(t[i]);
      }
    }
  }

  /** Two records are duplicates exactly if class and type agree, the owner up to case, and the data field by field,
      the domain names in it up to case; TTLs do not matter (section 3.2 of RFC 4343). */
  lemma DuplicateIff(a: RR, b: RR)
    ensures IsDuplicate(a, b)
       <==> a.rclass == b.rclass && a.rrtype == b.rrtype && SameButCase(a.name, b.name) && SameFields(a.data, b.data)
  {
    hide Lower, SameButCase;
    LowerAgreesIff(a.name, b.name);
    FoldedAlikeIff(a.data, b.data);
  }

  predicate SameFields(a: RData, b: RData) {
    match (a, b)
    case (NS(s), NS(t)) => SameButCase(s, t)
    case (CNAME(s), CNAME(t)) => SameButCase(s, t)
    case (MX(i, s), MX(j, t)) => i == j && SameButCase(s, t)
    case (SOA(f), SOA(g)) =>
      && SameButCase(f.ns, g.ns) && SameButCase(f.mbox, g.mbox) && f.serial == g.serial && f.refresh == g.refresh
      && f.retry == g.retry && f.expire == g.expire && f.minttl == g.minttl
    case (NSEC(s, x), NSEC(t, y)) => SameButCase(s, t) && x == y
    case (RRSIG(f), RRSIG(g)) => SameButCase(f.signer, g.signer) && f == g.(signer := f.signer)
    case _ => a == b
  }

  lemma FoldedAlikeIff(a: RData, b: RData)
    ensures FoldNames(a) == FoldNames(b) <==> SameFields(a, b)
  {
    hide Lower, SameButCase, FoldNames, SameFields;
    match (a, b) {
      case (NS(s), NS(t)) => HostsAlikeIff(s, t);
      case (CNAME(s), CNAME(t)) => HostsAlikeIff(s, t);
      case (MX(i, s), MX(j, t)) => ExchangesAlikeIff(i, s, j, t);
      case (SOA(f), SOA(g)) => SoasAlikeIff(f, g);
      case (NSEC(s, x), NSEC(t, y)) => NextAlikeIff(s, x, t, y);
      case (RRSIG(f), RRSIG(g)) => SignaturesAlikeIff(f, g);
      case _ => OthersAlikeIff(a, b);
    }
  }

  lemma HostsAlikeIff(s: string, t: string)
    ensures FoldNames(NS(s)) == FoldNames(NS(t)) <==> SameFields(NS(s), NS(t))
    ensures FoldNames(CNAME(s)) == FoldNames(CNAME(t)) <==> SameFields(CNAME(s), CNAME(t))
  {
    hide Lower, SameButCase;
    LowerAgreesIff(s, t);
  }

  lemma ExchangesAlikeIff(i: Word16, s: string, j: Word16, t: string)
    ensures FoldNames(MX(i, s)) == FoldNames(MX(j, t)) <==> SameFields(MX(i, s), MX(j, t))
  {
    hide Lower, SameButCase;
    LowerAgreesIff(s, t);
  }

  lemma NextAlikeIff(s: string, x: seq<Word16>, t: string, y: seq<Word16>)
    ensures FoldNames(NSEC(s, x)) == FoldNames(NSEC(t, y)) <==> SameFields(NSEC(s, x), NSEC(t, y))
  {
    hide Lower, SameButCase;
    LowerAgreesIff(s, t);
  }

  lemma OthersAlikeIff(a: RData, b: RData)
    requires !(a.NS? && b.NS?) && !(a.CNAME? && b.CNAME?) && !(a.MX? && b.MX?) && !(a.SOA? && b.SOA?)
    requires !(a.NSEC? && b.NSEC?) && !(a.RRSIG? && b.RRSIG?)
    ensures FoldNames(a) == FoldNames(b) <==> SameFields(a, b)
  {
    hide Lower, SameButCase;
  }

  lemma SoasAlikeIff(f: SoaFields, g: SoaFields)
    ensures FoldNames(SOA(f)) == FoldNames(SOA(g)) <==> SameFields(SOA(f), SOA(g))
  {
    hide Lower, SameButCase;
    LowerAgreesIff(f.ns, g.ns);
    LowerAgreesIff(f.mbox, g.mbox);
  }

  lemma SignaturesAlikeIff(f: SignatureFields, g: SignatureFields)
    ensures FoldNames(RRSIG(f)) == FoldNames(RRSIG(g)) <==> SameFields(RRSIG(f), RRSIG(g))
  {
    hide Lower, SameButCase;
    LowerAgreesIff(f.signer, g.signer);
  }

  // ---------------------------------------------------------------- normal forms

  /** The blanks at both ends go, and nothing else. */
  lemma TrimSpaceCuts(s: string) returns (i: nat, j: nat)
    ensures i <= j <= |s| && TrimSpace(s) == s[i..j] && Trimmed(s[i..j])
    ensures (forall k :: 0 <= k < i ==> IsSpace(s[k])) && (forall k :: j <= k < |s| ==> IsSpace(s[k]))
  {
    hide IsSpace, TrimLeft, TrimRight, Trimmed;
    i := TrimLeftCuts(s);
    var n := TrimRightCuts(s[i..]);
    j := i + n;
    TrimSpaceIsTrimmed(s);
    assert s[i..][..n] == s[i..j];
    forall k | j <= k < |s| ensures IsSpace(s[k]) {
      assert s[i..][k - i] == s[k];
    }
  }

  lemma {:induction false} TrimLeftCuts(s: string) returns (i: nat)
    ensures i <= |s| && TrimLeft(s) == s[i..] && forall k :: 0 <= k < i ==> IsSpace(s[k])
  {
    hide IsSpace;
    if s != "" && IsSpace(s[0]) {
      var n := TrimLeftCuts(s[1..]);
      i := n + 1;
      forall k | 0 <= k < i ensures IsSpace(s[k]) {
        if k > 0 {
          assert s[1..][k - 1] == s[k];
        }
      }
    } else {
      i := 0;
    }
  }

  lemma {:induction false} TrimRightCuts(s: string) returns (j: nat)
    ensures j <= |s| && TrimRight(s) == s[..j] && forall k :: j <= k < |s| ==> IsSpace(s[k])
  {
    hide IsSpace;
    if s != "" && IsSpace(s[|s| - 1]) {
      var init := s[..|s| - 1];
      j := TrimRightCuts(init);
      forall k | j <= k < |s| ensures IsSpace(s[k]) {
        if k < |s| - 1 {
          assert init[k] == s[k];
        }
      }
    } else {
      j := |s|;
    }
  }

  /** The white space of Unicode, by number. */
  lemma Blanks(c: char)
    ensures IsSpace(c) <==>
      c as int in [9, 10, 11, 12, 13, 32, 0x85, 0xA0, 0x1680, 0x2028, 0x2029, 0x202F, 0x205F, 0x3000]
      || 0x2000 <= c as int <= 0x200A
  {
  }

  function WithFinalDot(s: string): string {
    if s != "" && s[|s| - 1] == '.' then s else s + "."
  }

  /** Names without blanks around them are filed under one key exactly if they are equal up to case and a final dot. */
  lemma SameKeyIff(a: string, b: string)
    requires Trimmed(a) && Trimmed(b)
    ensures NormalizeName(a) == NormalizeName(b) <==> SameButCase(WithFinalDot(a), WithFinalDot(b))
  {
    hide SameButCase;
    TrimSpaceIsTrimmed(a);
    TrimSpaceIsTrimmed(b);
    NormalizeIsLower(a);
    NormalizeIsLower(b);
    LowerAgreesIff(WithFinalDot(a), WithFinalDot(b));
  }

  lemma NormalizeIsLower(a: string)
    requires TrimSpace(a) == a
    ensures NormalizeName(a) == Lower(WithFinalDot(a))
  {
    hide TrimSpace;
    var n := Lower(a);
    if a != "" {
      assert n[|a| - 1] == LowerChar(a[|a| - 1]);
    }
    assert a != "" && a[|a| - 1] == '.' ==> EndsInDot(n);
  }
}
