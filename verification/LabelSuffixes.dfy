/** Where tests on the text of names and tests on their labels differ: at dots that are escaped. */
module LabelSuffixes {
  import opened Names

  /** Some dot of the text is escaped. */
  predicate HasEscapedDot(s: string, esc: bool) {
    s != "" && ((s[0] == '.' && esc) || HasEscapedDot(s[1..], s[0] == '\\' && !esc))
  }

  /** Cutting at every dot and cutting at the unescaped dots are the same exactly without escaped dots. */
  lemma {:induction false} CutsAgreeIffNoEscapedDot(s: string, esc: bool)
    ensures |SplitEscaped(s, esc)| <= |SplitDots(s)|
    ensures SplitEscaped(s, esc) == SplitDots(s) <==> !HasEscapedDot(s, esc)
    ensures |SplitEscaped(s, esc)| == |SplitDots(s)| <==> !HasEscapedDot(s, esc)
  {
    if s != "" {
      CutsAgreeIffNoEscapedDot(s[1..], s[0] == '\\' && !esc);
    }
  }

  lemma {:induction false} JoinOfSplitEscaped(s: string, esc: bool)
    ensures JoinDots(SplitEscaped(s, esc)) == s
  {
    if s != "" {
      var rest := SplitEscaped(s[1..], s[0] == '\\' && !esc);
      JoinOfSplitEscaped(s[1..], s[0] == '\\' && !esc);
      if s[0] == '.' && !esc {
        assert ([""] + rest)[1..] == rest;
      } else {
        JoinOfPrepend(s[0], rest);
      }
    }
  }

  /** An unescaped dot cuts. */
  lemma {:induction false} SplitAtOpenDot(a: string, b: string, esc: bool)
    requires !EscapeAfter(a, esc)
    ensures SplitEscaped(a + "." + b, esc) == SplitEscaped(a, esc) + SplitEscaped(b, false)
  {
    var s := a + "." + b;
    if a == "" {
      assert s[1..] == b;
    } else {
      assert s[1..] == a[1..] + "." + b;
      SplitAtOpenDot(a[1..], b, a[0] == '\\' && !esc);
      if a[0] != '.' || esc {
        PrependOfConcat(a[0], SplitEscaped(a[1..], a[0] == '\\' && !esc), SplitEscaped(b, false));
      }
    }
  }

  /** Every piece but the last ends outside an escape. */
  lemma {:induction false} FrontPiecesAreClosed(s: string, esc: bool)
    ensures var parts := SplitEscaped(s, esc);
      (|parts| > 1 ==> Closed(parts[0], esc)) && forall i :: 1 <= i < |parts| - 1 ==> Closed(parts[i], false)
  {
    if s != "" {
      if s[0] == '.' && !esc {
        FrontPiecesAreClosed(s[1..], false);
      } else {
        var e := s[0] == '\\' && !esc;
        FrontPiecesAreClosed(s[1..], e);
        var first := SplitEscaped(s[1..], e)[0];
        assert ([s[0]] + first)[1..] == first;
        assert Prepend(s[0], [first]) == [[s[0]] + first];
      }
    }
  }

  /** tail is a suffix of whole, as sequences. */
  predicate IsTail<T(==)>(tail: seq<T>, whole: seq<T>) {
    |tail| <= |whole| && whole[|whole| - |tail|..] == tail
  }

  /** A text is some part that ends outside an escape, a dot, and domain. */
  ghost predicate EndsAfterOpenDot(name: string, domain: string) {
    exists front :: name == front + "." + domain && !EscapeAfter(front, false)
  }

  /** The labels of domain are the last labels of name exactly when domain is name or follows a dot in it that
      is not escaped. */
  lemma TextSuffixIsLabelSuffix(domain: string, name: string)
    ensures IsTail(SplitEscaped(domain, false), SplitEscaped(name, false))
       <==> name == domain || EndsAfterOpenDot(name, domain)
  {
    hide SplitEscaped, EscapeAfter;
    if IsTail(SplitEscaped(domain, false), SplitEscaped(name, false)) {
      LabelSuffixIsTextSuffix(domain, name);
    }
    if EndsAfterOpenDot(name, domain) {
      var front :| name == front + "." + domain && !EscapeAfter(front, false);
      SplitAtOpenDot(front, domain, false);
    }
  }

  /** Such an end is a text suffix whose dot is not escaped. */
  lemma OpenDotMeans(name: string, domain: string)
    ensures EndsAfterOpenDot(name, domain)
       <==> HasSuffix(name, "." + domain) && !EscapeAfter(name[..|name| - |domain| - 1], false)
  {
    hide EscapeAfter;
    if EndsAfterOpenDot(name, domain) {
      var front :| name == front + "." + domain && !EscapeAfter(front, false);
      ConcatHasSuffix(front, domain);
    }
    if HasSuffix(name, "." + domain) {
      SuffixParts(name, domain);
    }
  }

  lemma SuffixParts(name: string, domain: string)
    requires HasSuffix(name, "." + domain)
    ensures |domain| < |name| && name == name[..|name| - |domain| - 1] + "." + domain
  {
    assert name == name[..|name| - |domain| - 1] + name[|name| - |domain| - 1..];
  }

  /** The labels in front of a cut, joined again, end outside an escape. */
  lemma FrontIsOpen(name: string, k: nat)
    requires 0 < k < |SplitEscaped(name, false)|
    ensures !EscapeAfter(JoinDots(SplitEscaped(name, false)[..k]), false)
  {
    hide SplitEscaped, EscapeAfter, JoinDots, Closed;
    FrontPiecesAreClosed(name, false);
    SplitEscapedOfJoin(SplitEscaped(name, false)[..k]);
  }

  lemma JoinAroundCut(parts: seq<string>, k: nat)
    requires 0 < k < |parts|
    ensures JoinDots(parts) == JoinDots(parts[..k]) + "." + JoinDots(parts[k..])
  {
    hide JoinDots;
    JoinOfConcat(parts[..k], parts[k..]);
    assert parts[..k] + parts[k..] == parts;
  }

  lemma LabelSuffixIsTextSuffix(domain: string, name: string)
    requires IsTail(SplitEscaped(domain, false), SplitEscaped(name, false))
    ensures name == domain || EndsAfterOpenDot(name, domain)
  {
    hide SplitEscaped, EscapeAfter, JoinDots;
    var whole, tail := SplitEscaped(name, false), SplitEscaped(domain, false);
    JoinOfSplitEscaped(name, false);
    JoinOfSplitEscaped(domain, false);
    var k := |whole| - |tail|;
    if k == 0 {
      assert whole[0..] == whole;
    } else {
      JoinAroundCut(whole, k);
      FrontIsOpen(name, k);
      assert name == JoinDots(whole[..k]) + "." + domain;
    }
  }

  lemma ConcatHasSuffix(front: string, domain: string)
    ensures var name := front + "." + domain; HasSuffix(name, "." + domain) && name[..|name| - |domain| - 1] == front
  {
    var name := front + "." + domain;
    assert name == front + ("." + domain);
    assert name[|front|..] == "." + domain;
  }

  // ---------------------------------------------------------------- membership in a zone

  /** A name is in a zone when its labels end in those of the origin; everything is in the root zone. */
  predicate InZone(name: string, origin: string) {
    IsTail(Labels(NormalizeName(origin)), Labels(NormalizeName(name)))
  }

  /** Where the text of a normal name misleads: below the root, whose dot the test doubles, and behind an escaped
      dot in front of any other origin. */
  predicate TextMisleads(n: string, o: string) {
    if o == "." then n != "." && !HasSuffix(n, "..")
    else HasSuffix(n, "." + o) && EscapeAfter(n[..|n| - |o| - 1], false)
  }

  /** For fully qualified names, the store's test on the text of a name agrees with membership by labels exactly
      unless the text misleads: then the root zone lacks a name it has, or any other zone has one it lacks. */
  lemma MembershipByLabels(name: string, origin: string)
    requires IsFqdn(NormalizeName(name)) && IsFqdn(NormalizeName(origin))
    ensures var (n, o) := (NormalizeName(name), NormalizeName(origin));
      && ((IsNameInZone(name, origin) <==> InZone(name, origin)) <==> !TextMisleads(n, o))
      && (TextMisleads(n, o) ==> (InZone(name, origin) <==> o == "."))
  {
    hide NormalizeName, Labels, HasSuffix, EscapeAfter;
    var n, o := NormalizeName(name), NormalizeName(origin);
    if o == "." {
      RootTest(n);
    } else {
      BelowByLabels(n, o);
      OpenDotMeans(n, o);
      BelowByText(name, origin);
      LongerIsOther(n, o);
    }
  }

  lemma RootTest(n: string)
    ensures Labels(".") == [] && IsTail([], Labels(n)) && "." + TrimSuffix(".", ".") + "." == ".."
  {
  }

  lemma LongerIsOther(n: string, o: string)
    ensures HasSuffix(n, "." + o) ==> n != o
  {
  }

  lemma BelowByText(name: string, origin: string)
    ensures var (n, o) := (NormalizeName(name), NormalizeName(origin));
      IsNameInZone(name, origin) <==> n == o || HasSuffix(n, "." + o)
  {
    hide NormalizeName, HasSuffix;
    var o := NormalizeName(origin);
    assert o == o[..|o| - 1] + ".";
    ApexOfDotted(o[..|o| - 1]);
  }

  lemma BelowByLabels(n: string, o: string)
    requires IsFqdn(n) && IsFqdn(o) && o != "."
    ensures IsTail(Labels(o), Labels(n)) <==> n == o || EndsAfterOpenDot(n, o)
  {
    hide SplitEscaped, EscapeAfter, HasSuffix, EndsAfterOpenDot;
    var nb, ob := n[..|n| - 1], o[..|o| - 1];
    assert n == nb + "." && o == ob + ".";
    OpenDotOfDotted(nb, ob);
    if n == "." {
      RootHasNoSuffix(ob);
    } else {
      TextSuffixIsLabelSuffix(ob, nb);
    }
  }

  lemma ApexOfDotted(o: string)
    ensures TrimSuffix(o + ".", ".") == o && "." + o + "." == "." + (o + ".")
  {
    assert (o + ".")[|o|..] == ".";
  }

  lemma OpenDotOfDotted(n: string, o: string)
    ensures EndsAfterOpenDot(n + ".", o + ".") <==> EndsAfterOpenDot(n, o)
  {
    hide EscapeAfter;
    if EndsAfterOpenDot(n + ".", o + ".") {
      var front :| n + "." == front + "." + (o + ".") && !EscapeAfter(front, false);
      assert (n + ".")[..|n|] == n && (front + "." + (o + "."))[..|n|] == front + "." + o;
    }
    if EndsAfterOpenDot(n, o) {
      var front :| n == front + "." + o && !EscapeAfter(front, false);
      assert n + "." == front + "." + (o + ".");
    }
  }

  lemma RootHasNoSuffix(o: string)
    ensures o != "" ==> !HasSuffix(".", "." + (o + ".")) && !EndsAfterOpenDot(".", o + ".")
  {
  }

  // ---------------------------------------------------------------- where they differ

  const ESCAPED_NAME := "a\\.b."

  /** A name whose one label has a dot passes for a name below b. */
  lemma EscapedDotLeavesZone()
    ensures IsNameInZone(ESCAPED_NAME, "b.") && !InZone(ESCAPED_NAME, "b.")
    ensures Normal(ESCAPED_NAME) && Normal("b.") && IsFqdn(ESCAPED_NAME) && IsFqdn("b.")
  {
    hide NormalizeName;
    var n := ESCAPED_NAME;
    assert n[..|n| - 1][|n| - 2] == 'b' && TrailingBackslashes(n[..|n| - 1]) == 0;
    assert TrailingBackslashes("b."[..1]) == 0;
    assert Lower(n) == n && Lower("b.") == "b.";
    NormalizeIsNormal(n);
    NormalizeIsNormal("b.");
    assert n[..2] == "a\\" && n[2..] == ".b." == "." + "b.";
    assert "a\\"[1..] == "\\" && "\\"[1..] == "" && EscapeAfter("\\", false) && EscapeAfter("a\\", false);
    MembershipByLabels(n, "b.");
  }

  /** No name with a label passes for a name in the root zone, unless it ends in an empty label. */
  lemma RootLacksNames(name: string)
    requires NormalizeName(name) != "." && !HasSuffix(NormalizeName(name), "..")
    ensures InZone(name, ".") && !IsNameInZone(name, ".")
  {
    hide NormalizeName, HasSuffix;
    NormalizeIsNormal(".");
    assert Lower(".") == ".";
    RootTest(NormalizeName(name));
  }
}
