/** Reversed domains: the labels of a name in opposite order, so that a parent domain is a text prefix. The
    table of reversed domains is a map with a longest-prefix search. */
module DomainMatch {
  import opened Names
  import opened LabelSuffixes

  /** Lower-case, without surrounding blanks and without one final dot. */
  function NormalizeDomain(name: string): string {
    TrimSuffix(Lower(TrimSpace(name)), ".")
  }

  lemma LowerKeepsSpace(c: char)
    ensures IsSpace(LowerChar(c)) <==> IsSpace(c)
  {
  }

  lemma {:induction false} TrimLeftOfLower(s: string)
    ensures TrimLeft(Lower(s)) == Lower(TrimLeft(s))
  {
    if s != "" {
      LowerKeepsSpace(s[0]);
      if IsSpace(s[0]) {
        TrimLeftOfLower(s[1..]);
        assert Lower(s)[1..] == Lower(s[1..]);
      }
    }
  }

  lemma {:induction false} TrimRightOfLower(s: string)
    ensures TrimRight(Lower(s)) == Lower(TrimRight(s))
  {
    if s != "" {
      LowerKeepsSpace(s[|s| - 1]);
      if IsSpace(s[|s| - 1]) {
        TrimRightOfLower(s[..|s| - 1]);
        assert Lower(s)[..|s| - 1] == Lower(s[..|s| - 1]);
      }
    }
  }

  /** Matching ignores case: names that differ in case alone are one name to it, and what it works on is lower-case. */
  lemma CaseDoesNotMatter(a: string, b: string)
    ensures Lower(a) == Lower(b) ==> NormalizeDomain(a) == NormalizeDomain(b)
    ensures Lower(NormalizeDomain(a)) == NormalizeDomain(a)
  {
    TrimLeftOfLower(a);
    TrimLeftOfLower(b);
    TrimRightOfLower(TrimLeft(a));
    TrimRightOfLower(TrimLeft(b));
    LowerIsIdempotent(TrimSpace(a));
  }

  function Reversed<T>(s: seq<T>): (r: seq<T>)
    ensures |r| == |s|
    ensures forall i :: 0 <= i < |s| ==> r[i] == s[|s| - 1 - i]
  {
    seq(|s|, i requires 0 <= i < |s| => s[|s| - 1 - i])
  }

  /** The reversed form of a normalised name. */
  function ReversedName(name: string): string {
    if name == "" then "" else JoinDots(Reversed(SplitDots(name)))
  }

  /** Swaps labels from both ends towards the middle. */
  method ReverseInPlace(labels: array<string>)
    modifies labels
    ensures labels[..] == Reversed(old(labels[..]))
  {
    var i, j := 0, labels.Length - 1;
    while i < j
      invariant 0 <= i && i + j == labels.Length - 1 && i <= j + 1
      invariant forall k :: 0 <= k < i || j < k < labels.Length ==> labels[k] == old(labels[labels.Length - 1 - k])
      invariant forall k :: i <= k <= j ==> labels[k] == old(labels[k])
    {
      labels[i], labels[j] := labels[j], labels[i];
      i, j := i + 1, j - 1;
    }
  }

  method ReverseDomain(name: string) returns (reversed: string)
    ensures reversed == ReversedName(NormalizeDomain(name))
  {
    var n := NormalizeDomain(name);
    if n == "" {
      return "";
    }
    var parts := SplitDots(n);
    var labels := new string[|parts|](i requires 0 <= i < |parts| => parts[i]);
    assert labels[..] == parts;
    ReverseInPlace(labels);
    return JoinDots(labels[..]);
  }

  lemma ReversedTwice<T>(s: seq<T>)
    ensures Reversed(Reversed(s)) == s
  {
  }

  lemma ReversedConcat<T>(a: seq<T>, b: seq<T>)
    ensures Reversed(a + b) == Reversed(b) + Reversed(a)
  {
  }

  /** Reversal loses nothing: the labels come back by reversing again. */
  lemma LabelsOfReversed(name: string)
    requires name != ""
    ensures SplitDots(ReversedName(name)) == Reversed(SplitDots(name))
  {
    hide SplitDots, JoinDots;
    JoinOfSplit(name);
    SplitOfJoin(Reversed(SplitDots(name)));
  }

  lemma ReversalIsInvolution(name: string)
    ensures ReversedName(ReversedName(name)) == name
  {
    hide SplitDots, JoinDots;
    if name != "" {
      LabelsOfReversed(name);
      ReversedTwice(SplitDots(name));
      JoinOfSplit(name);
      ReversedIsNotEmpty(name);
    }
  }

  lemma ReversedIsNotEmpty(name: string)
    ensures ReversedName(name) == "" <==> name == ""
  {
    var parts := SplitDots(name);
    JoinOfSplit(name);
    if |parts| == 1 {
      assert Reversed(parts) == parts;
    }
  }

  /** The name is the domain itself or below it, cut at a dot. */
  predicate Covers(domain: string, name: string) {
    name == domain || HasSuffix(name, "." + domain)
  }

  /** Covering is on the text. By labels, escapes honoured, the domain covers less: the dot in front of it must not
      be escaped. */
  lemma CoverByLabels(domain: string, name: string)
    ensures IsTail(SplitEscaped(domain, false), SplitEscaped(name, false))
       <==> Covers(domain, name) && (name == domain || EndsAfterOpenDot(name, domain))
  {
    hide SplitEscaped, EndsAfterOpenDot, EscapeAfter;
    TextSuffixIsLabelSuffix(domain, name);
    OpenDotMeans(name, domain);
  }

  /** The key is the whole text or stops right before a dot of it. */
  predicate AtBoundary(key: string, text: string) {
    key <= text && (|key| == |text| || text[|key|] == '.')
  }

  lemma ReversedOfBelow(front: string, domain: string)
    requires domain != ""
    ensures ReversedName(front + "." + domain) == ReversedName(domain) + "." + ReversedLabels(front)
  {
    hide SplitDots, JoinDots;
    SplitOfConcat(front, domain);
    ReversedConcat(SplitDots(front), SplitDots(domain));
    JoinOfConcat(Reversed(SplitDots(domain)), Reversed(SplitDots(front)));
  }

  function ReversedLabels(text: string): string {
    JoinDots(Reversed(SplitDots(text)))
  }

  /** What reversal is for: a domain covers a name exactly when its reversed form is a prefix of the reversed
      name that stops at a label boundary. */
  lemma CoverIsBoundaryPrefix(domain: string, name: string)
    requires domain != "" && name != ""
    ensures Covers(domain, name) <==> AtBoundary(ReversedName(domain), ReversedName(name))
  {
    hide SplitDots, JoinDots, HasSuffix;
    if Covers(domain, name) {
      CoverGivesPrefix(domain, name);
    }
    if AtBoundary(ReversedName(domain), ReversedName(name)) {
      PrefixGivesCover(domain, name);
    }
  }

  lemma SuffixSplits(name: string, tail: string)
    requires HasSuffix(name, tail)
    ensures name == name[..|name| - |tail|] + tail
  {
  }

  lemma CoverGivesPrefix(domain: string, name: string)
    requires domain != "" && name != "" && Covers(domain, name)
    ensures AtBoundary(ReversedName(domain), ReversedName(name))
  {
    hide SplitDots, JoinDots, HasSuffix, ReversedName;
    if name != domain {
      SuffixSplits(name, "." + domain);
      var front := name[..|name| - |domain| - 1];
      assert name == front + "." + domain;
      ReversedOfBelow(front, domain);
    }
  }

  lemma PrefixGivesCover(domain: string, name: string)
    requires domain != "" && name != "" && AtBoundary(ReversedName(domain), ReversedName(name))
    ensures Covers(domain, name)
  {
    hide SplitDots, JoinDots, ReversedName;
    var d, n := ReversedName(domain), ReversedName(name);
    LabelsOfReversed(domain);
    LabelsOfReversed(name);
    JoinOfSplit(domain);
    JoinOfSplit(name);
    ReversedTwice(SplitDots(domain));
    ReversedTwice(SplitDots(name));
    if |d| == |n| {
      assert d == n;
    } else {
      var rest := n[|d| + 1..];
      assert n == d + "." + rest;
      SplitOfConcat(d, rest);
      ReversedConcat(SplitDots(d), SplitDots(rest));
      assert SplitDots(name) == Reversed(SplitDots(rest)) + SplitDots(domain);
      JoinOfConcat(Reversed(SplitDots(rest)), SplitDots(domain));
      assert name == JoinDots(Reversed(SplitDots(rest))) + "." + domain;
    }
  }

  // ---------------------------------------------------------------- longest prefix

  /** The length of the longest prefix of text, at most n characters, that is a key; -1 if there is none. */
  function LongestPrefix(keys: set<string>, text: string, n: nat): (len: int)
    requires n <= |text|
    ensures -1 <= len <= n
    ensures len >= 0 ==> text[..len] in keys
    ensures forall m :: len < m <= n ==> text[..m] !in keys
  {
    if text[..n] in keys then n else if n == 0 then -1 else LongestPrefix(keys, text, n - 1)
  }
}
