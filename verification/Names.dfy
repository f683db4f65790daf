/** Domain names as text: the trimming, lower-casing and dot handling of the zone store and of the
    DNS library, the two ways of cutting a name into labels, and the zone-membership test. */
module Names {

  // ---------------------------------------------------------------- characters and trimming

  predicate IsSpace(c: char) {
    || '\t' <= c <= '\r' || c == ' ' || c == '\U{85}' || c == '\U{A0}' || c == '\U{1680}'
    || '\U{2000}' <= c <= '\U{200A}' || c == '\U{2028}' || c == '\U{2029}' || c == '\U{202F}'
    || c == '\U{205F}' || c == '\U{3000}'
  }

  function LowerChar(c: char): char {
    if 'A' <= c <= 'Z' then (c as int + 32) as char else c
  }

  function Lower(s: string): (r: string)
    ensures |r| == |s|
  {
    seq(|s|, i requires 0 <= i < |s| => LowerChar(s[i]))
  }

  function TrimLeft(s: string): string {
    if s != "" && IsSpace(s[0]) then TrimLeft(s[1..]) else s
  }

  function TrimRight(s: string): string {
    if s != "" && IsSpace(s[|s| - 1]) then TrimRight(s[..|s| - 1]) else s
  }

  function TrimSpace(s: string): string {
    TrimRight(TrimLeft(s))
  }

  predicate Trimmed(s: string) {
    s == "" || (!IsSpace(s[0]) && !IsSpace(s[|s| - 1]))
  }

  lemma TrimRightKeepsHead(s: string)
    ensures s != "" && !IsSpace(s[0]) ==> TrimRight(s) != "" && TrimRight(s)[0] == s[0]
  {
  }

  lemma TrimRightTail(s: string)
    ensures TrimRight(s) != "" ==> !IsSpace(TrimRight(s)[|TrimRight(s)| - 1])
  {
  }

  lemma TrimLeftHead(s: string)
    ensures TrimLeft(s) != "" ==> !IsSpace(TrimLeft(s)[0])
  {
  }

  lemma TrimSpaceIsTrimmed(s: string)
    ensures Trimmed(TrimSpace(s))
    ensures Trimmed(s) ==> TrimSpace(s) == s
  {
    TrimLeftHead(s);
    TrimRightKeepsHead(TrimLeft(s));
    TrimRightTail(TrimLeft(s));
  }

  lemma LowerIsIdempotent(s: string)
    ensures Lower(Lower(s)) == Lower(s)
    ensures Trimmed(s) ==> Trimmed(Lower(s))
  {
  }

  predicate HasSuffix(s: string, suffix: string) {
    |suffix| <= |s| && s[|s| - |suffix|..] == suffix
  }

  function TrimSuffix(s: string, suffix: string): string {
    if HasSuffix(s, suffix) then s[..|s| - |suffix|] else s
  }

  predicate EndsInDot(s: string) {
    s != "" && s[|s| - 1] == '.'
  }

  // ---------------------------------------------------------------- normal form of the store

  /** Lower-case fully qualified form under which the store files a name. */
  function NormalizeName(name: string): (r: string)
    ensures EndsInDot(r)
  {
    var n := Lower(TrimSpace(name));
    if n == "" then "." else if EndsInDot(n) then n else n + "."
  }

  /** The texts that NormalizeName leaves alone. */
  predicate Normal(s: string) {
    EndsInDot(s) && Trimmed(s) && Lower(s) == s
  }

  lemma NormalizeIsNormal(name: string)
    ensures Normal(NormalizeName(name))
    ensures Normal(name) ==> NormalizeName(name) == name
    ensures NormalizeName(NormalizeName(name)) == NormalizeName(name)
  {
    TrimSpaceIsTrimmed(name);
    LowerIsIdempotent(TrimSpace(name));
    var r := NormalizeName(name);
    TrimSpaceIsTrimmed(r);
  }

  // ---------------------------------------------------------------- canonical form of the library

  function TrailingBackslashes(s: string): nat {
    if s != "" && s[|s| - 1] == '\\' then 1 + TrailingBackslashes(s[..|s| - 1]) else 0
  }

  /** Ends in a dot that is not escaped. */
  predicate IsFqdn(s: string) {
    EndsInDot(s) && TrailingBackslashes(s[..|s| - 1]) % 2 == 0
  }

  function Fqdn(s: string): string {
    if IsFqdn(s) then s else s + "."
  }

  function CanonicalName(s: string): string {
    Lower(Fqdn(s))
  }

  /** An owner name as the DNS library delivers it: fully qualified, no blanks around it. */
  predicate IsOwnerName(s: string) {
    IsFqdn(s) && Trimmed(s)
  }

  lemma LowerKeepsBackslashes(s: string)
    ensures TrailingBackslashes(Lower(s)) == TrailingBackslashes(s)
  {
    if s != "" {
      assert Lower(s)[..|s| - 1] == Lower(s[..|s| - 1]);
      LowerKeepsBackslashes(s[..|s| - 1]);
    }
  }

  /** On owner names the store's normal form and the library's canonical form coincide. */
  lemma CanonicalIsNormal(s: string)
    requires IsOwnerName(s)
    ensures CanonicalName(s) == NormalizeName(s) == Lower(s)
    ensures IsOwnerName(CanonicalName(s))
    ensures CanonicalName(CanonicalName(s)) == CanonicalName(s)
  {
    TrimSpaceIsTrimmed(s);
    LowerIsIdempotent(s);
    LowerKeepsBackslashes(s[..|s| - 1]);
    assert Lower(s)[..|s| - 1] == Lower(s[..|s| - 1]);
  }

  // ---------------------------------------------------------------- zone membership

  /** name is the origin itself or ends in a dot followed by the origin. */
  predicate IsNameInZone(name: string, origin: string) {
    var n := NormalizeName(name);
    var o := NormalizeName(origin);
    n == o || HasSuffix(n, "." + TrimSuffix(o, ".") + ".")
  }

  lemma MembershipOfNormalForms(name: string, origin: string)
    ensures IsNameInZone(name, origin) == IsNameInZone(NormalizeName(name), NormalizeName(origin))
    ensures IsNameInZone(name, origin) == IsNameInZone(NormalizeName(name), origin)
    ensures IsNameInZone(origin, origin)
  {
    NormalizeIsNormal(name);
    NormalizeIsNormal(origin);
  }

  // ---------------------------------------------------------------- labels, escapes ignored

  predicate Dotless(s: string) {
    '.' !in s
  }

  /** A character put in front of the first part. */
  function Prepend(c: char, parts: seq<string>): (r: seq<string>)
    requires |parts| >= 1
    ensures |r| == |parts|
  {
    [[c] + parts[0]] + parts[1..]
  }

  lemma PrependOfConcat(c: char, a: seq<string>, b: seq<string>)
    requires |a| >= 1
    ensures Prepend(c, a + b) == Prepend(c, a) + b
  {
  }

  /** The text cut at every dot. */
  function SplitDots(s: string): (parts: seq<string>)
    ensures |parts| >= 1
  {
    if s == "" then [""]
    else if s[0] == '.' then [""] + SplitDots(s[1..])
    else Prepend(s[0], SplitDots(s[1..]))
  }

  function JoinDots(parts: seq<string>): string {
    if |parts| == 0 then "" else if |parts| == 1 then parts[0]
    else parts[0] + "." + JoinDots(parts[1..])
  }

  lemma {:induction false} JoinOfPrepend(c: char, parts: seq<string>)
    requires |parts| >= 1
    ensures JoinDots(Prepend(c, parts)) == [c] + JoinDots(parts)
  {
    var longer := Prepend(c, parts);
    if |parts| > 1 {
      assert longer[1..] == parts[1..] && longer[0] == [c] + parts[0];
      var rest := "." + JoinDots(parts[1..]);
      assert JoinDots(parts) == parts[0] + rest && JoinDots(longer) == longer[0] + rest;
    }
  }

  lemma JoinOfSplit(s: string)
    ensures JoinDots(SplitDots(s)) == s
    ensures forall i :: 0 <= i < |SplitDots(s)| ==> Dotless(SplitDots(s)[i])
  {
    if s != "" {
      JoinOfSplit(s[1..]);
      var rest := SplitDots(s[1..]);
      if s[0] == '.' {
        assert ([""] + rest)[1..] == rest;
      } else {
        JoinOfPrepend(s[0], rest);
      }
    }
  }

  lemma SplitOfDotless(s: string)
    requires Dotless(s)
    ensures SplitDots(s) == [s]
  {
    if s != "" {
      assert s[0] in s;
      SplitOfDotless(s[1..]);
      assert [s[0]] + s[1..] == s;
    }
  }

  lemma {:induction false} SplitOfConcat(a: string, b: string)
    ensures SplitDots(a + "." + b) == SplitDots(a) + SplitDots(b)
  {
    var s := a + "." + b;
    if a == "" {
      assert s[1..] == b;
    } else {
      assert s[1..] == a[1..] + "." + b;
      SplitOfConcat(a[1..], b);
      if a[0] != '.' {
        PrependOfConcat(a[0], SplitDots(a[1..]), SplitDots(b));
      }
    }
  }

  lemma SplitOfJoin(parts: seq<string>)
    requires |parts| >= 1
    requires forall i :: 0 <= i < |parts| ==> Dotless(parts[i])
    ensures SplitDots(JoinDots(parts)) == parts
  {
    SplitOfDotless(parts[0]);
    if |parts| > 1 {
      SplitOfJoin(parts[1..]);
      SplitOfConcat(parts[0], JoinDots(parts[1..]));
      assert parts == [parts[0]] + parts[1..];
    }
  }

  lemma JoinOfConcat(a: seq<string>, b: seq<string>)
    requires |a| >= 1 && |b| >= 1
    ensures JoinDots(a + b) == JoinDots(a) + "." + JoinDots(b)
  {
    if |a| == 1 {
      assert (a + b)[1..] == b;
    } else {
      assert (a + b)[1..] == a[1..] + b;
      JoinOfConcat(a[1..], b);
      assert JoinDots(a + b) == a[0] + "." + (JoinDots(a[1..]) + "." + JoinDots(b));
    }
  }

  // ---------------------------------------------------------------- labels, escapes honoured

  /** The text cut at every dot that no backslash escapes; esc tells whether the first character
      is escaped. */
  function SplitEscaped(s: string, esc: bool): (parts: seq<string>)
    ensures |parts| >= 1
  {
    if s == "" then [""]
    else if s[0] == '.' && !esc then [""] + SplitEscaped(s[1..], false)
    else Prepend(s[0], SplitEscaped(s[1..], s[0] == '\\' && !esc))
  }

  /** The labels of a fully qualified name, as the library's SplitDomainName returns them. */
  function Labels(fqdn: string): seq<string> {
    if fqdn == "." || fqdn == "" then []
    else if IsFqdn(fqdn) then SplitEscaped(fqdn[..|fqdn| - 1], false)
    else SplitEscaped(fqdn, false)
  }

  /** Whether the character after s is escaped when scanning starts with state esc. */
  function EscapeAfter(s: string, esc: bool): bool {
    if s == "" then esc else EscapeAfter(s[1..], s[0] == '\\' && !esc)
  }

  lemma EscapeAfterConcat(a: string, b: string, esc: bool)
    ensures EscapeAfter(a + b, esc) == EscapeAfter(b, EscapeAfter(a, esc))
  {
    if a != "" {
      assert (a + b)[1..] == a[1..] + b;
    } else {
      assert a + b == b;
    }
  }

  lemma EscapeAfterIsParity(s: string)
    ensures EscapeAfter(s, false) == (TrailingBackslashes(s) % 2 == 1)
  {
    if s != "" {
      var init, last := s[..|s| - 1], s[|s| - 1..];
      assert s == init + last;
      EscapeAfterConcat(init, last, false);
      EscapeAfterIsParity(init);
      assert last[1..] == "";
    }
  }

  /** One label: no unescaped dot inside and no dangling escape at its end. */
  predicate Closed(piece: string, esc: bool) {
    SplitEscaped(piece, esc) == [piece] && !EscapeAfter(piece, esc)
  }

  lemma {:induction false} PiecesAreClosed(s: string, esc: bool)
    requires !EscapeAfter(s, esc)
    ensures var parts := SplitEscaped(s, esc);
      Closed(parts[0], esc) && forall i :: 1 <= i < |parts| ==> Closed(parts[i], false)
  {
    if s != "" {
      if s[0] == '.' && !esc {
        PiecesAreClosed(s[1..], false);
      } else {
        var e := s[0] == '\\' && !esc;
        PiecesAreClosed(s[1..], e);
        var first := SplitEscaped(s[1..], e)[0];
        assert ([s[0]] + first)[1..] == first;
        assert Prepend(s[0], [first]) == [[s[0]] + first];
      }
    }
  }

  lemma {:induction false} SplitEscapedOfConcat(a: string, b: string, esc: bool)
    requires Closed(a, esc)
    ensures SplitEscaped(a + "." + b, esc) == [a] + SplitEscaped(b, false)
  {
    var s := a + "." + b;
    if a == "" {
      assert s[1..] == b;
    } else if a[0] == '.' && !esc {
      assert false;
    } else {
      var e := a[0] == '\\' && !esc;
      var inner := SplitEscaped(a[1..], e);
      assert Prepend(a[0], inner) == [a];
      assert [a][0][1..] == inner[0] && inner == [a[1..]];
      assert s[1..] == a[1..] + "." + b;
      SplitEscapedOfConcat(a[1..], b, e);
      PrependOfConcat(a[0], [a[1..]], SplitEscaped(b, false));
      assert [a[0]] + a[1..] == a;
    }
  }

  lemma SplitEscapedOfJoin(parts: seq<string>)
    requires |parts| >= 1
    requires forall i :: 0 <= i < |parts| ==> Closed(parts[i], false)
    ensures SplitEscaped(JoinDots(parts), false) == parts
    ensures !EscapeAfter(JoinDots(parts), false)
  {
    if |parts| > 1 {
      SplitEscapedOfJoin(parts[1..]);
      var tail := JoinDots(parts[1..]);
      SplitEscapedOfConcat(parts[0], tail, false);
      EscapeAfterConcat(parts[0] + ".", tail, false);
      EscapeAfterConcat(parts[0], ".", false);
      assert "."[1..] == "";
      assert parts == [parts[0]] + parts[1..];
    }
  }

  /** A text that does not end in an open dot, closed with one. */
  lemma LabelsOfClosed(text: string)
    requires text != "" && !IsFqdn(text) && !EscapeAfter(text, false)
    ensures Fqdn(text) == text + "." && IsFqdn(text + ".") && Labels(text + ".") == SplitEscaped(text, false)
  {
    hide SplitEscaped, EscapeAfter;
    EscapeAfterIsParity(text);
    assert (text + ".")[..|text|] == text;
    hide TrailingBackslashes;
  }

  lemma LabelsOfJoin(parts: seq<string>)
    requires |parts| >= 1
    requires forall i :: 0 <= i < |parts| ==> parts[i] != "" && Closed(parts[i], false)
    ensures IsFqdn(Fqdn(JoinDots(parts)))
    ensures Labels(Fqdn(JoinDots(parts))) == parts
  {
    hide SplitEscaped, EscapeAfter, Closed, JoinDots, TrailingBackslashes, IsFqdn, Fqdn, Labels;
    var text := JoinDots(parts);
    ClosedLabelIsNotFqdn(parts);
    SplitEscapedOfJoin(parts);
    JoinEndsWithLastLabel(parts);
    assert text != "";
    LabelsOfClosed(text);
  }

  /** Joining the last labels of a name and closing it with a dot gives a name with exactly those
      labels, provided no label is empty. */
  lemma LabelsOfSuffix(fqdn: string, start: nat)
    requires IsFqdn(fqdn)
    requires "" !in Labels(fqdn)
    requires start < |Labels(fqdn)|
    ensures Labels(Fqdn(JoinDots(Labels(fqdn)[start..]))) == Labels(fqdn)[start..]
    ensures IsFqdn(Fqdn(JoinDots(Labels(fqdn)[start..])))
  {
    var body := fqdn[..|fqdn| - 1];
    var parts := Labels(fqdn);
    EscapeAfterIsParity(body);
    PiecesAreClosed(body, false);
    var tail := parts[start..];
    assert forall i :: 0 <= i < |tail| ==> tail[i] == parts[start + i] && tail[i] in parts;
    LabelsOfJoin(tail);
  }

  lemma JoinEndsWithLastLabel(parts: seq<string>)
    requires |parts| >= 1
    ensures HasSuffix(JoinDots(parts), parts[|parts| - 1])
  {
    if |parts| > 1 {
      JoinEndsWithLastLabel(parts[1..]);
      assert parts[1..][|parts| - 2] == parts[|parts| - 1];
    }
  }

  lemma {:induction false} SplitEscapedEndingInDot(s: string, esc: bool)
    requires EndsInDot(s) && !EscapeAfter(s[..|s| - 1], esc)
    ensures var parts := SplitEscaped(s, esc); parts[|parts| - 1] == ""
  {
    if |s| > 1 {
      var init := s[..|s| - 1];
      assert s[1..][..|s| - 2] == init[1..] && init[0] == s[0];
      SplitEscapedEndingInDot(s[1..], s[0] == '\\' && !esc);
    } else {
      assert s[..0] == "" && s[1..] == "";
    }
  }

  lemma ClosedLabelIsNotFqdn(parts: seq<string>)
    requires |parts| >= 1
    requires forall i :: 0 <= i < |parts| ==> parts[i] != "" && Closed(parts[i], false)
    ensures !IsFqdn(JoinDots(parts))
  {
    var text := JoinDots(parts);
    SplitEscapedOfJoin(parts);
    if IsFqdn(text) {
      EscapeAfterIsParity(text[..|text| - 1]);
      SplitEscapedEndingInDot(text, false);
    }
  }
}
