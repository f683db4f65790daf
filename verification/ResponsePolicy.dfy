/** Response policies: exact rules in a table, wildcard rules under their reversed apex in a prefix tree.
    Rules are added to a copy of the current snapshot, which then replaces it by compare-and-swap. */
module ResponsePolicy {
  import opened Wrappers
  import opened Names
  import opened CaseFolding
  import opened DomainMatch

  datatype Action = NxDomain | NoDataAction | Drop | Cname | A4 | A6

  datatype Entry = Entry(action: Action, target: string)

  datatype Snapshot = Snapshot(exact: map<string, Entry>, wildcards: map<string, Entry>)

  datatype Policy = Policy(pattern: string, action: string, target: string)

  /** How the library reads an address. */
  datatype ParsedIp = NotIp | Ip4(text: string) | Ip6(text: string)

  // ---------------------------------------------------------------- evaluation

  /** The name looked for among the wildcards: the reversal normalises once more, which takes another dot off. */
  function Target(qname: string): string {
    NormalizeDomain(NormalizeDomain(qname))
  }

  function Evaluate(snap: Snapshot, enabled: bool, qname: string): Option<Entry> {
    var name := NormalizeDomain(qname);
    if !enabled || name == "" then None
    else if name in snap.exact then Some(snap.exact[name])
    else
      var text := ReversedName(Target(qname));
      var len := LongestPrefix(snap.wildcards.Keys, text, |text|);
      if len <= 0 || len == |text| || text[len] != '.' then None else Some(snap.wildcards[text[..len]])
  }

  /** The name lies strictly below the apex. */
  predicate Below(apex: string, name: string) {
    HasSuffix(name, "." + apex)
  }

  /** No wildcard is filed under the empty text; all tables built from rules are of this kind. */
  predicate KeysNotEmpty(snap: Snapshot) {
    forall k <- snap.wildcards :: k != ""
  }

  /** A wildcard rule for the apex is loaded. */
  predicate HasWildcard(snap: Snapshot, apex: string) {
    apex != "" && ReversedName(apex) in snap.wildcards
  }

  lemma BelowIsStrictPrefix(apex: string, name: string)
    requires apex != "" && name != ""
    ensures Below(apex, name)
       <==> AtBoundary(ReversedName(apex), ReversedName(name)) && |ReversedName(apex)| < |ReversedName(name)|
  {
    hide ReversedName, HasSuffix, AtBoundary;
    CoverIsBoundaryPrefix(apex, name);
    ReversalIsInvolution(apex);
    ReversalIsInvolution(name);
    if Below(apex, name) {
      SuffixIsShorter(apex, name);
      BoundaryOfOther(ReversedName(apex), ReversedName(name));
    }
    if AtBoundary(ReversedName(apex), ReversedName(name)) && |ReversedName(apex)| < |ReversedName(name)| {
      assert name != apex;
    }
  }

  lemma SuffixIsShorter(apex: string, name: string)
    requires Below(apex, name)
    ensures name != apex
  {
  }

  lemma BoundaryOfOther(key: string, text: string)
    requires AtBoundary(key, text) && key != text
    ensures |key| < |text|
  {
  }

  /** A wildcard rule answers only for names strictly below its apex, never for the apex. */
  lemma WildcardIsBelow(snap: Snapshot, qname: string) returns (apex: string)
    requires NormalizeDomain(qname) !in snap.exact && Evaluate(snap, true, qname).Some?
    requires KeysNotEmpty(snap)
    ensures HasWildcard(snap, apex) && Below(apex, Target(qname))
    ensures Evaluate(snap, true, qname) == Some(snap.wildcards[ReversedName(apex)])
  {
    hide ReversedName, NormalizeDomain, HasSuffix, Target;
    var name := Target(qname);
    WildcardNeedsName(snap, qname);
    var text := ReversedName(name);
    var key := text[..LongestPrefix(snap.wildcards.Keys, text, |text|)];
    apex := ReversedName(key);
    ReversalIsInvolution(key);
    ReversedIsNotEmpty(key);
    BelowIsStrictPrefix(apex, name);
  }

  /** A loaded wildcard key that is a prefix of the reversed name without lying strictly above the name. */
  predicate Stray(snap: Snapshot, apex: string, name: string) {
    HasWildcard(snap, apex) && ReversedName(apex) <= ReversedName(name) && !Below(apex, name)
  }

  /** The stray key is longer than the key of every rule the name lies below. */
  ghost predicate Hides(snap: Snapshot, apex: string, name: string) {
    && Stray(snap, apex, name)
    && forall other :: HasWildcard(snap, other) && Below(other, name) ==> |ReversedName(other)| < |ReversedName(apex)|
  }

  lemma LoadedIsNoLonger(snap: Snapshot, apex: string, name: string)
    requires HasWildcard(snap, apex) && ReversedName(apex) <= ReversedName(name)
    ensures 0 < |ReversedName(apex)| <= LongestPrefix(snap.wildcards.Keys, ReversedName(name), |ReversedName(name)|)
  {
    hide ReversedName;
    ReversedIsNotEmpty(apex);
    assert ReversedName(name)[..|ReversedName(apex)|] == ReversedName(apex);
  }

  lemma BelowIsPrefix(apex: string, name: string)
    requires apex != "" && name != "" && Below(apex, name)
    ensures ReversedName(apex) <= ReversedName(name)
  {
    hide ReversedName, HasSuffix;
    BelowIsStrictPrefix(apex, name);
  }

  /** The apex behind the longest prefix of the name. */
  lemma LongestApex(snap: Snapshot, name: string) returns (apex: string)
    requires KeysNotEmpty(snap)
    requires LongestPrefix(snap.wildcards.Keys, ReversedName(name), |ReversedName(name)|) >= 0
    ensures HasWildcard(snap, apex) && ReversedName(apex) <= ReversedName(name)
    ensures |ReversedName(apex)| == LongestPrefix(snap.wildcards.Keys, ReversedName(name), |ReversedName(name)|)
  {
    hide ReversedName;
    var key := ReversedName(name)[..LongestPrefix(snap.wildcards.Keys, ReversedName(name), |ReversedName(name)|)];
    apex := ReversedName(key);
    ReversalIsInvolution(key);
    ReversedIsNotEmpty(key);
  }

  /** The wildcard search answers exactly when the longest prefix lies strictly above the name. */
  lemma EvaluateAtLongest(snap: Snapshot, qname: string, apex: string)
    requires NormalizeDomain(qname) != "" && NormalizeDomain(qname) !in snap.exact
    requires var name := Target(qname);
      && name != "" && HasWildcard(snap, apex) && ReversedName(apex) <= ReversedName(name)
      && |ReversedName(apex)| == LongestPrefix(snap.wildcards.Keys, ReversedName(name), |ReversedName(name)|)
    ensures Evaluate(snap, true, qname).Some? <==> Below(apex, Target(qname))
    ensures Below(apex, Target(qname)) ==> Evaluate(snap, true, qname) == Some(snap.wildcards[ReversedName(apex)])
  {
    hide ReversedName, NormalizeDomain, HasSuffix, Target;
    BelowIsStrictPrefix(apex, Target(qname));
    ReversedIsNotEmpty(apex);
    assert ReversedName(Target(qname))[..|ReversedName(apex)|] == ReversedName(apex);
  }

  /** Exactly when a name below a wildcard apex is missed: a longer key is in the way, either of a domain that
      is the name itself or one that is cut inside a label. */
  lemma MissedIffHidden(snap: Snapshot, qname: string, covering: string)
    requires NormalizeDomain(qname) != "" && NormalizeDomain(qname) !in snap.exact
    requires KeysNotEmpty(snap)
    requires HasWildcard(snap, covering) && Below(covering, Target(qname))
    ensures Evaluate(snap, true, qname).None? <==> exists apex :: Hides(snap, apex, Target(qname))
  {
    hide ReversedName, NormalizeDomain, HasSuffix, Evaluate, Target;
    var name := Target(qname);
    BelowIsLonger(covering, name);
    BelowIsPrefix(covering, name);
    LoadedIsNoLonger(snap, covering, name);
    var apex := LongestApex(snap, name);
    EvaluateAtLongest(snap, qname, apex);
    if !Below(apex, name) {
      LongestHides(snap, apex, name);
    }
    if other :| Hides(snap, other, name) {
      LoadedIsNoLonger(snap, other, name);
    }
  }

  lemma BelowIsLonger(apex: string, name: string)
    ensures Below(apex, name) ==> name != ""
  {
  }

  /** The rule for the apex decides about the name: the name lies strictly below it, and no loaded key that is a
      prefix of the reversed name is longer. */
  ghost predicate Decides(snap: Snapshot, apex: string, name: string) {
    && HasWildcard(snap, apex) && Below(apex, name)
    && forall other :: HasWildcard(snap, other) && ReversedName(other) <= ReversedName(name) ==>
         |ReversedName(other)| <= |ReversedName(apex)|
  }

  /** Where an answer comes from: the exact rule of the name if there is one, or else the wildcard rule that
      decides about it. */
  ghost predicate Ruled(snap: Snapshot, qname: string, e: Entry) {
    var name := NormalizeDomain(qname);
    if name in snap.exact then e == snap.exact[name]
    else exists apex :: Decides(snap, apex, Target(qname)) && e == snap.wildcards[ReversedName(apex)]
  }

  /** A query is answered with an entry exactly when the rules say so; in particular exact rules come first,
      whatever wildcards are loaded, and no wildcard answers for its own apex. */
  lemma EvaluateIffRuled(snap: Snapshot, qname: string, e: Entry)
    requires KeysNotEmpty(snap) && NormalizeDomain(qname) != ""
    ensures Evaluate(snap, true, qname) == Some(e) <==> Ruled(snap, qname, e)
  {
    hide ReversedName, NormalizeDomain, HasSuffix, Evaluate, Target;
    if NormalizeDomain(qname) in snap.exact {
      ExactAnswers(snap, qname);
    } else {
      if Evaluate(snap, true, qname) == Some(e) {
        AnswerIsDecided(snap, qname, e);
      }
      if apex :| Decides(snap, apex, Target(qname)) && e == snap.wildcards[ReversedName(apex)] {
        DecidedIsAnswer(snap, qname, apex);
      }
    }
  }

  lemma ExactAnswers(snap: Snapshot, qname: string)
    requires NormalizeDomain(qname) != "" && NormalizeDomain(qname) in snap.exact
    ensures Evaluate(snap, true, qname) == Some(snap.exact[NormalizeDomain(qname)])
  {
  }

  lemma AnswerIsDecided(snap: Snapshot, qname: string, e: Entry)
    requires KeysNotEmpty(snap) && NormalizeDomain(qname) !in snap.exact && Evaluate(snap, true, qname) == Some(e)
    ensures exists apex :: Decides(snap, apex, Target(qname)) && e == snap.wildcards[ReversedName(apex)]
  {
    hide ReversedName, NormalizeDomain, HasSuffix, Target;
    var name := Target(qname);
    var apex := LongestApex(snap, name);
    WildcardNeedsName(snap, qname);
    EvaluateAtLongest(snap, qname, apex);
    forall other | HasWildcard(snap, other) && ReversedName(other) <= ReversedName(name)
      ensures |ReversedName(other)| <= |ReversedName(apex)|
    {
      LoadedIsNoLonger(snap, other, name);
    }
    assert Decides(snap, apex, name);
  }

  lemma WildcardNeedsName(snap: Snapshot, qname: string)
    requires NormalizeDomain(qname) !in snap.exact && Evaluate(snap, true, qname).Some?
    ensures NormalizeDomain(qname) != "" && Target(qname) != ""
  {
    hide NormalizeDomain, Target;
    ReversedIsNotEmpty(Target(qname));
  }

  lemma DecidedIsAnswer(snap: Snapshot, qname: string, apex: string)
    requires KeysNotEmpty(snap) && NormalizeDomain(qname) != "" && NormalizeDomain(qname) !in snap.exact
    requires Decides(snap, apex, Target(qname))
    ensures Evaluate(snap, true, qname) == Some(snap.wildcards[ReversedName(apex)])
  {
    hide ReversedName, NormalizeDomain, HasSuffix, Evaluate, Target;
    var name := Target(qname);
    BelowIsLonger(apex, name);
    BelowIsPrefix(apex, name);
    LoadedIsNoLonger(snap, apex, name);
    var longest := LongestApex(snap, name);
    assert ReversedName(longest) == ReversedName(apex);
    EvaluateAtLongest(snap, qname, apex);
  }

  /** Normalising a second time changes a name exactly if the first time leaves blanks at an end, or a dot. */
  lemma NormalizingTwiceDiffersIff(qname: string)
    ensures var once := NormalizeDomain(qname);
      Target(qname) == once <==> Trimmed(once) && !EndsInDot(once)
  {
    hide TrimSpace;
    var once, t := NormalizeDomain(qname), TrimSpace(NormalizeDomain(qname));
    TrimSpaceIsTrimmed(qname);
    TrimSpaceIsTrimmed(once);
    LowerIsIdempotent(TrimSpace(qname));
    assert Lower(once) == once;
    TrimSpaceIsShorter(once);
    assert |Target(qname)| <= |t|;
    if Target(qname) == once {
      assert |t| == |once|;
    }
  }

  lemma {:induction false} TrimLeftIsTail(s: string)
    ensures |TrimLeft(s)| <= |s| && s[|s| - |TrimLeft(s)|..] == TrimLeft(s)
  {
    if s != "" && IsSpace(s[0]) {
      TrimLeftIsTail(s[1..]);
    }
  }

  lemma {:induction false} TrimRightIsFront(s: string)
    ensures |TrimRight(s)| <= |s| && s[..|TrimRight(s)|] == TrimRight(s)
  {
    if s != "" && IsSpace(s[|s| - 1]) {
      TrimRightIsFront(s[..|s| - 1]);
    }
  }

  /** Trimming that takes nothing off changes nothing. */
  lemma TrimSpaceIsShorter(s: string)
    ensures |TrimSpace(s)| <= |s| && (|TrimSpace(s)| == |s| ==> TrimSpace(s) == s)
  {
    TrimLeftIsTail(s);
    TrimRightIsFront(TrimLeft(s));
  }

  /** Both kinds exist: a name with an empty last label, and a label that ends in a blank. */
  lemma NormalizingTwiceDiffers()
    ensures NormalizeDomain("a..") == "a." && Target("a..") == "a"
    ensures NormalizeDomain("a\\ .") == "a\\ " && Target("a\\ .") == "a\\"
  {
    TrimSpaceIsTrimmed("a..");
    TrimSpaceIsTrimmed("a.");
    assert Lower("a..") == "a.." && Lower("a.") == "a.";
    assert "a.."[..2] == "a." && "a."[..1] == "a";
    TrimSpaceIsTrimmed("a\\ .");
    assert Lower("a\\ .") == "a\\ ." && "a\\ ."[..3] == "a\\ ";
    assert TrimLeft("a\\ ") == "a\\ " && "a\\ "[..2] == "a\\" && TrimRight("a\\") == "a\\";
    assert Lower("a\\") == "a\\" && TrimRight("a\\ ") == "a\\";
  }

  /** Rules for all names below domain and for all names below one of its children. */
  function TwoWildcards(domain: string, child: string, e: Entry): Snapshot {
    Snapshot(map[], map[ReversedName(domain) := e, ReversedName(child + "." + domain) := e])
  }

  lemma KeyBelow(domain: string, child: string)
    requires domain != "" && Dotless(child)
    ensures ReversedName(child + "." + domain) == ReversedName(domain) + "." + child
  {
    hide ReversedName;
    ReversedOfBelow(child, domain);
    SplitOfDotless(child);
    assert Reversed([child]) == [child];
  }

  /** Misses exist. Beside the wildcard of its child a, a domain's own wildcard does not answer for ads: the longer
      key ends inside a label. */
  lemma NeighbourHidesWildcard(domain: string, e: Entry, qname: string)
    requires domain != "" && NormalizeDomain(qname) != "" && Target(qname) == "ads" + "." + domain
    ensures var snap := TwoWildcards(domain, "a", e);
      HasWildcard(snap, domain) && Below(domain, Target(qname)) && Evaluate(snap, true, qname).None?
  {
    hide ReversedName, NormalizeDomain, HasSuffix, Evaluate, Target;
    var snap, name := TwoWildcards(domain, "a", e), "ads" + "." + domain;
    KeyBelow(domain, "a");
    KeyBelow(domain, "ads");
    BelowConcat("ads", domain);
    assert ReversedName(name) == ReversedName("a" + "." + domain) + "ds";
    ReversedIsNotEmpty(domain);
    StrayHides(snap, qname, domain, "a" + "." + domain);
  }

  /** And the wildcard of a name hides the one of its parent from the name itself. */
  lemma OwnWildcardHidesParent(domain: string, child: string, e: Entry, qname: string)
    requires domain != "" && Dotless(child) && NormalizeDomain(qname) != "" && Target(qname) == child + "." + domain
    ensures var snap := TwoWildcards(domain, child, e);
      HasWildcard(snap, domain) && Below(domain, Target(qname)) && Evaluate(snap, true, qname).None?
  {
    hide ReversedName, NormalizeDomain, HasSuffix, Evaluate, Target;
    var snap := TwoWildcards(domain, child, e);
    KeyBelow(domain, child);
    ReversedIsNotEmpty(domain);
    BelowConcat(child, domain);
    StrayHides(snap, qname, domain, child + "." + domain);
  }

  lemma BelowConcat(child: string, domain: string)
    ensures Below(domain, child + "." + domain)
  {
    var name := child + "." + domain;
    assert name[|child|..] == "." + domain;
  }

  lemma StrayHides(snap: Snapshot, qname: string, domain: string, longer: string)
    requires KeysNotEmpty(snap) && NormalizeDomain(qname) != "" && NormalizeDomain(qname) !in snap.exact
    requires HasWildcard(snap, domain) && Below(domain, Target(qname)) && HasWildcard(snap, longer)
    requires snap.wildcards.Keys == {ReversedName(domain), ReversedName(longer)}
    requires ReversedName(longer) <= ReversedName(Target(qname)) && |ReversedName(domain)| < |ReversedName(longer)|
    requires var n := |ReversedName(longer)|;
      n == |ReversedName(Target(qname))| || ReversedName(Target(qname))[n] != '.'
    ensures Evaluate(snap, true, qname).None?
  {
    hide ReversedName, NormalizeDomain, HasSuffix, Evaluate, Target;
    var name := Target(qname);
    BelowIsLonger(domain, name);
    BelowIsStrictPrefix(longer, name);
    forall other | HasWildcard(snap, other) && Below(other, name)
      ensures |ReversedName(other)| < |ReversedName(longer)|
    {
      BelowIsStrictPrefix(other, name);
      assert ReversedName(other) != ReversedName(longer);
    }
    assert Hides(snap, longer, name);
    MissedIffHidden(snap, qname, domain);
  }

  lemma LongestHides(snap: Snapshot, apex: string, name: string)
    requires HasWildcard(snap, apex) && ReversedName(apex) <= ReversedName(name) && name != "" && !Below(apex, name)
    requires |ReversedName(apex)| == LongestPrefix(snap.wildcards.Keys, ReversedName(name), |ReversedName(name)|)
    ensures Hides(snap, apex, name)
  {
    hide ReversedName, HasSuffix;
    forall other | HasWildcard(snap, other) && Below(other, name)
      ensures |ReversedName(other)| < |ReversedName(apex)|
    {
      BelowIsPrefix(other, name);
      LoadedIsNoLonger(snap, other, name);
      if |ReversedName(other)| == |ReversedName(apex)| {
        assert ReversedName(other) == ReversedName(apex);
        ReversalIsInvolution(other);
        ReversalIsInvolution(apex);
      }
    }
  }

  // ---------------------------------------------------------------- rules

  function UpperChar(c: char): char {
    if 'a' <= c <= 'z' then (c as int - 32) as char else c
  }

  function Upper(s: string): string {
    seq(|s|, i requires 0 <= i < |s| => UpperChar(s[i]))
  }

  function ParseAction(raw: string): Option<Action> {
    var u := Upper(TrimSpace(raw));
    if u == "NXDOMAIN" || u == "" then Some(NxDomain)
    else if u == "NODATA" then Some(NoDataAction)
    else if u == "DROP" then Some(Drop)
    else if u == "CNAME" then Some(Cname)
    else if u == "A" then Some(A4)
    else if u == "AAAA" then Some(A6)
    else None
  }

  function NormalizeTarget(action: Action, raw: string, parseIp: string -> ParsedIp): Option<string> {
    var target := TrimSpace(raw);
    match action
    case Cname => if NormalizeDomain(target) == "" then None else Some(NormalizeDomain(target) + ".")
    case A4 => if target != "" && parseIp(target).Ip4? then Some(parseIp(target).text) else None
    case A6 => if target != "" && parseIp(target).Ip6? then Some(parseIp(target).text) else None
    case _ => if target != "" then None else Some("")
  }

  /** A rule: its entry and where it goes; the reversed apex of a wildcard, or nothing for an exact rule. */
  function ParsePattern(p: Policy, parseIp: string -> ParsedIp): Option<(Entry, string)> {
    var pattern := TrimSpace(p.pattern);
    if pattern == "" then None
    else
      match ParseAction(p.action)
      case None => None
      case Some(action) =>
        match NormalizeTarget(action, p.target, parseIp)
        case None => None
        case Some(target) =>
          if "*." <= pattern then
            var reversed := ReversedName(Target(pattern[2..]));
            if reversed == "" then None else Some((Entry(action, target), reversed))
          else if '*' in pattern then None
          else Some((Entry(action, target), ""))
  }

  function WithPolicy(snap: Snapshot, p: Policy, parseIp: string -> ParsedIp): Option<Snapshot> {
    match ParsePattern(p, parseIp)
    case None => None
    case Some((entry, "")) => Some(snap.(exact := snap.exact[NormalizeDomain(p.pattern) := entry]))
    case Some((entry, reversed)) => Some(snap.(wildcards := snap.wildcards[reversed := entry]))
  }

  /** The names of the actions; no name at all means a name error. */
  const ACTIONS := map["" := NxDomain, "NXDOMAIN" := NxDomain, "NODATA" := NoDataAction, "DROP" := Drop,
                       "CNAME" := Cname, "A" := A4, "AAAA" := A6]

  /** Actions are read without regard to case and to blanks around them. */
  lemma ActionNames(raw: string)
    ensures var u := Upper(TrimSpace(raw));
      ParseAction(raw) == if u in ACTIONS then Some(ACTIONS[u]) else None
    ensures ParseAction("cname") == Some(Cname)
  {
    hide TrimSpace;
    TrimSpaceIsTrimmed("cname");
    assert Upper("cname") == "CNAME";
  }

  /** A rule's target suits its action: a name for an alias, an address of the family for an address, else none. */
  predicate TargetSuits(action: Action, raw: string, parseIp: string -> ParsedIp) {
    var target := TrimSpace(raw);
    match action
    case Cname => NormalizeDomain(target) != ""
    case A4 => target != "" && parseIp(target).Ip4?
    case A6 => target != "" && parseIp(target).Ip6?
    case _ => target == ""
  }

  /** Exactly which rules are taken: a known action, a target that suits it, and a pattern that is not empty and has no
      star but in a leading label of its own, before a name. */
  lemma RuleIsTakenIff(p: Policy, parseIp: string -> ParsedIp)
    ensures var pattern, action := TrimSpace(p.pattern), ParseAction(p.action);
      ParsePattern(p, parseIp).Some?
      <==> pattern != "" && action.Some? && TargetSuits(action.value, p.target, parseIp)
           && if "*." <= pattern then Target(pattern[2..]) != "" else '*' !in pattern
  {
    hide TrimSpace, NormalizeDomain, ParseAction, ReversedName, Target;
    var pattern := TrimSpace(p.pattern);
    if "*." <= pattern {
      EmptyReversed(Target(pattern[2..]));
    }
  }

  lemma EmptyReversed(name: string)
    ensures ReversedName(name) == "" <==> name == ""
  {
    hide ReversedName;
    if name == "" {
      ReversedOfNothing();
    } else {
      ReversedIsNotEmpty(name);
    }
  }

  lemma ReversedOfNothing()
    ensures ReversedName("") == ""
  {
  }

  /** What a rule that is taken does: an exact one answers for its name, whatever else is loaded, and a wildcard is
      loaded for its apex; all other rules stay. */
  lemma AddedRuleIsLoaded(snap: Snapshot, p: Policy, parseIp: string -> ParsedIp)
    requires ParsePattern(p, parseIp).Some?
    ensures WithPolicy(snap, p, parseIp).Some?
    ensures var (next, pattern) := (WithPolicy(snap, p, parseIp).value, TrimSpace(p.pattern));
      var e := ParsePattern(p, parseIp).value.0;
      && Some(e.action) == ParseAction(p.action)
      && (if "*." <= pattern then
            var apex := Target(pattern[2..]);
            && HasWildcard(next, apex) && next.wildcards[ReversedName(apex)] == e && next.exact == snap.exact
            && forall k :: k != ReversedName(apex) ==>
                 (k in next.wildcards <==> k in snap.wildcards)
                 && (k in snap.wildcards ==> next.wildcards[k] == snap.wildcards[k])
          else
            var name := NormalizeDomain(p.pattern);
            && (name != "" ==> Evaluate(next, true, p.pattern) == Some(e)) && next.wildcards == snap.wildcards
            && forall k :: k != name ==>
                 (k in next.exact <==> k in snap.exact) && (k in snap.exact ==> next.exact[k] == snap.exact[k]))
  {
    hide TrimSpace, NormalizeDomain, ParseAction, ReversedName, Target;
    RuleIsTakenIff(p, parseIp);
    var pattern := TrimSpace(p.pattern);
    if "*." <= pattern {
      EmptyReversed(Target(pattern[2..]));
    }
  }

  /** What the entry of a rule answers with: for an alias the name that was typed, in lower case and with a final dot;
      for an address its printed form; else nothing. */
  lemma TargetIsKept(p: Policy, parseIp: string -> ParsedIp)
    requires ParsePattern(p, parseIp).Some?
    ensures var (e, typed) := (ParsePattern(p, parseIp).value.0, TrimSpace(p.target));
      match e.action
      case Cname => SameButCase(WithFinalDot(typed), e.target) && Lower(e.target) == e.target
      case A4 => parseIp(typed).Ip4? && e.target == parseIp(typed).text
      case A6 => parseIp(typed).Ip6? && e.target == parseIp(typed).text
      case _ => typed == "" == e.target
  {
    hide TrimSpace, ParseAction, ReversedName, Target, SameButCase;
    var (e, typed) := (ParsePattern(p, parseIp).value.0, TrimSpace(p.target));
    if e.action == Cname {
      TrimSpaceIsTrimmed(p.target);
      TrimSpaceIsTrimmed(typed);
      NamedTarget(typed);
    }
  }

  lemma NamedTarget(raw: string)
    requires TrimSpace(raw) == raw
    ensures var target := NormalizeDomain(raw) + ".";
      SameButCase(WithFinalDot(raw), target) && Lower(target) == target
  {
    hide TrimSpace, SameButCase;
    var l := Lower(raw);
    assert raw != "" ==> (l[|l| - 1] == '.' <==> raw[|raw| - 1] == '.');
    assert NormalizeDomain(raw) + "." == Lower(WithFinalDot(raw));
    LowerIsIdempotent(WithFinalDot(raw));
    LowerAgreesIff(WithFinalDot(raw), NormalizeDomain(raw) + ".");
  }

  const Empty := Snapshot(map[], map[])

  function WithPolicies(snap: Snapshot, ps: seq<Policy>, parseIp: string -> ParsedIp): Option<Snapshot> {
    if |ps| == 0 then Some(snap)
    else
      match WithPolicies(snap, ps[..|ps| - 1], parseIp)
      case None => None
      case Some(before) => WithPolicy(before, ps[|ps| - 1], parseIp)
  }

  lemma {:induction false} BadRuleIsFinal(ps: seq<Policy>, i: nat, parseIp: string -> ParsedIp)
    requires i < |ps| && ParsePattern(ps[i], parseIp).None?
    ensures WithPolicies(Empty, ps, parseIp).None?
  {
    hide ParsePattern;
    if i < |ps| - 1 {
      BadRuleIsFinal(ps[..|ps| - 1], i, parseIp);
    }
  }

  lemma RuleKeepsKeys(snap: Snapshot, p: Policy, parseIp: string -> ParsedIp)
    requires KeysNotEmpty(snap) && WithPolicy(snap, p, parseIp).Some?
    ensures KeysNotEmpty(WithPolicy(snap, p, parseIp).value)
  {
    hide ParsePattern;
  }

  lemma {:induction false} RulesKeepKeys(snap: Snapshot, ps: seq<Policy>, parseIp: string -> ParsedIp)
    requires KeysNotEmpty(snap) && WithPolicies(snap, ps, parseIp).Some?
    ensures KeysNotEmpty(WithPolicies(snap, ps, parseIp).value)
  {
    hide WithPolicy, KeysNotEmpty;
    if |ps| > 0 {
      RulesKeepKeys(snap, ps[..|ps| - 1], parseIp);
      RuleKeepsKeys(WithPolicies(snap, ps[..|ps| - 1], parseIp).value, ps[|ps| - 1], parseIp);
    }
  }

  // ---------------------------------------------------------------- concurrent loading

  /** A thread that adds a rule: about to load the snapshot, or about to swap in the extended copy of the one
      it loaded. Snapshots are numbered in the order they are made; none is ever written again. */
  datatype Adder = Loading(policy: Policy) | Swapping(policy: Policy, loaded: nat)

  /** What has taken effect, in order. */
  datatype Effect = Added(policy: Policy) | Replaced(policies: seq<Policy>)

  datatype State = State(made: seq<Snapshot>, current: nat, adders: map<nat, Adder>, effects: seq<Effect>)

  datatype Step = Begin(tid: nat, policy: Policy) | Advance(tid: nat) | Replace(policies: seq<Policy>)

  const Initial := State([Empty], 0, map[], [])

  predicate Enabled(s: State, step: Step, parseIp: string -> ParsedIp) {
    match step
    case Begin(tid, policy) => tid !in s.adders && ParsePattern(policy, parseIp).Some?
    case Advance(tid) => tid in s.adders
    case Replace(policies) => WithPolicies(Empty, policies, parseIp).Some?
  }

  function Apply(s: State, step: Step, parseIp: string -> ParsedIp): State
    requires Enabled(s, step, parseIp) && s.current < |s.made| && RulesAreGood(s, parseIp)
  {
    match step
    case Begin(tid, policy) => s.(adders := s.adders[tid := Loading(policy)])
    case Replace(policies) =>
      State(s.made + [WithPolicies(Empty, policies, parseIp).value], |s.made|, s.adders,
            s.effects + [Replaced(policies)])
    case Advance(tid) =>
      match s.adders[tid]
      case Loading(policy) => s.(adders := s.adders[tid := Swapping(policy, s.current)])
      case Swapping(policy, loaded) =>
        if loaded == s.current then
          State(s.made + [WithPolicy(s.made[loaded], policy, parseIp).value], |s.made|, s.adders - {tid},
                s.effects + [Added(policy)])
        else s.(adders := s.adders[tid := Loading(policy)])
  }

  predicate RulesAreGood(s: State, parseIp: string -> ParsedIp) {
    forall t <- s.adders :: ParsePattern(s.adders[t].policy, parseIp).Some?
  }

  /** The snapshot after the effects, one after the other. */
  function Replay(effects: seq<Effect>, parseIp: string -> ParsedIp): Option<Snapshot> {
    if |effects| == 0 then Some(Empty)
    else
      match effects[|effects| - 1]
      case Replaced(policies) => WithPolicies(Empty, policies, parseIp)
      case Added(policy) =>
        match Replay(effects[..|effects| - 1], parseIp)
        case None => None
        case Some(before) => WithPolicy(before, policy, parseIp)
  }

  predicate Inv(s: State, parseIp: string -> ParsedIp) {
    && s.current < |s.made| && RulesAreGood(s, parseIp)
    && Replay(s.effects, parseIp) == Some(s.made[s.current]) && KeysNotEmpty(s.made[s.current])
  }

  lemma StepLosesNothing(s: State, step: Step, parseIp: string -> ParsedIp)
    requires Inv(s, parseIp) && Enabled(s, step, parseIp)
    ensures Inv(Apply(s, step, parseIp), parseIp)
  {
    hide ParsePattern, WithPolicies, WithPolicy, KeysNotEmpty;
    var t := Apply(s, step, parseIp);
    assert s.effects < t.effects ==> t.effects[..|t.effects| - 1] == s.effects;
    if step.Replace? {
      EmptyHasNoKeys();
      RulesKeepKeys(Empty, step.policies, parseIp);
    } else if step.Advance? && s.adders[step.tid].Swapping? {
      GoodRuleApplies(s.made[s.current], s.adders[step.tid].policy, parseIp);
      RuleKeepsKeys(s.made[s.current], s.adders[step.tid].policy, parseIp);
    }
  }

  lemma EmptyHasNoKeys()
    ensures KeysNotEmpty(Empty)
  {
  }

  lemma GoodRuleApplies(snap: Snapshot, p: Policy, parseIp: string -> ParsedIp)
    requires ParsePattern(p, parseIp).Some?
    ensures WithPolicy(snap, p, parseIp).Some?
  {
  }

  /** The states of a run; none once a step was not enabled. */
  function Run(steps: seq<Step>, parseIp: string -> ParsedIp): (r: Option<State>)
    ensures r.Some? ==> Inv(r.value, parseIp)
    decreases |steps|
  {
    if |steps| == 0 then EmptyHasNoKeys(); Some(Initial)
    else
      match Run(steps[..|steps| - 1], parseIp)
      case None => None
      case Some(before) =>
        var last := steps[|steps| - 1];
        if !Enabled(before, last, parseIp) then None
        else StepLosesNothing(before, last, parseIp); Some(Apply(before, last, parseIp))
  }

  /** No rule is lost, however adding threads and replacements interleave: the published snapshot is the replay
      of all effects so far, although each thread extends a copy of the one it loaded earlier. */
  lemma NoRuleIsLost(steps: seq<Step>, parseIp: string -> ParsedIp)
    requires Run(steps, parseIp).Some?
    ensures var s := Run(steps, parseIp).value; Replay(s.effects, parseIp) == Some(s.made[s.current])
  {
    hide Enabled, Apply, Replay, RulesAreGood, Run;
  }

  // ---------------------------------------------------------------- tables on the heap

  /** A table of rules that is filled in place: the exact ones, or the wildcards by reversed apex. */
  class RuleTable {
    var rules: map<string, Entry>

    constructor ()
      ensures rules == map[]
    {
      rules := map[];
    }

    method Insert(key: string, entry: Entry)
      modifies this
      ensures rules == old(rules)[key := entry]
    {
      rules := rules[key := entry];
    }
  }

  class PolicySnapshot {
    const exact: RuleTable
    const wildcards: RuleTable

    constructor (exact: RuleTable, wildcards: RuleTable)
      ensures this.exact == exact && this.wildcards == wildcards
    {
      this.exact, this.wildcards := exact, wildcards;
    }

    function Value(): Snapshot
      reads exact, wildcards
    {
      Snapshot(exact.rules, wildcards.rules)
    }

    /** Everything a snapshot consists of. */
    function Parts(): set<object>
    {
      {this, exact, wildcards}
    }

    predicate Apart() {
      exact != wildcards
    }
  }

  /** Copies a table rule by rule. */
  method CloneTable(table: RuleTable) returns (copied: RuleTable)
    ensures fresh(copied) && copied.rules == table.rules
  {
    copied := new RuleTable();
    var todo := table.rules.Keys;
    while todo != {}
      invariant fresh(copied) && todo <= table.rules.Keys
      invariant copied.rules == map k | k in table.rules && k !in todo :: table.rules[k]
    {
      var key :| key in todo;
      todo := todo - {key};
      copied.Insert(key, table.rules[key]);
    }
  }

  method CloneSnapshot(current: PolicySnapshot) returns (next: PolicySnapshot)
    ensures fresh(next.Parts()) && next.Apart() && next.Value() == current.Value()
  {
    var exact := CloneTable(current.exact);
    var wildcards := CloneTable(current.wildcards);
    next := new PolicySnapshot(exact, wildcards);
  }

  class PolicyEngine {
    var enabled: bool
    var snapshot: PolicySnapshot

    constructor ()
      ensures enabled && fresh(snapshot.Parts()) && snapshot.Apart() && snapshot.Value() == Empty
    {
      var exact := new RuleTable();
      var wildcards := new RuleTable();
      var first := new PolicySnapshot(exact, wildcards);
      enabled, snapshot := true, first;
    }

    /** Fills a copy of the tables and publishes it, when no other thread interferes. Only the pointer of the
        engine and new tables are written, so a reader keeps the rules it loaded. */
    method AddPolicy(p: Policy, parseIp: string -> ParsedIp) returns (ok: bool)
      modifies this
      ensures ok <==> ParsePattern(p, parseIp).Some?
      ensures !ok ==> unchanged(this)
      ensures ok ==> fresh(snapshot.Parts()) && snapshot.Apart() && enabled == old(enabled)
      ensures ok ==> WithPolicy(old(snapshot.Value()), p, parseIp) == Some(snapshot.Value())
      ensures old(snapshot).Value() == old(snapshot.Value())
    {
      hide ParsePattern, NormalizeDomain;
      match ParsePattern(p, parseIp) {
        case None => return false;
        case Some((entry, reversed)) =>
          var next := CloneSnapshot(snapshot);
          if reversed == "" {
            next.exact.Insert(NormalizeDomain(p.pattern), entry);
          } else {
            next.wildcards.Insert(reversed, entry);
          }
          snapshot := next;
          return true;
      }
    }

    /** Publishes the tables of all rules at once, or none of them. */
    method ReplacePolicies(ps: seq<Policy>, parseIp: string -> ParsedIp) returns (ok: bool)
      modifies this
      ensures ok <==> WithPolicies(Empty, ps, parseIp).Some?
      ensures !ok ==> unchanged(this)
      ensures ok ==> fresh(snapshot.Parts()) && snapshot.Apart() && enabled == old(enabled)
      ensures ok ==> WithPolicies(Empty, ps, parseIp) == Some(snapshot.Value())
      ensures old(snapshot).Value() == old(snapshot.Value())
    {
      var built, next := BuildTables(ps, parseIp);
      if built {
        snapshot := next;
      }
      return built;
    }
  }

  /** Fills new tables rule by rule, or stops at the first bad one. */
  method BuildTables(ps: seq<Policy>, parseIp: string -> ParsedIp) returns (ok: bool, next: PolicySnapshot)
    ensures fresh(next.Parts()) && next.Apart()
    ensures ok <==> WithPolicies(Empty, ps, parseIp).Some?
    ensures ok ==> WithPolicies(Empty, ps, parseIp) == Some(next.Value())
  {
    hide ParsePattern, NormalizeDomain;
    var exact := new RuleTable();
    var wildcards := new RuleTable();
    next := new PolicySnapshot(exact, wildcards);
    for i := 0 to |ps|
      invariant fresh(next.Parts()) && next.Apart() && WithPolicies(Empty, ps[..i], parseIp) == Some(next.Value())
    {
      assert ps[..i + 1][..i] == ps[..i];
      match ParsePattern(ps[i], parseIp) {
        case None =>
          BadRuleIsFinal(ps, i, parseIp);
          return false, next;
        case Some((entry, reversed)) =>
          if reversed == "" {
            next.exact.Insert(NormalizeDomain(ps[i].pattern), entry);
          } else {
            next.wildcards.Insert(reversed, entry);
          }
      }
    }
    assert ps[..|ps|] == ps;
    return true, next;
  }
}
