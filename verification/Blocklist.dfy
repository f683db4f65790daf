/** The blocklist firewall: listed domains are kept reversed in a prefix tree and a query is blocked when
    the longest stored prefix of the reversed name ends at a label boundary. */
module Blocklist {
  import opened Names
  import opened DomainMatch

  /** The reversed forms of the listed domains, blank entries aside. */
  ghost predicate IsTree(tree: set<string>, listed: seq<string>) {
    forall k :: k in tree <==> exists i :: 0 <= i < |listed| && IsKeyOf(k, listed[i])
  }

  predicate IsKeyOf(key: string, domain: string) {
    NormalizeDomain(domain) != "" && key == ReversedName(NormalizeDomain(domain))
  }

  class Engine {
    var tree: set<string>

    constructor ()
      ensures tree == {}
    {
      tree := {};
    }

    method SwapTree(next: set<string>)
      modifies this
      ensures tree == next
    {
      tree := next;
    }

    /** Whether the query is answered by the block action. */
    method Blocked(name: string) returns (blocked: bool)
      ensures blocked == Blocks(tree, NormalizeDomain(name))
    {
      var reversed := ReverseDomain(name);
      ReversedIsNotEmpty(NormalizeDomain(name));
      if reversed == "" {
        return false;
      }
      var len := LongestPrefix(tree, reversed, |reversed|);
      if len <= 0 {
        return false;
      }
      return len == |reversed| || reversed[len] == '.';
    }
  }

  /** Loading replaces the tree as a whole by the one of the new list. */
  method LoadList(engine: Engine, listed: seq<string>)
    modifies engine
    ensures IsTree(engine.tree, listed)
  {
    var tree := BuildTree(listed);
    engine.SwapTree(tree);
  }

  method BuildTree(listed: seq<string>) returns (tree: set<string>)
    ensures IsTree(tree, listed)
  {
    hide NormalizeDomain, ReversedName;
    tree := {};
    for i := 0 to |listed|
      invariant forall k :: k in tree <==> exists j :: 0 <= j < i && IsKeyOf(k, listed[j])
    {
      var reversed := ReverseDomain(listed[i]);
      ReversedIsNotEmpty(NormalizeDomain(listed[i]));
      if reversed != "" {
        tree := tree + {reversed};
      }
    }
  }

  predicate Blocks(tree: set<string>, name: string) {
    var text := ReversedName(name);
    var len := LongestPrefix(tree, text, |text|);
    name != "" && len > 0 && AtBoundary(text[..len], text)
  }

  // ---------------------------------------------------------------- exactness

  /** A listed domain that is the name or a parent of it. */
  predicate ListedCover(listed: seq<string>, i: nat, name: string) {
    i < |listed| && NormalizeDomain(listed[i]) != "" && Covers(NormalizeDomain(listed[i]), name)
  }

  /** A listed domain whose reversed form is a prefix of the reversed name, but not at a label boundary. */
  predicate ListedStray(listed: seq<string>, i: nat, name: string) {
    && i < |listed| && NormalizeDomain(listed[i]) != ""
    && ReversedName(NormalizeDomain(listed[i])) <= ReversedName(name)
    && !AtBoundary(ReversedName(NormalizeDomain(listed[i])), ReversedName(name))
  }

  /** The stray domain hides all covering ones: its reversed form is longer than theirs. */
  predicate Hides(listed: seq<string>, i: nat, name: string) {
    && ListedStray(listed, i, name)
    && forall j :: 0 <= j < |listed| && ListedCover(listed, j, name) ==>
         |ReversedName(NormalizeDomain(listed[j]))| < |ReversedName(NormalizeDomain(listed[i]))|
  }

  /** The listed domain behind the longest prefix found. */
  lemma LongestIsListed(tree: set<string>, listed: seq<string>, name: string) returns (i: nat)
    requires IsTree(tree, listed) && name != "" && LongestPrefix(tree, ReversedName(name), |ReversedName(name)|) >= 0
    ensures var len := LongestPrefix(tree, ReversedName(name), |ReversedName(name)|);
      i < |listed| && IsKeyOf(ReversedName(name)[..len], listed[i]) && len > 0
  {
    hide ReversedName, NormalizeDomain;
    var len := LongestPrefix(tree, ReversedName(name), |ReversedName(name)|);
    var j :| 0 <= j < |listed| && IsKeyOf(ReversedName(name)[..len], listed[j]);
    i := j;
    ReversedIsNotEmpty(NormalizeDomain(listed[i]));
  }

  /** A listed domain whose reversed form is a prefix is no longer than the longest prefix found. */
  lemma ListedIsNoLonger(tree: set<string>, listed: seq<string>, name: string, i: nat)
    requires IsTree(tree, listed) && i < |listed| && NormalizeDomain(listed[i]) != ""
    requires ReversedName(NormalizeDomain(listed[i])) <= ReversedName(name)
    ensures |ReversedName(NormalizeDomain(listed[i]))| <= LongestPrefix(tree, ReversedName(name), |ReversedName(name)|)
  {
    hide ReversedName, NormalizeDomain;
    var key, text := ReversedName(NormalizeDomain(listed[i])), ReversedName(name);
    assert IsKeyOf(key, listed[i]);
    assert text[..|key|] == key;
  }

  lemma LongestCovers(tree: set<string>, listed: seq<string>, name: string) returns (i: nat)
    requires IsTree(tree, listed) && Blocks(tree, name)
    ensures ListedCover(listed, i, name)
    ensures |ReversedName(NormalizeDomain(listed[i]))| == LongestPrefix(tree, ReversedName(name), |ReversedName(name)|)
  {
    hide ReversedName, NormalizeDomain, Covers, IsTree;
    i := LongestIsListed(tree, listed, name);
    CoverIsBoundaryPrefix(NormalizeDomain(listed[i]), name);
  }

  /** Blocking is sound: a blocked name is listed or lies below a listed domain. */
  lemma BlockedIsListed(tree: set<string>, listed: seq<string>, name: string)
    requires IsTree(tree, listed) && Blocks(tree, name)
    ensures exists i :: ListedCover(listed, i, name)
  {
    hide IsTree, Blocks, ListedCover;
    var i := LongestCovers(tree, listed, name);
  }

  /** And exact: a covered name is missed if and only if some listed domain is a stray prefix longer than
      every domain that covers the name. */
  lemma MissedIffHidden(tree: set<string>, listed: seq<string>, name: string)
    requires IsTree(tree, listed) && name != "" && exists i :: ListedCover(listed, i, name)
    ensures !Blocks(tree, name) <==> exists i :: Hides(listed, i, name)
  {
    hide ReversedName, NormalizeDomain, Covers, AtBoundary, IsTree;
    if !Blocks(tree, name) {
      MissedIsHidden(tree, listed, name);
    }
    if i: nat :| Hides(listed, i, name) {
      HiddenIsMissed(tree, listed, name, i);
    }
  }

  lemma MissedIsHidden(tree: set<string>, listed: seq<string>, name: string)
    requires IsTree(tree, listed) && name != "" && (exists i :: ListedCover(listed, i, name)) && !Blocks(tree, name)
    ensures exists i :: Hides(listed, i, name)
  {
    hide ReversedName, NormalizeDomain, Covers, IsTree;
    forall j | 0 <= j < |listed| && ListedCover(listed, j, name)
      ensures AtBoundary(ReversedName(NormalizeDomain(listed[j])), ReversedName(name))
      ensures |ReversedName(NormalizeDomain(listed[j]))|
           <= LongestPrefix(tree, ReversedName(name), |ReversedName(name)|)
    {
      CoverIsBoundaryPrefix(NormalizeDomain(listed[j]), name);
      ListedIsNoLonger(tree, listed, name, j);
    }
    var c: nat :| ListedCover(listed, c, name);
    var i := LongestIsListed(tree, listed, name);
    assert Hides(listed, i, name);
  }

  lemma HiddenIsMissed(tree: set<string>, listed: seq<string>, name: string, i: nat)
    requires IsTree(tree, listed) && name != "" && Hides(listed, i, name)
    ensures !Blocks(tree, name)
  {
    hide ReversedName, NormalizeDomain, Covers, IsTree;
    ListedIsNoLonger(tree, listed, name, i);
    if Blocks(tree, name) {
      var k := LongestCovers(tree, listed, name);
    }
  }

  /** Such a miss exists for every listed domain: beside its child a, the child ads is not blocked. */
  lemma NeighbourHidesParent(domain: string)
    requires domain != "" && NormalizeDomain(domain) == domain && NormalizeDomain("a." + domain) == "a." + domain
    ensures Covers(domain, "ads." + domain) && Hides([domain, "a." + domain], 1, "ads." + domain)
  {
    hide SplitDots, JoinDots, ReversedName, NormalizeDomain;
    var name := "ads." + domain;
    assert name[3..] == "." + domain;
    ReversedOfBelow("a", domain);
    ReversedOfBelow("ads", domain);
    assert "a." + domain == "a" + "." + domain && name == "ads" + "." + domain;
    SplitOfDotless("a");
    SplitOfDotless("ads");
    assert Reversed(["a"]) == ["a"] && Reversed(["ads"]) == ["ads"];
    assert ReversedLabels("a") == "a" && ReversedLabels("ads") == "ads" by {
      JoinOfOne("a");
      JoinOfOne("ads");
    }
    var long, text := ReversedName("a." + domain), ReversedName(name);
    assert text == long + "ds";
    if Covers("a." + domain, name) {
      CoverIsBoundaryPrefix("a." + domain, name);
    }
  }

  lemma JoinOfOne(s: string)
    ensures JoinDots([s]) == s
  {
  }
}
