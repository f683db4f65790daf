/** Answering from the authoritative data of the two views: single look-ups, alias chains, the minimal
    answer to ANY, and which questions are handed to the forwarder. A view is the pair of zone contents
    that one question sees. */
module Answers {
  import opened Names
  import opened Records
  import opened ZoneData
  import opened ZoneTree
  import opened Store

  datatype Views = Views(pub: Zone, internal: Zone)

  datatype Lookup = Found(records: seq<RR>) | NoData | NotFound

  // ---------------------------------------------------------------- look-ups

  function LookIn(z: Zone, name: string, qtype: Word16): Lookup {
    var n := NormalizeName(name);
    if n !in z then NotFound
    else if RRset(z, n, qtype) == [] then NoData
    else Found(RRset(z, n, qtype))
  }

  method LookupInTree(tree: Tree, name: string, qtype: Word16) returns (found: Lookup)
    requires tree.Valid()
    ensures found == LookIn(tree.Contents(), name, qtype)
    ensures var n := NormalizeName(name);
      if n !in tree.nodes then found == NotFound
      else if qtype in tree.nodes[n].sets && tree.nodes[n].sets[qtype] != [] then
        found == Found(tree.nodes[n].sets[qtype])
      else found == NoData
  {
    hide Sound;
    var n := NormalizeName(name);
    if n !in tree.nodes {
      return NotFound;
    }
    var byType := tree.nodes[n].sets;
    if qtype !in byType || |byType[qtype]| == 0 {
      return NoData;
    }
    return Found(byType[qtype]);
  }

  /** The internal view falls back to the public data only for names it does not have at all. */
  function Look(v: Views, name: string, qtype: Word16, view: View): Lookup {
    var inner := LookIn(v.internal, name, qtype);
    if view == InternalView && inner != NotFound then inner else LookIn(v.pub, name, qtype)
  }

  /** The tree that shows a name to a client: for internal clients the internal one if it has the name at all. */
  function Visible(v: Views, n: string, view: View): Zone {
    if view == InternalView && n in v.internal then v.internal else v.pub
  }

  /** The visible tree holds these records, and there are some, at the name and type. */
  predicate Shows(v: Views, n: string, qtype: Word16, view: View, records: seq<RR>) {
    var z := Visible(v, n, view);
    records != [] && n in z && qtype in z[n] && z[n][qtype] == records
  }

  /** It holds none. */
  predicate ShowsNothing(v: Views, n: string, qtype: Word16, view: View) {
    var z := Visible(v, n, view);
    n in z && qtype in z[n] ==> z[n][qtype] == []
  }

  /** A look-up gives all that the visible tree holds. */
  lemma LookShows(v: Views, name: string, qtype: Word16, view: View)
    ensures var (n, found) := (NormalizeName(name), Look(v, name, qtype, view));
      && (forall records :: found == Found(records) <==> Shows(v, n, qtype, view, records))
      && (!found.Found? <==> ShowsNothing(v, n, qtype, view))
      && (found == NotFound <==> n !in Visible(v, n, view))
  {
    hide NormalizeName;
  }

  predicate NameExists(v: Views, name: string, view: View) {
    (view == InternalView && NormalizeName(name) in v.internal) || NormalizeName(name) in v.pub
  }

  // ---------------------------------------------------------------- alias chains

  /** What a name is for a question of the given type. */
  datatype Spot =
    | Answered(records: seq<RR>)
    | Absent
    | Bare
    | Broken
    | Alias(record: RR, next: string)

  function SpotAt(v: Views, name: string, qtype: Word16, view: View): Spot {
    match Look(v, name, qtype, view)
    case Found(records) => Answered(records)
    case NotFound => Absent
    case NoData =>
      match Look(v, name, TYPE_CNAME, view)
      case Found(cnames) =>
        if |cnames| > 0 && cnames[0].data.CNAME? then Alias(cnames[0], NormalizeName(cnames[0].data.target)) else Broken
      case _ => Bare
  }

  /** The names that were left through an alias, with the alias records taken, and how the walk ended. */
  datatype Walk = Walk(names: seq<string>, aliases: seq<RR>, end: string)

  /** A walk through distinct aliases from the start. */
  predicate IsWalk(v: Views, start: string, qtype: Word16, view: View, w: Walk) {
    && |w.names| == |w.aliases| <= MAX_ALIASES
    && (if w.names == [] then w.end == NormalizeName(start) else w.names[0] == NormalizeName(start))
    && (forall i :: 0 <= i < |w.names| ==>
          SpotAt(v, w.names[i], qtype, view) == Alias(w.aliases[i], NameAfter(w, i)))
    && (forall i, j :: 0 <= i < j < |w.names| ==> w.names[i] != w.names[j])
  }

  function NameAfter(w: Walk, i: nat): string
    requires i < |w.names|
  {
    if i + 1 < |w.names| then w.names[i + 1] else w.end
  }

  datatype Reply = Reply(records: seq<RR>, rcode: nat)

  /** The reply for a walk that cannot go on. */
  predicate Closes(v: Views, qtype: Word16, view: View, w: Walk, r: Reply) {
    if |w.names| == MAX_ALIASES || w.end in w.names then r == Reply(w.aliases, RCODE_SERVER_FAILURE)
    else
      match SpotAt(v, w.end, qtype, view)
      case Answered(records) => r == Reply(w.aliases + records, RCODE_SUCCESS)
      case Absent => r == if w.aliases == [] then Reply([], RCODE_NAME_ERROR) else Reply(w.aliases, RCODE_SUCCESS)
      case Bare => r == Reply(w.aliases, RCODE_SUCCESS)
      case Broken => r == Reply(w.aliases, RCODE_SERVER_FAILURE)
      case Alias(_, _) => false
  }

  function OneMore(w: Walk, record: RR, next: string): Walk {
    Walk(w.names + [w.end], w.aliases + [record], next)
  }

  lemma WalkGrows(v: Views, start: string, qtype: Word16, view: View, w: Walk)
    requires IsWalk(v, start, qtype, view, w) && |w.names| < MAX_ALIASES && w.end !in w.names
    requires SpotAt(v, w.end, qtype, view).Alias?
    ensures var s := SpotAt(v, w.end, qtype, view); IsWalk(v, start, qtype, view, OneMore(w, s.record, s.next))
  {
    hide SpotAt, NormalizeName;
    var s := SpotAt(v, w.end, qtype, view);
    var more := OneMore(w, s.record, s.next);
    forall i | 0 <= i < |more.names|
      ensures SpotAt(v, more.names[i], qtype, view) == Alias(more.aliases[i], NameAfter(more, i))
    {
      if i < |w.names| {
        assert NameAfter(more, i) == NameAfter(w, i);
      }
    }
  }

  lemma WalkStarts(v: Views, start: string, qtype: Word16, view: View)
    ensures IsWalk(v, start, qtype, view, Walk([], [], NormalizeName(start)))
  {
  }

  /** Follows aliases until the type is found, the chain ends, a name repeats or eight were taken. The
      walk is returned beside the reply as evidence. */
  method FollowCnameChain(v: Views, start: string, qtype: Word16, view: View) returns (reply: Reply, w: Walk)
    ensures IsWalk(v, start, qtype, view, w) && Closes(v, qtype, view, w, reply)
  {
    hide NormalizeName, LookIn, IsWalk;
    var answer: seq<RR> := [];
    var visited: set<string> := {};
    var current := NormalizeName(start);
    w := Walk([], [], current);
    WalkStarts(v, start, qtype, view);
    for depth := 0 to MAX_ALIASES
      invariant IsWalk(v, start, qtype, view, w) && |w.names| == depth
      invariant answer == w.aliases && current == w.end && visited == set n <- w.names
    {
      if current in visited {
        return Reply(answer, RCODE_SERVER_FAILURE), w;
      }
      visited := visited + {current};
      var records := Look(v, current, qtype, view);
      if records.Found? {
        return Reply(answer + records.records, RCODE_SUCCESS), w;
      }
      if records.NotFound? {
        return (if |answer| > 0 then Reply(answer, RCODE_SUCCESS) else Reply([], RCODE_NAME_ERROR)), w;
      }
      var cnames := Look(v, current, TYPE_CNAME, view);
      if !cnames.Found? {
        return Reply(answer, RCODE_SUCCESS), w;
      }
      FoundIsNotEmpty(v, current, TYPE_CNAME, view);
      var cname := cnames.records[0];
      if !cname.data.CNAME? {
        return Reply(answer, RCODE_SERVER_FAILURE), w;
      }
      WalkGrows(v, start, qtype, view, w);
      answer := answer + [cname];
      current := NormalizeName(cname.data.target);
      w := OneMore(w, cname, current);
    }
    return Reply(answer, RCODE_SERVER_FAILURE), w;
  }

  lemma FoundIsNotEmpty(v: Views, name: string, qtype: Word16, view: View)
    ensures Look(v, name, qtype, view).Found? ==> |Look(v, name, qtype, view).records| > 0
  {
  }

  // ---------------------------------------------------------------- what the chain means

  /** The name reached by k aliases from the start, if there are that many. */
  function NameAt(v: Views, start: string, qtype: Word16, view: View, k: nat): (r: seq<string>)
    ensures |r| <= 1
  {
    if k == 0 then [NormalizeName(start)]
    else
      var before := NameAt(v, start, qtype, view, k - 1);
      if before == [] then []
      else
        match SpotAt(v, before[0], qtype, view)
        case Alias(_, next) => [next]
        case _ => []
  }

  /** The k-th name on the alias path is an alias itself. */
  predicate AliasAt(v: Views, start: string, qtype: Word16, view: View, k: nat) {
    var n := NameAt(v, start, qtype, view, k);
    n != [] && SpotAt(v, n[0], qtype, view).Alias?
  }

  predicate BrokenAt(v: Views, start: string, qtype: Word16, view: View, k: nat) {
    var n := NameAt(v, start, qtype, view, k);
    n != [] && SpotAt(v, n[0], qtype, view) == Broken
  }

  /** The walk visits the alias path. */
  lemma {:induction false} WalkIsPath(v: Views, start: string, qtype: Word16, view: View, w: Walk, k: nat)
    requires IsWalk(v, start, qtype, view, w) && k <= |w.names|
    ensures NameAt(v, start, qtype, view, k) == [if k < |w.names| then w.names[k] else w.end]
    ensures k < |w.names| ==> AliasAt(v, start, qtype, view, k)
  {
    hide SpotAt, NormalizeName;
    if k > 0 {
      WalkIsPath(v, start, qtype, view, w, k - 1);
    }
  }

  /** A path that comes back to a name it left through an alias never leaves aliases again. */
  lemma {:induction false} RepeatedNameIsEndless(v: Views, start: string, qtype: Word16, view: View, i: nat, j: nat,
                                                 k: nat)
    requires i < j && NameAt(v, start, qtype, view, i) == NameAt(v, start, qtype, view, j)
    requires forall m :: i <= m < j ==> AliasAt(v, start, qtype, view, m)
    ensures i <= k ==> AliasAt(v, start, qtype, view, k)
    ensures j <= k ==> NameAt(v, start, qtype, view, k) == NameAt(v, start, qtype, view, k - (j - i))
    decreases k
  {
    hide NameAt, AliasAt;
    if j < k {
      RepeatedNameIsEndless(v, start, qtype, view, i, j, k - 1);
      SameNameSameStep(v, start, qtype, view, k - 1, k - 1 - (j - i));
    }
    if j <= k {
      RepeatedNameIsEndless(v, start, qtype, view, i, j, k - (j - i));
      SameNameSameStep(v, start, qtype, view, k, k - (j - i));
    }
  }

  lemma SameNameSameStep(v: Views, start: string, qtype: Word16, view: View, i: nat, j: nat)
    requires NameAt(v, start, qtype, view, i) == NameAt(v, start, qtype, view, j)
    ensures AliasAt(v, start, qtype, view, i) == AliasAt(v, start, qtype, view, j)
    ensures NameAt(v, start, qtype, view, i + 1) == NameAt(v, start, qtype, view, j + 1)
  {
    hide SpotAt, NormalizeName;
  }

  predicate AllAliases(v: Views, start: string, qtype: Word16, view: View, n: nat) {
    forall k :: 0 <= k < n ==> AliasAt(v, start, qtype, view, k)
  }

  predicate BreaksBefore(v: Views, start: string, qtype: Word16, view: View, n: nat) {
    exists k :: 0 <= k < n && BrokenAt(v, start, qtype, view, k)
  }

  lemma LoopMeansAllAliases(v: Views, start: string, qtype: Word16, view: View, w: Walk)
    requires IsWalk(v, start, qtype, view, w) && w.end in w.names
    ensures AllAliases(v, start, qtype, view, MAX_ALIASES)
  {
    hide SpotAt, NormalizeName, NameAt, AliasAt;
    var i :| 0 <= i < |w.names| && w.names[i] == w.end;
    var j := |w.names|;
    forall m | 0 <= m <= j
      ensures m < j ==> AliasAt(v, start, qtype, view, m)
      ensures NameAt(v, start, qtype, view, m) == [if m < j then w.names[m] else w.end]
    {
      WalkIsPath(v, start, qtype, view, w, m);
    }
    forall k | 0 <= k < MAX_ALIASES ensures AliasAt(v, start, qtype, view, k) {
      if k >= j {
        RepeatedNameIsEndless(v, start, qtype, view, i, j, k);
      }
    }
  }

  /** After a name that is no alias the path has no names. */
  lemma {:induction false} PathEnds(v: Views, start: string, qtype: Word16, view: View, n: nat, k: nat)
    requires !AliasAt(v, start, qtype, view, n) && n < k
    ensures NameAt(v, start, qtype, view, k) == []
  {
    hide SpotAt, NormalizeName;
    if k > n + 1 {
      PathEnds(v, start, qtype, view, n, k - 1);
    }
  }

  /** The server failure is exact: the first eight names of the alias path are all aliases, be it a loop or a
      chain that is too long, or an alias record among the first eight carries no alias data. */
  lemma FailureIsExact(v: Views, start: string, qtype: Word16, view: View, w: Walk, r: Reply)
    requires IsWalk(v, start, qtype, view, w) && Closes(v, qtype, view, w, r)
    ensures r.rcode == RCODE_SERVER_FAILURE
       <==> AllAliases(v, start, qtype, view, MAX_ALIASES) || BreaksBefore(v, start, qtype, view, MAX_ALIASES)
  {
    hide SpotAt, NormalizeName, NameAt;
    var n := |w.names|;
    forall k | 0 <= k <= n
      ensures NameAt(v, start, qtype, view, k) == [if k < n then w.names[k] else w.end]
      ensures k < n ==> AliasAt(v, start, qtype, view, k)
    {
      WalkIsPath(v, start, qtype, view, w, k);
    }
    if w.end in w.names {
      LoopMeansAllAliases(v, start, qtype, view, w);
    } else if n < MAX_ALIASES {
      assert !AliasAt(v, start, qtype, view, n);
      if SpotAt(v, w.end, qtype, view) == Broken {
        assert BrokenAt(v, start, qtype, view, n);
      } else {
        forall k | 0 <= k < MAX_ALIASES ensures !BrokenAt(v, start, qtype, view, k) {
          if k > n {
            PathEnds(v, start, qtype, view, n, k);
          }
        }
      }
    }
  }

  /** In sound zones the alias records form a connected chain: each is owned by the name the one before it
      points to, the first by the name asked for, and no owner appears twice. */
  predicate Connected(aliases: seq<RR>, start: string) {
    && (aliases != [] ==> NormalizeName(aliases[0].name) == NormalizeName(start))
    && (forall i :: 0 <= i < |aliases| ==> aliases[i].rrtype == TYPE_CNAME && aliases[i].data.CNAME?)
    && (forall i :: 0 < i < |aliases| ==> NormalizeName(aliases[i].name) == NormalizeName(aliases[i - 1].data.target))
    && (forall i, j :: 0 <= i < j < |aliases| ==> NormalizeName(aliases[i].name) != NormalizeName(aliases[j].name))
  }

  lemma AliasIsFiled(v: Views, name: string, qtype: Word16, view: View)
    requires Sound(v.pub) && Sound(v.internal) && SpotAt(v, name, qtype, view).Alias?
    ensures var s := SpotAt(v, name, qtype, view);
      && NormalizeName(s.record.name) == NormalizeName(name) && s.record.rrtype == TYPE_CNAME
      && s.record.data.CNAME? && s.next == NormalizeName(s.record.data.target)
  {
    hide Sound, NormalizeName;
    var n := NormalizeName(name);
    if n in v.pub {
      SoundFiles(v.pub, n);
    }
    if n in v.internal {
      SoundFiles(v.internal, n);
    }
  }

  lemma WalkIsConnected(v: Views, start: string, qtype: Word16, view: View, w: Walk)
    requires Sound(v.pub) && Sound(v.internal) && IsWalk(v, start, qtype, view, w)
    ensures Connected(w.aliases, start)
    ensures w.aliases != [] ==> w.end == NormalizeName(w.aliases[|w.aliases| - 1].data.target)
  {
    hide Sound, SpotAt, NormalizeName;
    forall i | 0 <= i < |w.names|
      ensures NormalizeName(w.aliases[i].name) == w.names[i] && w.aliases[i].rrtype == TYPE_CNAME
      ensures w.aliases[i].data.CNAME? && NameAfter(w, i) == NormalizeName(w.aliases[i].data.target)
    {
      AliasIsFiled(v, w.names[i], qtype, view);
      WalkNamesAreNormal(v, start, qtype, view, w, i);
    }
  }

  lemma WalkNamesAreNormal(v: Views, start: string, qtype: Word16, view: View, w: Walk, i: nat)
    requires IsWalk(v, start, qtype, view, w) && i < |w.names|
    ensures NormalizeName(w.names[i]) == w.names[i]
  {
    hide NormalizeName, Look;
    if i == 0 {
      NormalizeIsNormal(start);
    } else {
      var s := SpotAt(v, w.names[i - 1], qtype, view);
      assert s.next == w.names[i];
      NormalizeIsNormal(s.record.data.target);
    }
  }

  // ---------------------------------------------------------------- whole questions

  /** Two walks from the same start visit the same names as long as both go on. */
  lemma WalksAgree(v: Views, start: string, qtype: Word16, view: View, a: Walk, b: Walk)
    requires IsWalk(v, start, qtype, view, a) && IsWalk(v, start, qtype, view, b) && |a.names| <= |b.names|
    ensures a.names == b.names[..|a.names|] && a.aliases == b.aliases[..|a.names|]
    ensures a.end == if |a.names| < |b.names| then b.names[|a.names|] else b.end
    ensures |a.names| == |b.names| ==> a == b
  {
    hide SpotAt, NormalizeName, NameAt;
    var n := |a.names|;
    forall k | 0 <= k <= n
      ensures (if k < n then a.names[k] else a.end) == (if k < |b.names| then b.names[k] else b.end)
    {
      WalkIsPath(v, start, qtype, view, a, k);
      WalkIsPath(v, start, qtype, view, b, k);
    }
    assert a.names == b.names[..n];
    assert a.aliases == b.aliases[..n];
  }

  lemma ShorterWalkIsOpen(v: Views, start: string, qtype: Word16, view: View, a: Walk, b: Walk)
    requires IsWalk(v, start, qtype, view, a) && IsWalk(v, start, qtype, view, b) && |a.names| < |b.names|
    ensures a.end !in a.names && |a.names| < MAX_ALIASES && SpotAt(v, a.end, qtype, view).Alias?
  {
    hide SpotAt, NormalizeName;
    WalksAgree(v, start, qtype, view, a, b);
  }

  /** The walk of FollowCnameChain is the only one that closes, so its reply is a function of the views. */
  lemma ReplyIsUnique(v: Views, start: string, qtype: Word16, view: View, a: Walk, b: Walk, r: Reply, q: Reply)
    requires IsWalk(v, start, qtype, view, a) && Closes(v, qtype, view, a, r)
    requires IsWalk(v, start, qtype, view, b) && Closes(v, qtype, view, b, q)
    ensures a == b && r == q
  {
    hide SpotAt, NormalizeName, IsWalk;
    if |a.names| < |b.names| {
      ShorterWalkIsOpen(v, start, qtype, view, a, b);
    } else if |b.names| < |a.names| {
      ShorterWalkIsOpen(v, start, qtype, view, b, a);
    } else {
      WalksAgree(v, start, qtype, view, a, b);
    }
  }

  /** Addresses are looked up directly and through aliases only when the name exists without them. */
  ghost predicate AddressReply(v: Views, name: string, qtype: Word16, view: View, r: Reply) {
    match Look(v, name, qtype, view)
    case Found(records) => r == Reply(records, RCODE_SUCCESS)
    case NotFound => r == Reply([], RCODE_NAME_ERROR)
    case NoData => exists w :: IsWalk(v, name, qtype, view, w) && Closes(v, qtype, view, w, r)
  }

  method ResolveAddress(v: Views, name: string, qtype: Word16, view: View) returns (reply: Reply)
    ensures AddressReply(v, name, qtype, view, reply)
  {
    hide IsWalk, Closes;
    match Look(v, name, qtype, view) {
      case Found(records) => return Reply(records, RCODE_SUCCESS);
      case NotFound => return Reply([], RCODE_NAME_ERROR);
      case NoData =>
        var w;
        reply, w := FollowCnameChain(v, name, qtype, view);
    }
  }

  function Suffix(labels: seq<string>, i: nat): string
    requires i < |labels|
  {
    JoinDots(labels[i..]) + "."
  }

  function NameLabels(name: string): seq<string> {
    var body := TrimSuffix(NormalizeName(name), ".");
    if body == "" then [] else SplitDots(body)
  }

  predicate HasSoa(v: Views, labels: seq<string>, i: nat, view: View)
    requires i < |labels|
  {
    Look(v, Suffix(labels, i), TYPE_SOA, view).Found?
  }

  /** The i-th suffix has SOA records, no shorter one has, and soa holds the first of them. */
  predicate ShortestSoa(v: Views, labels: seq<string>, i: nat, view: View, soa: seq<RR>)
    requires i < |labels|
  {
    && HasSoa(v, labels, i, view) && (forall j :: i < j < |labels| ==> !HasSoa(v, labels, j, view))
    && 0 < |Look(v, Suffix(labels, i), TYPE_SOA, view).records|
    && soa == [Look(v, Suffix(labels, i), TYPE_SOA, view).records[0]]
  }

  /** The SOA of the shortest suffix that has one; nothing if no suffix has. */
  predicate IsZoneSoa(v: Views, name: string, view: View, soa: seq<RR>) {
    var labels := NameLabels(name);
    if soa == [] then forall i :: 0 <= i < |labels| ==> !HasSoa(v, labels, i, view)
    else exists i :: 0 <= i < |labels| && ShortestSoa(v, labels, i, view, soa)
  }

  method LookupZoneSoa(v: Views, name: string, view: View) returns (soa: seq<RR>)
    ensures IsZoneSoa(v, name, view, soa)
  {
    hide LookIn, NameLabels;
    var labels := NameLabels(name);
    for i := |labels| downto 0
      invariant forall j :: i <= j < |labels| ==> !HasSoa(v, labels, j, view)
    {
      var found := Look(v, Suffix(labels, i), TYPE_SOA, view);
      if found.Found? {
        FoundIsNotEmpty(v, Suffix(labels, i), TYPE_SOA, view);
        soa := [found.records[0]];
        assert ShortestSoa(v, labels, i, view, soa);
        return;
      }
    }
    return [];
  }

  /** The k-th suffix has SOA records and no longer one has: the apex of the zone the name is really in. */
  predicate ClosestSoa(v: Views, labels: seq<string>, k: nat, view: View)
    requires k < |labels|
  {
    HasSoa(v, labels, k, view) && forall j :: 0 <= j < k ==> !HasSoa(v, labels, j, view)
  }

  /** The zone found is the one the name is in exactly if only one suffix of the name has SOA records. */
  lemma ShortestIsClosestIff(v: Views, labels: seq<string>, view: View, i: nat, k: nat, soa: seq<RR>)
    requires i < |labels| && k < |labels| && ShortestSoa(v, labels, i, view, soa) && ClosestSoa(v, labels, k, view)
    ensures k <= i
    ensures i == k <==>
      forall a, b :: 0 <= a < |labels| && 0 <= b < |labels| && HasSoa(v, labels, a, view) && HasSoa(v, labels, b, view)
        ==> a == b
  {
    hide HasSoa;
  }

  function SoaAt(name: string): RR {
    RR(name, TYPE_SOA, CLASS_INET, 60, SOA(SoaFields("ns.", "admin.", 1, 60, 60, 60, 60)))
  }

  /** A zone and one inside it: at the apex of the inner zone the SOA of the outer one is found. */
  lemma NestedZoneGetsOuterSoa(soa: seq<RR>)
    ensures var z := map["b." := map[TYPE_SOA := [SoaAt("b.")]], "a.b." := map[TYPE_SOA := [SoaAt("a.b.")]]];
      IsZoneSoa(Views(z, map[]), "a.b.", PublicView, soa) <==> soa == [SoaAt("b.")]
  {
    hide NormalizeName, SplitDots, ShortestSoa, NameLabels, JoinDots;
    var z := map["b." := map[TYPE_SOA := [SoaAt("b.")]], "a.b." := map[TYPE_SOA := [SoaAt("a.b.")]]];
    var v, labels := Views(z, map[]), ["a", "b"];
    NestedLabels();
    assert RRset(z, "b.", TYPE_SOA) == [SoaAt("b.")];
    assert RRset(z, "a.b.", TYPE_SOA) == [SoaAt("a.b.")];
    assert Look(v, Suffix(labels, 1), TYPE_SOA, PublicView) == Found([SoaAt("b.")]);
    hide Look, RRset, Suffix;
    OnlyLast(v, labels, PublicView, soa);
  }

  lemma OnlyLast(v: Views, labels: seq<string>, view: View, soa: seq<RR>)
    requires |labels| == 2 && HasSoa(v, labels, 1, view) && |Look(v, Suffix(labels, 1), TYPE_SOA, view).records| > 0
    ensures !ShortestSoa(v, labels, 0, view, soa)
    ensures ShortestSoa(v, labels, 1, view, soa) <==> soa == [Look(v, Suffix(labels, 1), TYPE_SOA, view).records[0]]
  {
    hide Look, Suffix;
  }

  lemma NestedNamesAreNormal()
    ensures NormalizeName("a.b.") == "a.b." && NormalizeName("b.") == "b."
  {
    assert Lower("a.b.") == "a.b." && Lower("b.") == "b.";
    NormalizeIsNormal("a.b.");
    NormalizeIsNormal("b.");
  }

  lemma NestedLabels()
    ensures NormalizeName("a.b.") == "a.b." && NormalizeName("b.") == "b."
    ensures NameLabels("a.b.") == ["a", "b"] && Suffix(["a", "b"], 0) == "a.b." && Suffix(["a", "b"], 1) == "b."
  {
    hide NormalizeName;
    NestedNamesAreNormal();
    assert "a.b."[..3] == "a.b" == "a" + "." + "b" && "a.b."[3..] == ".";
    SplitOfDotless("a");
    SplitOfDotless("b");
    SplitOfConcat("a", "b");
    assert ["a", "b"][0..] == ["a", "b"] && ["a", "b"][1..] == ["b"];
    assert JoinDots(["b"]) == "b" && JoinDots(["a", "b"]) == "a" + "." + "b";
  }

  // ---------------------------------------------------------------- alias answers on the trees

  /** The i-th name is not the answer itself: the tree that shows it has none of the type but an alias, the first CNAME
      record there, which was taken and leads to the next name. */
  predicate AliasTaken(v: Views, qtype: Word16, view: View, w: Walk, i: nat)
    requires i < |w.names| == |w.aliases|
  {
    var n, z := w.names[i], Visible(v, w.names[i], view);
    && ShowsNothing(v, n, qtype, view) && n in z && TYPE_CNAME in z[n] && z[n][TYPE_CNAME] != []
    && w.aliases[i] == z[n][TYPE_CNAME][0] && w.aliases[i].data.CNAME?
    && NormalizeName(w.aliases[i].data.target) == if i + 1 < |w.names| then w.names[i + 1] else w.end
  }

  /** The reply after a walk: the alias records taken, in order, and after them, where the last name has records of the
      type, all of these. Without an error and without such records it is the alias records alone. */
  ghost predicate WholeAliasReply(v: Views, start: string, qtype: Word16, view: View, w: Walk, r: Reply) {
    && |w.names| == |w.aliases| <= 8
    && (if w.names == [] then w.end else w.names[0]) == NormalizeName(start)
    && (forall i :: 0 <= i < |w.names| ==> AliasTaken(v, qtype, view, w, i))
    && (if |w.names| == 8 || w.end in w.names then r == Reply(w.aliases, RCODE_SERVER_FAILURE)
        else
          && (forall records :: Shows(v, w.end, qtype, view, records) ==>
                r == Reply(w.aliases + records, RCODE_SUCCESS))
          && (ShowsNothing(v, w.end, qtype, view) ==> r.records == w.aliases))
  }

  lemma AliasIsTaken(v: Views, start: string, qtype: Word16, view: View, w: Walk, i: nat)
    requires IsWalk(v, start, qtype, view, w) && i < |w.names|
    requires NormalizeName(w.names[i]) == w.names[i]
    ensures AliasTaken(v, qtype, view, w, i)
  {
    hide NormalizeName, Look;
    var n := w.names[i];
    assert SpotAt(v, n, qtype, view) == Alias(w.aliases[i], NameAfter(w, i));
    LookShows(v, n, qtype, view);
    LookShows(v, n, TYPE_CNAME, view);
    var cnames := Look(v, n, TYPE_CNAME, view).records;
    assert Shows(v, n, TYPE_CNAME, view, cnames);
  }

  lemma ClosedIsWhole(v: Views, start: string, qtype: Word16, view: View, w: Walk, r: Reply)
    requires IsWalk(v, start, qtype, view, w) && Closes(v, qtype, view, w, r)
    ensures WholeAliasReply(v, start, qtype, view, w, r)
  {
    hide NormalizeName, Look, SpotAt, AliasTaken;
    EndIsNormal(v, start, qtype, view, w);
    forall i | 0 <= i < |w.names| ensures AliasTaken(v, qtype, view, w, i) {
      WalkNamesAreNormal(v, start, qtype, view, w, i);
      AliasIsTaken(v, start, qtype, view, w, i);
    }
    EndIsWhole(v, qtype, view, w, r);
  }

  lemma EndIsNormal(v: Views, start: string, qtype: Word16, view: View, w: Walk)
    requires IsWalk(v, start, qtype, view, w)
    ensures NormalizeName(w.end) == w.end
  {
    hide NormalizeName, Look;
    if w.names == [] {
      NormalizeIsNormal(start);
    } else {
      var s := SpotAt(v, w.names[|w.names| - 1], qtype, view);
      assert s.next == w.end;
      NormalizeIsNormal(s.record.data.target);
    }
  }

  lemma EndIsWhole(v: Views, qtype: Word16, view: View, w: Walk, r: Reply)
    requires Closes(v, qtype, view, w, r) && |w.names| <= MAX_ALIASES && NormalizeName(w.end) == w.end
    ensures !(|w.names| == MAX_ALIASES || w.end in w.names) ==>
      && (forall records :: Shows(v, w.end, qtype, view, records) ==> r == Reply(w.aliases + records, RCODE_SUCCESS))
      && (ShowsNothing(v, w.end, qtype, view) ==> r.records == w.aliases)
  {
    hide NormalizeName, Shows, ShowsNothing, Look;
    LookShows(v, w.end, qtype, view);
  }

  lemma AddressReplyIsWhole(v: Views, name: string, qtype: Word16, view: View, r: Reply)
    requires AddressReply(v, name, qtype, view, r)
    ensures Look(v, name, qtype, view) == NoData ==> exists w :: WholeAliasReply(v, name, qtype, view, w, r)
  {
    hide NormalizeName, Look, IsWalk, Closes, WholeAliasReply;
    if Look(v, name, qtype, view) == NoData {
      var w :| IsWalk(v, name, qtype, view, w) && Closes(v, qtype, view, w, r);
      ClosedIsWhole(v, name, qtype, view, w, r);
    }
  }

  const ANY_TTL: Word32 := 300

  function MinimalAny(name: string): RR {
    RR(NormalizeName(name), TYPE_HINFO, CLASS_INET, ANY_TTL,
       Other("RFC8482 https://datatracker.ietf.org/doc/html/rfc8482"))
  }

  /** The record in place of all is of type HINFO (section 4.2 of RFC 8482) and class IN, and lives five minutes. */
  lemma MinimalAnyFields(name: string)
    ensures var rr := MinimalAny(name);
      rr.name == NormalizeName(name) && rr.rrtype == 13 && rr.rclass == 1 && rr.ttl == 300 && rr.data.Other?
  {
  }

  /** One record in place of all: the SOA of the zone, or the synthetic HINFO record where no zone is found. */
  ghost predicate AnyReply(v: Views, name: string, view: View, r: Reply) {
    if NameExists(v, name, view)
    then exists soa :: IsZoneSoa(v, name, view, soa) && r.records == if soa == [] then [MinimalAny(name)] else soa
    else r.records == []
  }

  /** What a question gets of the data, by the trees: all records of the type at the name, if there are any; else
      nothing, or for addresses at a name that exists the reply of an alias walk. */
  ghost predicate WholeReply(v: Views, q: Question, view: View, r: Reply) {
    var n, address := NormalizeName(q.name), q.qtype == TYPE_A || q.qtype == TYPE_AAAA;
    q.qtype != TYPE_ANY ==>
      && (forall records :: Shows(v, n, q.qtype, view, records) ==> r == Reply(records, RCODE_SUCCESS))
      && (ShowsNothing(v, n, q.qtype, view) ==>
            if address && n in Visible(v, n, view) then exists w :: WholeAliasReply(v, q.name, q.qtype, view, w, r)
            else r.records == [])
  }

  /** The reply to a question and whether it goes to the forwarder; domestic tells the names that never do. */
  method ResolveQuestion(v: Views, q: Question, view: View, domestic: string -> bool)
    returns (reply: Reply, forward: bool)
    ensures (q.qtype == TYPE_A || q.qtype == TYPE_AAAA) ==> AddressReply(v, q.name, q.qtype, view, reply)
    ensures reply.rcode == RCODE_NAME_ERROR <==> !NameExists(v, q.name, view)
    ensures forward <==> !NameExists(v, q.name, view) && !domestic(q.name)
    ensures q.qtype == TYPE_ANY ==> AnyReply(v, q.name, view, reply)
    ensures q.qtype != TYPE_A && q.qtype != TYPE_AAAA && q.qtype != TYPE_ANY ==>
      reply.records == RecordsOf(Look(v, q.name, q.qtype, view))
    ensures WholeReply(v, q, view, reply)
  {
    hide IsWalk, Closes, NormalizeName, WholeAliasReply, Shows, ShowsNothing, Look;
    LookShows(v, q.name, q.qtype, view);
    LookMeansExists(v, q.name, q.qtype, view);
    if q.qtype == TYPE_A || q.qtype == TYPE_AAAA {
      reply := ResolveAddress(v, q.name, q.qtype, view);
      AddressReplyIsWhole(v, q.name, q.qtype, view, reply);
      NameErrorMeansAbsent(v, q.name, q.qtype, view, reply);
      forward := reply.rcode == RCODE_NAME_ERROR && !domestic(q.name);
    } else if q.qtype == TYPE_ANY {
      reply, forward := ResolveAny(v, q.name, view, domestic);
    } else {
      match Look(v, q.name, q.qtype, view) {
        case Found(records) => reply, forward := Reply(records, RCODE_SUCCESS), false;
        case NoData => reply, forward := Reply([], RCODE_SUCCESS), false;
        case NotFound => reply, forward := Reply([], RCODE_NAME_ERROR), !domestic(q.name);
      }
    }
  }

  function RecordsOf(found: Lookup): seq<RR> {
    if found.Found? then found.records else []
  }

  method ResolveAny(v: Views, name: string, view: View, domestic: string -> bool) returns (reply: Reply, forward: bool)
    ensures reply.rcode == RCODE_NAME_ERROR <==> !NameExists(v, name, view)
    ensures forward <==> !NameExists(v, name, view) && !domestic(name)
    ensures AnyReply(v, name, view, reply)
  {
    hide NormalizeName, IsZoneSoa;
    if !NameExists(v, name, view) {
      return Reply([], RCODE_NAME_ERROR), !domestic(name);
    }
    var soa := LookupZoneSoa(v, name, view);
    return Reply(if soa != [] then soa else [MinimalAny(name)], RCODE_SUCCESS), false;
  }

  lemma LookMeansExists(v: Views, name: string, qtype: Word16, view: View)
    ensures Look(v, name, qtype, view) == NotFound <==> !NameExists(v, name, view)
    ensures Look(v, NormalizeName(name), qtype, view) == Look(v, name, qtype, view)
  {
    hide NormalizeName;
    NormalizeIsNormal(name);
  }

  lemma StartIsPresent(v: Views, name: string, qtype: Word16, view: View)
    requires Look(v, name, qtype, view) == NoData
    ensures SpotAt(v, NormalizeName(name), qtype, view) != Absent
  {
    hide NormalizeName, Look;
    LookMeansExists(v, name, qtype, view);
  }

  lemma NameErrorMeansAbsent(v: Views, name: string, qtype: Word16, view: View, r: Reply)
    requires AddressReply(v, name, qtype, view, r)
    ensures r.rcode == RCODE_NAME_ERROR <==> !NameExists(v, name, view)
  {
    hide NormalizeName, Look, SpotAt, NameExists;
    LookMeansExists(v, name, qtype, view);
    if Look(v, name, qtype, view) == NoData {
      StartIsPresent(v, name, qtype, view);
      var w :| IsWalk(v, name, qtype, view, w) && Closes(v, qtype, view, w, r);
    }
  }

  // ---------------------------------------------------------------- separation of the views

  /** What a client of the view can tell apart: for the internal view, public data only at names the
      internal tree lacks; for the public view, public data alone. */
  ghost predicate Alike(v: Views, u: Views, view: View) {
    if view == PublicView then v.pub == u.pub
    else
      && v.internal == u.internal
      && forall n :: n !in v.internal ==> (n in v.pub <==> n in u.pub) && (n in v.pub ==> v.pub[n] == u.pub[n])
  }

  lemma AlikeLooks(v: Views, u: Views, name: string, qtype: Word16, view: View)
    requires Alike(v, u, view)
    ensures Look(v, name, qtype, view) == Look(u, name, qtype, view)
    ensures NameExists(v, name, view) == NameExists(u, name, view)
  {
    hide NormalizeName;
  }

  lemma AlikeSpots(v: Views, u: Views, name: string, qtype: Word16, view: View)
    requires Alike(v, u, view)
    ensures SpotAt(v, name, qtype, view) == SpotAt(u, name, qtype, view)
  {
    hide Look, Alike;
    AlikeLooks(v, u, name, qtype, view);
    AlikeLooks(v, u, name, TYPE_CNAME, view);
  }

  lemma AlikeWalks(v: Views, u: Views, start: string, qtype: Word16, view: View, w: Walk)
    requires Alike(v, u, view) && IsWalk(v, start, qtype, view, w)
    ensures IsWalk(u, start, qtype, view, w)
  {
    hide Alike, SpotAt, NormalizeName;
    forall i | 0 <= i < |w.names|
      ensures SpotAt(u, w.names[i], qtype, view) == Alias(w.aliases[i], NameAfter(w, i))
    {
      AlikeSpots(v, u, w.names[i], qtype, view);
    }
  }

  /** An answer in the public view depends on the public tree alone, and a name present in the internal tree
      hides all public data at that name from internal clients: views that agree on the rest give the same
      replies. */
  lemma ViewsAreSeparate(v: Views, u: Views, name: string, qtype: Word16, view: View, r: Reply)
    requires Alike(v, u, view) && AddressReply(v, name, qtype, view, r)
    ensures AddressReply(u, name, qtype, view, r)
  {
    hide Look, Alike, SpotAt, NormalizeName;
    AlikeLooks(v, u, name, qtype, view);
    if Look(v, name, qtype, view) == NoData {
      var w :| IsWalk(v, name, qtype, view, w) && Closes(v, qtype, view, w, r);
      AlikeWalks(v, u, name, qtype, view, w);
      AlikeSpots(v, u, w.end, qtype, view);
      hide IsWalk;
      assert IsWalk(u, name, qtype, view, w) && Closes(u, qtype, view, w, r);
    }
  }

  /** With ReplyIsUnique, the address reply is one function of what the view shows. */
  lemma AddressReplyIsUnique(v: Views, u: Views, name: string, qtype: Word16, view: View, r: Reply, q: Reply)
    requires Alike(v, u, view) && AddressReply(v, name, qtype, view, r) && AddressReply(u, name, qtype, view, q)
    ensures r == q
  {
    hide Alike, SpotAt, NormalizeName, IsWalk, Closes;
    AlikeLooks(v, u, name, qtype, view);
    ViewsAreSeparate(v, u, name, qtype, view, r);
    if Look(u, name, qtype, view) == NoData {
      var a :| IsWalk(u, name, qtype, view, a) && Closes(u, qtype, view, a, r);
      var b :| IsWalk(u, name, qtype, view, b) && Closes(u, qtype, view, b, q);
      ReplyIsUnique(u, name, qtype, view, a, b, r, q);
    }
  }
}
