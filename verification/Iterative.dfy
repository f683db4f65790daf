/** Iterative resolution: walking delegations from the root with shortened query names, aliases and
    look-ups of name-server addresses. The network is an arbitrary function of everything sent so far, so
    every statement holds for any behaviour of the servers, whatever they learn from the queries. */
module Iterative {
  import opened Wrappers
  import opened Names
  import opened Records
  import opened Responses
  import opened Rounds

  const MAX_DEPTH := 15

  // ---------------------------------------------------------------- how many queries

  /** Bounds on the network and the root list: at most s servers in any list, h delegated hosts in any
      response, a addresses in any answer. */
  ghost predicate Bounded(r: Resolver, s: nat, h: nat, a: nat) {
    && |r.roots| <= s && h * a <= s
    && forall log, server, q ::
         r.network(log, server, q).Some? ==> BoundedMessage(r.network(log, server, q).value, s, h, a)
  }

  ghost predicate BoundedMessage(m: Message, s: nat, h: nat, a: nat) {
    && |NsNames(m)| <= h && (forall wanted :: |AddressSet(m.extra, wanted)| <= s)
    && |AddressSet(m.answer, None)| <= a
  }

  /** The most queries a resolution with left levels to go can send. */
  function Cost(left: nat, s: nat, h: nat): nat {
    if left == 0 then 0 else 16 * s + (2 * h + 1) * Cost(left - 1, s, h)
  }

  function Left(depth: nat): nat {
    if depth < MAX_DEPTH then MAX_DEPTH - depth else 0
  }

  lemma HeardIsBounded(r: Resolver, log: seq<Exchange>, log1: seq<Exchange>, step: Step, s: nat, h: nat, a: nat)
    requires Continues(r, log, log1) && Heard(r, log, log1, step)
    ensures Bounded(r, s, h, a) ==> BoundedMessage(step.response, s, h, a)
  {
    hide BoundedMessage, ShortQuestion, Shortened;
    var i :| |log| <= i < |log1| && HeardAt(r, log1[i], step);
    assert r.network(log1[..i], log1[i].server, log1[i].question) == Some(step.response);
  }

  lemma SubsetAddresses(a: seq<RR>, b: seq<RR>)
    requires forall rr <- a :: rr in b
    ensures |AddressSet(a, None)| <= |AddressSet(b, None)|
  {
    hide CanonicalName, AddressOf;
    SubsetSize(AddressSet(a, None), AddressSet(b, None));
  }

  lemma SubsetSize<T>(a: set<T>, b: set<T>)
    requires a <= b
    ensures |a| <= |b|
  {
    assert b == a + (b - a);
  }

  lemma TimesMonotone(a: nat, b: nat, c: nat)
    requires a <= b
    ensures a * c <= b * c
  {
  }

  /** c for each of n rounds. */
  function Times(n: nat, c: nat): nat {
    if n == 0 then 0 else Times(n - 1, c) + c
  }

  lemma {:induction false} TimesIsProduct(n: nat, c: nat)
    ensures Times(n, c) == n * c
  {
    if n > 0 {
      TimesIsProduct(n - 1, c);
      assert n * c == (n - 1) * c + c;
    }
  }

  lemma TimesStep(n: nat, c: nat)
    ensures Times(0, c) == 0 && Times(n + 1, c) == Times(n, c) + c
  {
  }

  lemma TimesAtMostEight(n: nat, c: nat)
    requires n <= MAX_ALIASES
    ensures Times(n, c) <= 8 * c
  {
    TimesIsProduct(n, c);
    TimesMonotone(n, 8, c);
  }

  /** The bound in closed form. */
  lemma {:induction false} CostClosedForm(left: nat, s: nat, h: nat)
    ensures 2 * h * Cost(left, s, h) == 16 * s * (Power(2 * h + 1, left) - 1)
  {
    if left > 0 {
      CostClosedForm(left - 1, s, h);
      ClosedFormStep(s, h, Cost(left - 1, s, h), Power(2 * h + 1, left - 1));
    }
  }

  lemma ClosedFormStep(s: int, h: int, c: int, p: int)
    requires 2 * h * c == 16 * s * (p - 1)
    ensures 2 * h * (16 * s + (2 * h + 1) * c) == 16 * s * ((2 * h + 1) * p - 1)
  {
    var b, t := 2 * h + 1, 16 * s;
    assert 2 * h * (t + b * c) == 2 * h * t + b * (2 * h * c);
    assert b * (t * (p - 1)) == t * (b * p) - t * b;
    assert t * (b * p - 1) == t * (b * p) - t;
    assert t * b == 2 * h * t + t;
  }

  function Power(b: nat, e: nat): nat {
    if e == 0 then 1 else b * Power(b, e - 1)
  }

  // ---------------------------------------------------------------- one question to a list of servers

  /** Tries the servers one by one; a missing reply or SERVFAIL moves on to the next. */
  method QueryServers(r: Resolver, q: Question, servers: seq<Server>, log: seq<Exchange>)
    returns (resp: Option<Message>, log1: seq<Exchange>)
    ensures Continues(r, log, log1) && |log1| <= |log| + |servers|
    ensures AsksOnly(log, log1, q, servers)
    ensures resp.Some? ==> |log| < |log1| && log1[|log1| - 1].response == resp && !Useless(log1[|log1| - 1])
    ensures resp.None? ==> |log1| == |log| + |servers| && forall i :: |log| <= i < |log1| ==> Useless(log1[i])
  {
    log1 := log;
    var sorted := Rearranged(servers);
    for i := 0 to |sorted|
      invariant Continues(r, log, log1) && |log1| == |log| + i
      invariant AsksOnly(log, log1, q, servers)
      invariant forall j :: |log| <= j < |log1| ==> Useless(log1[j])
    {
      assert sorted[i] in multiset(sorted);
      var reply := r.network(log1, sorted[i], q);
      ContinuesOneMore(r, log, log1, sorted[i], q);
      log1 := log1 + [Exchange(sorted[i], q, reply)];
      if !Useless(log1[|log1| - 1]) {
        return reply, log1;
      }
    }
    return None, log1;
  }

  /** A shortened question that fails or is refused is followed by the full one. */
  method QueryDelegation(r: Resolver, q: Question, full: Question, servers: seq<Server>, minimized: bool,
                         log: seq<Exchange>)
    returns (resp: Option<Message>, log1: seq<Exchange>)
    ensures Continues(r, log, log1) && |log1| <= |log| + 2 * |servers|
    ensures if minimized then FallsBack(log, log1, q, full, servers) else AsksOnly(log, log1, q, servers)
    ensures resp.Some? ==> |log| < |log1| && log1[|log1| - 1].response == resp
    ensures resp.None? && |servers| > 0 ==> EndsUseless(log, log1)
  {
    resp, log1 := QueryServers(r, q, servers, log);
    if !minimized {
      return;
    }
    if resp.None? || resp.value.rcode == RCODE_SERVER_FAILURE || resp.value.rcode == RCODE_REFUSED {
      ghost var middle := log1;
      resp, log1 := QueryServers(r, full, servers, log1);
      ContinuesTrans(r, log, middle, log1);
      assert forall i :: |log| <= i < |middle| ==> log1[i] == middle[i];
      assert FallsBackAt(log, log1, q, full, |servers|, |middle|);
      return;
    }
    assert FallsBackAt(log, log1, q, full, |servers|, |log1|);
  }

  /** One round: the question for the current name goes to the current servers. */
  method Round(r: Resolver, current: string, qtype: Word16, qclass: Word16, servers: seq<Server>, minLabels: nat,
               log: seq<Exchange>)
    returns (resp: Option<Message>, log1: seq<Exchange>)
    ensures Continues(r, log, log1) && |log1| <= |log| + 2 * |servers|
    ensures StageHolds(r, Stage(Goal(current, minLabels, servers, qtype, qclass), log, log1, resp))
    ensures resp.None? && |servers| > 0 ==> EndsUseless(log, log1)
  {
    hide Continues, QueryParams, FallsBackAt;
    var (asked, askedType, minimized) := QueryParams(r, current, qtype, minLabels);
    resp, log1 := QueryDelegation(r, Question(asked, askedType, qclass), Question(Fqdn(current), qtype, qclass),
                                  servers, minimized, log);
    ContinuesGrows(r, log, log1);
    if resp.Some? {
      RoundWasHeard(r, Goal(current, minLabels, servers, qtype, qclass), log, log1, resp.value);
    }
  }

  lemma ContinuesGrows(r: Resolver, log: seq<Exchange>, log1: seq<Exchange>)
    requires Continues(r, log, log1)
    ensures log <= log1
  {
  }

  lemma RoundWasHeard(r: Resolver, g: Goal, log: seq<Exchange>, log1: seq<Exchange>, resp: Message)
    requires StageAsks(r, Stage(g, log, log1, Some(resp)))
    requires |log| < |log1| && log1[|log1| - 1].response == Some(resp)
    ensures Heard(r, log, log1, Step(g, resp))
  {
    hide ShortQuestion, FullQuestion, Shortened;
    assert HeardAt(r, log1[|log1| - 1], Step(g, resp));
  }

  // ---------------------------------------------------------------- resolution

  /** Why a resolution may fail before its first response: the depth limit, no servers, or servers that bring
      nothing. */
  predicate GivesUp(depth: nat, servers: seq<Server>, log: seq<Exchange>, log1: seq<Exchange>) {
    depth >= MAX_DEPTH || servers == [] || EndsUseless(log, log1)
  }

  /** Resolves a name at a recursion depth: at most eight rounds that follow aliases from the root, then a
      referral is followed one level down. The rounds are returned for the proof: steps are those that used a
      response for this name, stages are all there were. */
  method Resolve(r: Resolver, name: string, qtype: Word16, qclass: Word16, servers: seq<Server>, depth: nat,
                 minLabels0: nat, log: seq<Exchange>, ghost s: nat, ghost h: nat, ghost a: nat)
    returns (out: Outcome, log1: seq<Exchange>, ghost steps: seq<Step>, ghost stages: seq<Stage>)
    ensures var g := Goal(Fqdn(name), minLabels0, servers, qtype, qclass);
      && IsWalk(r, g, Walk(log, log1, steps, out))
      && Accounts(r, g, log, log1, stages)
    ensures if steps == [] then out.Failed? && GivesUp(depth, servers, log, log1)
            else Decides(steps[|steps| - 1], out)
    ensures Bounded(r, s, h, a) && |servers| <= s ==> |log1| <= |log| + Cost(Left(depth), s, h)
    decreases Left(depth), 1
  {
    hide Continues, Walked, LeadsTo, Concludes, Bounded, BoundedMessage, Heard, Cost, Matched, IsNegative, Undecided;
    hide NsNames, Fqdn, IsAliasOf, IsFirstAlias, Times, EndsUseless, GlueOf, Accounts, StageHolds, Reached, IsReferral;
    hide Decides;
    ghost var g := Goal(Fqdn(name), minLabels0, servers, qtype, qclass);
    out, log1, steps, stages := Failed, log, [], [];
    NothingYet(r, g, log);
    if depth >= MAX_DEPTH || |servers| == 0 {
      return;
    }
    CostOfLevel(depth, s, h);
    TimesAtMostEight(MAX_ALIASES, 2 * s);
    TimesStep(0, 2 * s);
    var current, minLabels, list := Fqdn(name), minLabels0, servers;
    for round := 0 to MAX_ALIASES
      invariant IsWalk(r, g, Walk(log, log1, steps, Failed)) && out == Failed
      invariant IsAt(r, g, log, log1, steps, Goal(current, minLabels, list, qtype, qclass))
      invariant Accounts(r, g, log, log1, stages)
      invariant Reached(r, g, stages, log1, Goal(current, minLabels, list, qtype, qclass))
      invariant Bounded(r, s, h, a) && |servers| <= s ==> |list| <= s && |log1| <= |log| + Times(round, 2 * s)
      invariant round == 0 ==> log1 == log && list == servers && steps == []
      invariant round > 0 ==> steps != []
    {
      ghost var before, goal := log1, Goal(current, minLabels, list, qtype, qclass);
      TimesAtMostEight(round + 1, 2 * s);
      TimesStep(round, 2 * s);
      var resp;
      resp, log1 := Round(r, current, qtype, qclass, list, minLabels, log1);
      ghost var stage := Stage(goal, before, log1, resp);
      ContinuesTrans(r, log, before, log1);
      if resp.None? {
        WalkedLater(r, g, log, log, before, log1, steps);
        WalkDecides(steps, out);
        StageAdded(r, g, log, stages, stage);
        stages := stages + [stage];
        return;
      }
      var step := Step(Goal(current, minLabels, list, qtype, qclass), resp.value);
      StageStep(r, stage, step);
      AppendStep(r, g, log, before, log1, steps, step);
      steps := steps + [step];
      var matched := MatchedAnswers(resp.value, current, qtype);
      if |matched| > 0 {
        out := Positive(resp.value.(rcode := RCODE_SUCCESS, answer := matched));
        ConcludesNow(steps, out);
        WalkDecides(steps, out);
        StageAdded(r, g, log, stages, stage);
        stages := stages + [stage];
        return;
      }
      if IsNegative(resp.value) {
        out := Negative(resp.value);
        ConcludesNow(steps, out);
        WalkDecides(steps, out);
        StageAdded(r, g, log, stages, stage);
        stages := stages + [stage];
        return;
      }
      UndecidedNow(steps, step);
      var alias := CnameTarget(resp.value, current);
      if alias.Some? {
        AliasFollowed(r, g, log, stages, stage, step, alias.value);
        stages := stages + [stage];
        current, minLabels, list := Fqdn(alias.value), StartLabels(r), r.roots;
        BoundedRoots(r, s, h, a);
        continue;
      }
      ghost var middle, rest, below := log1, [], [];
      out, log1, rest, below := Descend(r, step, depth, log1, stage, s, h, a);
      ContinuesTrans(r, log, middle, log1);
      AppendRest(r, g, log, middle, log1, steps, rest);
      HeardIsBounded(r, before, middle, step, s, h, a);
      ConcludesLater(steps, rest, out);
      AccountsConcat(r, g, log, before, log1, stages, goal, below);
      steps, stages := steps + rest, stages + below;
      WalkDecides(steps, out);
      return;
    }
    WalkDecides(steps, out);
  }

  /** Why a referral may lead to no further response. */
  ghost predicate DescentFails(r: Resolver, resp: Message, depth: nat, log: seq<Exchange>, log1: seq<Exchange>) {
    || NsNames(resp) == {} || (GlueOf(resp) == {} && ServersLookedUp(r, log, log1, resp, {}))
    || depth + 1 >= MAX_DEPTH || EndsUseless(log, log1)
  }

  /** Follows a referral: glue addresses, or the looked-up addresses of the delegated hosts, one level
      down. The stages begin with the round that was referred. */
  method Descend(r: Resolver, step: Step, depth: nat, log: seq<Exchange>, ghost stage: Stage,
                 ghost s: nat, ghost h: nat, ghost a: nat)
    returns (out: Outcome, log1: seq<Exchange>, ghost rest: seq<Step>, ghost stages: seq<Stage>)
    requires depth < MAX_DEPTH && Undecided(step)
    requires forall rr <- step.response.answer :: !IsAliasOf(rr, step.goal.target)
    requires StageHolds(r, stage) && stage.goal == step.goal && stage.after == log
    requires stage.response == Some(step.response)
    ensures Continues(r, log, log1) && Concludes(rest, out)
    ensures rest != [] ==> LeadsTo(r, log, log1, step, rest[0].goal) && Walked(r, rest[0].goal, log, log1, rest)
    ensures rest != [] && GlueOf(step.response) == {} ==>
      ServersLookedUp(r, log, log1, step.response, set x <- rest[0].goal.servers)
    ensures rest == [] ==> DescentFails(r, step.response, depth, log, log1)
    ensures Accounts(r, step.goal, stage.before, log1, stages)
    ensures Bounded(r, s, h, a) && BoundedMessage(step.response, s, h, a) ==>
      |log1| <= |log| + (2 * h + 1) * Cost(Left(depth + 1), s, h)
    decreases Left(depth), 0
  {
    hide Continues, Walked, LeadsTo, Bounded, Cost, Undecided, Concludes, EndsUseless, ServersLookedUp, Shortened;
    hide Fqdn, NsNames, GlueOf, IsAliasOf, Accounts, StageHolds, Reached, FromReferral, BoundedMessage;
    out, log1, rest := Failed, log, [];
    NothingYet(r, step.goal, log);
    BoundedRoots(r, s, h, a);
    ghost var c := Cost(Left(depth + 1), s, h);
    var hosts := ReferralNs(step.response);
    HostCount(hosts, step.response, s, h, a, c);
    if |hosts| == 0 {
      AccountsOne(r, stage);
      return out, log1, rest, [stage];
    }
    var next;
    next, log1, stages := ReferredServers(r, hosts, step.response, depth, log, stage, s, h, a);
    if next.None? {
      return;
    }
    ghost var middle, inner := log1, [];
    ReferralFollowed(r, step, stages, log, middle, next.value);
    out, log1, rest, inner := Resolve(r, step.goal.target, step.goal.qtype, step.goal.qclass, next.value, depth + 1,
      step.goal.minLabels + (if Shortened(r, step.goal) then 1 else 0), log1, s, h, a);
    ContinuesTrans(r, log, middle, log1);
    AccountsConcat(r, step.goal, stage.before, middle, log1, stages, Referred(r, step, next.value), inner);
    DescentLater(r, step, log, middle, log1, rest, next.value);
    stages := stages + inner;
  }

  /** The servers a referral leads to: its glue, or else the looked-up addresses of its hosts. */
  method ReferredServers(r: Resolver, hosts: seq<string>, resp: Message, depth: nat, log: seq<Exchange>,
                         ghost stage: Stage, ghost s: nat, ghost h: nat, ghost a: nat)
    returns (next: Option<seq<Server>>, log1: seq<Exchange>, ghost stages: seq<Stage>)
    requires depth < MAX_DEPTH && (set x <- hosts :: CanonicalName(x)) == NsNames(resp)
    requires StageHolds(r, stage) && stage.response == Some(resp) && stage.after == log
    ensures Continues(r, log, log1) && log <= log1
    ensures stages != [] && stages[0] == stage && Accounts(r, stage.goal, stage.before, log1, stages)
    ensures next.None? ==> GlueOf(resp) == {} && ServersLookedUp(r, log, log1, resp, {})
    ensures next.Some? ==> |next.value| > 0 && FromReferral(log, log1, resp, next.value)
    ensures next.Some? && GlueOf(resp) == {} ==> ServersLookedUp(r, log, log1, resp, set x <- next.value)
    ensures Bounded(r, s, h, a) ==> |log1| <= |log| + |hosts| * (2 * Cost(Left(depth + 1), s, h))
    ensures Bounded(r, s, h, a) && BoundedMessage(resp, s, h, a) && next.Some? && |hosts| <= h ==> |next.value| <= s
    decreases Left(depth), 0, 0
  {
    hide Continues, Bounded, Cost, CanonicalName, NsNames, AddressSet, Accounts, StageHolds, AddressHeard;
    hide ServersLookedUp, FoundByAny, LooksUpAll;
    log1, stages := log, [stage];
    ContinuesSelf(r, log);
    AccountsOne(r, stage);
    TimesMonotone(0, |hosts|, 2 * Cost(Left(depth + 1), s, h));
    var glue := CollectAddresses(resp.extra, Some(set x <- hosts :: CanonicalName(x)));
    if |glue| > 0 {
      assert glue[0] in (set x <- glue);
      return Some(glue), log1, stages;
    }
    HostsAreDelegated(hosts, resp);
    ghost var lookups;
    next, log1, stages, lookups := ResolveGlue(r, hosts, depth + 1, log1, stages, s, h, a);
    ContinuesGrows(r, log, log1);
    HostsLookedUp(r, log, log1, resp, hosts, lookups);
    BoundedHosts(r, |hosts|, s, h, a);
  }

  /** The addresses of all delegated hosts, each once: what looking up each of them found. The stages given begin
      with the round that named the hosts and gave no address. */
  method ResolveGlue(r: Resolver, hosts: seq<string>, depth: nat, log: seq<Exchange>, ghost prior: seq<Stage>,
                     ghost s: nat, ghost h: nat, ghost a: nat)
    returns (addrs: Option<seq<Server>>, log1: seq<Exchange>, ghost stages: seq<Stage>, ghost lookups: seq<Lookup>)
    requires Delegates(r, log, prior, hosts)
    ensures Continues(r, log, log1) && LooksUpAll(r, log, log1, hosts, lookups)
    ensures addrs.None? <==> FoundByAny(lookups) == {}
    ensures addrs.Some? ==> |addrs.value| > 0 && (set x <- addrs.value) == FoundByAny(lookups)
    ensures forall x <- FoundByAny(lookups) :: AddressHeard(log, log1, x)
    ensures prior <= stages && Accounts(r, prior[0].goal, prior[0].before, log1, stages)
    ensures Bounded(r, s, h, a) ==> |log1| <= |log| + |hosts| * (2 * Cost(Left(depth), s, h))
    ensures Bounded(r, s, h, a) && addrs.Some? ==> |addrs.value| <= |hosts| * a
    decreases Left(depth), 3
  {
    hide Continues, Bounded, Cost, Accounts, AddressHeard, IsLookup, Found;
    var out: seq<Server> := [];
    log1, stages, lookups := log, prior, [];
    ContinuesSelf(r, log);
    ghost var c := 2 * Cost(Left(depth), s, h);
    for i := 0 to |hosts|
      invariant Continues(r, log, log1) && LooksUpAll(r, log, log1, hosts[..i], lookups)
      invariant (set x <- out) == FoundByAny(lookups)
      invariant forall x <- FoundByAny(lookups) :: AddressHeard(log, log1, x)
      invariant prior <= stages && Delegates(r, log1, stages, hosts)
      invariant Bounded(r, s, h, a) ==> |log1| <= |log| + i * c && |out| <= i * a
    {
      ghost var before := log1;
      ghost var lookup;
      var found;
      found, log1, stages, lookup := ResolveNameserverHost(r, hosts[i], depth, log1, stages, s, h, a);
      LookedUpOneMore(r, log, before, log1, hosts, i, lookups, lookup);
      ContinuesTrans(r, log, before, log1);
      lookups := lookups + [lookup];
      assert (i + 1) * c == i * c + c && (i + 1) * a == i * a + a;
      if found.Some? {
        out := AppendNew(out, found.value);
      }
    }
    assert hosts[..|hosts|] == hosts;
    assert out == [] ==> FoundByAny(lookups) == {};
    assert out != [] ==> out[0] in FoundByAny(lookups);
    addrs := if |out| == 0 then None else Some(out);
  }

  /** The first of the stages delegated to these hosts and gave no address. */
  ghost predicate Delegates(r: Resolver, log: seq<Exchange>, stages: seq<Stage>, hosts: seq<string>) {
    && stages != [] && Accounts(r, stages[0].goal, stages[0].before, log, stages) && stages[0].response.Some?
    && GlueOf(stages[0].response.value) == {}
    && forall host <- hosts :: CanonicalName(host) in NsNames(stages[0].response.value)
  }

  method AppendNew(out: seq<Server>, more: seq<Server>) returns (all: seq<Server>)
    ensures out <= all && |all| <= |out| + |more|
    ensures forall x :: x in all <==> x in out || x in more
  {
    all := out;
    for i := 0 to |more|
      invariant out <= all && |all| <= |out| + i
      invariant forall x :: x in all <==> x in out || x in more[..i]
    {
      if more[i] !in all {
        all := all + [more[i]];
      }
    }
  }

  /** The addresses of one host: its A records, or else its AAAA records. */
  method ResolveNameserverHost(r: Resolver, host: string, depth: nat, log: seq<Exchange>, ghost prior: seq<Stage>,
                               ghost s: nat, ghost h: nat, ghost a: nat)
    returns (addrs: Option<seq<Server>>, log1: seq<Exchange>, ghost stages: seq<Stage>, ghost lookup: Lookup)
    requires Delegates(r, log, prior, [host])
    ensures Continues(r, log, log1) && IsLookup(r, log, log1, host, lookup)
    ensures addrs.None? <==> Found(lookup) == {}
    ensures addrs.Some? ==> |addrs.value| > 0 && (set x <- addrs.value) == Found(lookup)
    ensures forall x <- Found(lookup) :: AddressHeard(log, log1, x)
    ensures prior <= stages && Accounts(r, prior[0].goal, prior[0].before, log1, stages)
    ensures Bounded(r, s, h, a) ==> |log1| <= |log| + 2 * Cost(Left(depth), s, h)
    ensures Bounded(r, s, h, a) && addrs.Some? ==> |addrs.value| <= a
    decreases Left(depth), 2
  {
    hide Continues, Bounded, Cost, Walked, Concludes, Accounts, Reached, GlueOf, NsNames, CanonicalName, Fqdn;
    hide Addresses, AddressHeard;
    BoundedRoots(r, s, h, a);
    var out;
    ghost var steps, inner;
    HostReached(r, log, prior, host, TYPE_A);
    out, log1, steps, inner := Resolve(r, host, TYPE_A, CLASS_INET, r.roots, depth, StartLabels(r), log, s, h, a);
    HostFound(r, HostGoal(r, host, TYPE_A), log, log1, steps, out, s, h, a);
    AccountsConcat(r, prior[0].goal, prior[0].before, log, log1, prior, HostGoal(r, host, TYPE_A), inner);
    stages := prior + inner;
    lookup := Lookup(Walk(log, log1, steps, out), None);
    addrs := AddressTargets(out);
    if addrs.Some? {
      return;
    }
    ghost var middle := log1;
    HostReached(r, log1, stages, host, TYPE_AAAA);
    out, log1, steps, inner := Resolve(r, host, TYPE_AAAA, CLASS_INET, r.roots, depth, StartLabels(r), log1, s, h, a);
    HostFound(r, HostGoal(r, host, TYPE_AAAA), middle, log1, steps, out, s, h, a);
    AccountsConcat(r, prior[0].goal, prior[0].before, middle, log1, stages, HostGoal(r, host, TYPE_AAAA), inner);
    stages := stages + inner;
    lookup := Lookup(lookup.v4, Some(Walk(middle, log1, steps, out)));
    ContinuesTrans(r, log, middle, log1);
    AddressesLater(log, middle, log1, Addresses(out));
    addrs := AddressTargets(out);
  }

  /** The addresses in a successful response, if there are any. */
  method AddressTargets(out: Outcome) returns (addrs: Option<seq<Server>>)
    ensures addrs.None? <==> Addresses(out) == {}
    ensures addrs.Some? ==> (set x <- addrs.value) == Addresses(out) && |addrs.value| == |Addresses(out)| > 0
  {
    hide AddressSet;
    if out.Failed? || out.message.rcode != RCODE_SUCCESS {
      return None;
    }
    var found := CollectAddresses(out.message.answer, None);
    addrs := if |found| == 0 then None else Some(found);
  }

  /** A client's question, asked from the root. */
  method ResolveQuestion(r: Resolver, q: Question, ghost s: nat, ghost h: nat, ghost a: nat)
    returns (out: Outcome, log: seq<Exchange>, ghost steps: seq<Step>, ghost stages: seq<Stage>)
    ensures var g := Goal(Fqdn(q.name), StartLabels(r), r.roots, q.qtype, q.qclass);
      && IsWalk(r, g, Walk([], log, steps, out))
      && Accounts(r, g, [], log, stages)
    ensures if steps == [] then out.Failed? && (r.roots == [] || EndsUseless([], log))
            else Decides(steps[|steps| - 1], out)
    ensures Bounded(r, s, h, a) ==> 2 * h * |log| <= 16 * s * (Power(2 * h + 1, 15) - 1)
  {
    hide IsWalk, Accounts, Bounded, Power, Cost, Decides;
    BoundedRoots(r, s, h, a);
    out, log, steps, stages := Resolve(r, q.name, q.qtype, q.qclass, r.roots, 0, StartLabels(r), [], s, h, a);
    CostClosedForm(15, s, h);
    if Bounded(r, s, h, a) {
      TimesMonotone(|log|, Cost(15, s, h), 2 * h);
    }
  }

  // ---------------------------------------------------------------- steps of the proof

  lemma NothingYet(r: Resolver, g: Goal, log: seq<Exchange>)
    ensures Continues(r, log, log) && Walked(r, g, log, log, []) && Concludes([], Failed)
    ensures Accounts(r, g, log, log, []) && Reached(r, g, [], log, g)
  {
  }

  lemma StageAdded(r: Resolver, g: Goal, log: seq<Exchange>, stages: seq<Stage>, x: Stage)
    requires Accounts(r, g, log, x.before, stages) && StageHolds(r, x) && Reached(r, g, stages, x.before, x.goal)
    ensures Accounts(r, g, log, x.after, stages + [x])
  {
    hide Accounts, StageHolds, Reached;
    AccountsOne(r, x);
    AccountsConcat(r, g, log, x.before, x.after, stages, x.goal, [x]);
  }

  lemma StageStep(r: Resolver, x: Stage, step: Step)
    requires StageHolds(r, x) && x.response == Some(step.response) && x.goal == step.goal
    ensures Heard(r, x.before, x.after, step)
  {
    hide StageAsks, Heard;
  }

  lemma ConcludesNow(steps: seq<Step>, out: Outcome)
    requires steps != []
    requires var last := steps[|steps| - 1]; var matched := Matched(last.response, last.goal.target, last.goal.qtype);
      || (matched != [] && out == Positive(last.response.(rcode := RCODE_SUCCESS, answer := matched)))
      || (matched == [] && IsNegative(last.response) && out == Negative(last.response))
    ensures Concludes(steps, out)
  {
    hide Matched, IsNegative;
  }

  lemma UndecidedNow(steps: seq<Step>, step: Step)
    requires steps != [] && steps[|steps| - 1] == step
    requires Matched(step.response, step.goal.target, step.goal.qtype) == [] && !IsNegative(step.response)
    ensures Undecided(step) && Concludes(steps, Failed)
  {
  }

  lemma ConcludesLater(steps: seq<Step>, rest: seq<Step>, out: Outcome)
    requires Concludes(rest, out) && (rest == [] ==> Concludes(steps, Failed))
    ensures Concludes(steps + rest, out)
  {
    hide StepConcludes;
    if rest == [] {
      assert steps + rest == steps;
    }
  }

  lemma AliasFollowed(r: Resolver, g: Goal, log: seq<Exchange>, stages: seq<Stage>, x: Stage, step: Step,
                      target: string)
    requires Accounts(r, g, log, x.before, stages) && StageHolds(r, x) && Reached(r, g, stages, x.before, x.goal)
    requires x.goal == step.goal && x.response == Some(step.response)
    requires Undecided(step) && IsFirstAlias(step.response, step.goal.target, target)
    ensures var next := Goal(Fqdn(target), StartLabels(r), r.roots, step.goal.qtype, step.goal.qclass);
      && Accounts(r, g, log, x.after, stages + [x]) && Reached(r, g, stages + [x], x.after, next)
      && LeadsTo(r, log, x.after, step, next)
  {
    hide Accounts, StageHolds, Reached, Undecided, IsFirstAlias, Fqdn, LeadsTo;
    StageAdded(r, g, log, stages, x);
    LeadsByAlias(r, log, x.after, step, target);
    LeadsByAlias(r, x.after, x.after, step, target);
    NextReached(r, g, stages + [x], |stages|, x.after,
                Goal(Fqdn(target), StartLabels(r), r.roots, step.goal.qtype, step.goal.qclass));
  }

  lemma NextReached(r: Resolver, g: Goal, stages: seq<Stage>, j: nat, now: seq<Exchange>, goal: Goal)
    requires j < |stages| && stages[j].after <= now && stages[j].response.Some?
    requires LeadsTo(r, stages[j].after, now, Step(stages[j].goal, stages[j].response.value), goal)
    ensures Reached(r, g, stages, now, goal)
  {
    hide LeadsTo;
    assert Follows(r, stages[j], now, goal);
  }

  lemma ReferralFollowed(r: Resolver, step: Step, stages: seq<Stage>, log: seq<Exchange>, middle: seq<Exchange>,
                         servers: seq<Server>)
    requires Undecided(step) && IsReferral(step) && FromReferral(log, middle, step.response, servers)
    requires stages != [] && stages[0].goal == step.goal && stages[0].response == Some(step.response)
    requires stages[0].after == log <= middle
    ensures LeadsTo(r, log, middle, step, Referred(r, step, servers))
    ensures Reached(r, step.goal, stages, middle, Referred(r, step, servers))
  {
    hide Undecided, IsReferral, FromReferral, LeadsTo, Reached, Fqdn, Shortened;
    LeadsByReferral(r, log, middle, step, servers);
    NextReached(r, step.goal, stages, 0, middle, Referred(r, step, servers));
  }

  lemma HostsAreDelegated(hosts: seq<string>, resp: Message)
    requires (set x <- hosts :: CanonicalName(x)) == NsNames(resp)
    ensures forall host <- hosts :: CanonicalName(host) in NsNames(resp)
  {
    hide CanonicalName, NsNames;
    forall host | host in hosts ensures CanonicalName(host) in NsNames(resp) {
      assert CanonicalName(host) in (set x <- hosts :: CanonicalName(x));
    }
  }

  lemma BoundedHosts(r: Resolver, hosts: nat, s: nat, h: nat, a: nat)
    ensures Bounded(r, s, h, a) && hosts <= h ==> hosts * a <= s
  {
    if hosts <= h {
      TimesMonotone(hosts, h, a);
    }
  }

  /** What following a referral may cost. */
  lemma HostCount(hosts: seq<string>, resp: Message, s: nat, h: nat, a: nat, c: nat)
    requires |hosts| == |NsNames(resp)|
    ensures |hosts| == 0 ==> NsNames(resp) == {}
    ensures BoundedMessage(resp, s, h, a) ==>
      |hosts| <= h && |hosts| * (2 * c) + c <= (2 * h + 1) * c && |hosts| * (2 * c) <= (2 * h + 1) * c
  {
    hide NsNames, CanonicalName, AddressSet;
    if |hosts| <= h {
      GlueCost(|hosts|, h, c);
    }
  }

  lemma HostsLookedUp(r: Resolver, log: seq<Exchange>, log1: seq<Exchange>, resp: Message, hosts: seq<string>,
                      lookups: seq<Lookup>)
    requires (set x <- hosts :: CanonicalName(x)) == NsNames(resp) && LooksUpAll(r, log, log1, hosts, lookups)
    ensures ServersLookedUp(r, log, log1, resp, FoundByAny(lookups))
  {
    hide CanonicalName, NsNames, LooksUpAll, FoundByAny;
  }

  lemma DescentLater(r: Resolver, step: Step, log: seq<Exchange>, middle: seq<Exchange>, log1: seq<Exchange>,
                     rest: seq<Step>, servers: seq<Server>)
    requires log <= middle <= log1 && LeadsTo(r, log, middle, step, Referred(r, step, servers))
    requires Walked(r, Referred(r, step, servers), middle, log1, rest)
    ensures LeadsTo(r, log, log1, step, Referred(r, step, servers))
    ensures Walked(r, Referred(r, step, servers), log, log1, rest)
    ensures rest != [] ==> rest[0].goal == Referred(r, step, servers)
    ensures EndsUseless(middle, log1) ==> EndsUseless(log, log1)
    ensures ServersLookedUp(r, log, middle, step.response, set x <- servers) ==>
      ServersLookedUp(r, log, log1, step.response, set x <- servers)
  {
    hide LeadsTo, LooksUpAll, Referred, Heard, Useless, NsNames, CanonicalName, FoundByAny;
    LeadsToLater(r, log, log, middle, log1, step, Referred(r, step, servers));
    WalkedLater(r, Referred(r, step, servers), log, middle, log1, log1, rest);
  }

  lemma LookedUpOneMore(r: Resolver, log: seq<Exchange>, before: seq<Exchange>, log1: seq<Exchange>,
                        hosts: seq<string>, i: nat, lookups: seq<Lookup>, lookup: Lookup)
    requires i < |hosts| && LooksUpAll(r, log, before, hosts[..i], lookups)
    requires IsLookup(r, before, log1, hosts[i], lookup) && Continues(r, log, before) && Continues(r, before, log1)
    requires forall x <- FoundByAny(lookups) :: AddressHeard(log, before, x)
    requires forall x <- Found(lookup) :: AddressHeard(before, log1, x)
    ensures LooksUpAll(r, log, log1, hosts[..i + 1], lookups + [lookup])
    ensures FoundByAny(lookups + [lookup]) == FoundByAny(lookups) + Found(lookup)
    ensures forall x <- FoundByAny(lookups + [lookup]) :: AddressHeard(log, log1, x)
  {
    hide AddressHeard, Found, IsWalk;
    var all, more := hosts[..i + 1], lookups + [lookup];
    assert all[..i] == hosts[..i] && more[..|lookups|] == lookups;
    forall x | x in FoundByAny(more) ensures AddressHeard(log, log1, x) {
      if x in Found(lookup) {
        AddressHeardLater(log, before, log1, log1, x);
      } else {
        AddressHeardLater(log, log, before, log1, x);
      }
    }
  }

  lemma AddressesLater(log: seq<Exchange>, a: seq<Exchange>, b: seq<Exchange>, found: set<Server>)
    requires log <= a <= b && forall x <- found :: AddressHeard(a, b, x)
    ensures forall x <- found :: AddressHeard(log, b, x)
  {
    hide AddressHeard;
    forall x | x in found ensures AddressHeard(log, b, x) {
      AddressHeardLater(log, a, b, b, x);
    }
  }

  lemma HostReached(r: Resolver, log: seq<Exchange>, stages: seq<Stage>, host: string, qtype: Word16)
    requires Delegates(r, log, stages, [host]) && (qtype == TYPE_A || qtype == TYPE_AAAA)
    ensures Reached(r, stages[0].goal, stages, log, HostGoal(r, host, qtype))
  {
    hide GlueOf, NsNames, CanonicalName, StageHolds, Reached, Tiles;
    TilesBounds(stages[0].before, log, stages);
    assert host in [host];
    HostIsReached(r, stages[0].goal, stages, 0, log, host, qtype);
  }

  /** What a host's look-up says about the addresses it found. */
  lemma HostFound(r: Resolver, g: Goal, log: seq<Exchange>, log1: seq<Exchange>, steps: seq<Step>, out: Outcome,
                  s: nat, h: nat, a: nat)
    requires IsWalk(r, g, Walk(log, log1, steps, out))
    ensures forall x <- Addresses(out) :: AddressHeard(log, log1, x)
    ensures Bounded(r, s, h, a) ==> |Addresses(out)| <= a
  {
    hide Continues, Heard, Bounded, AddressSet, CanonicalName, NsNames, LeadsTo, AddressHeard;
    AddressesWereHeard(r, g, log, log1, steps, out);
    if Bounded(r, s, h, a) && !out.Failed? {
      var last := steps[|steps| - 1];
      HeardIsBounded(r, log, log1, last, s, h, a);
      SubsetAddresses(out.message.answer, last.response.answer);
    }
  }

  lemma BoundedRoots(r: Resolver, s: nat, h: nat, a: nat)
    ensures Bounded(r, s, h, a) ==> |r.roots| <= s && h * a <= s
  {
  }

  lemma CostOfLevel(depth: nat, s: nat, h: nat)
    requires depth < MAX_DEPTH
    ensures Cost(Left(depth), s, h) == 16 * s + (2 * h + 1) * Cost(Left(depth + 1), s, h)
  {
  }

  lemma GlueCost(hosts: nat, h: nat, c: nat)
    requires hosts <= h
    ensures hosts * (2 * c) + c <= (2 * h + 1) * c && hosts * (2 * c) <= (2 * h + 1) * c
  {
    TimesMonotone(hosts, h, 2 * c);
    assert h * (2 * c) + c == (2 * h + 1) * c;
  }

  // ---------------------------------------------------------------- soundness of positive answers

  /** Some response after log states that x is an alias whose target is y. */
  ghost predicate Stated(log: seq<Exchange>, log1: seq<Exchange>, x: string, y: string) {
    exists i, rr :: |log| <= i < |log1| && log1[i].response.Some? && rr in log1[i].response.value.answer
      && IsAliasOf(rr, x) && y == Fqdn(rr.data.target)
  }

  /** Each name on the path is the one before it, closed with a dot, or the stated target of its alias. */
  ghost predicate AliasPath(log: seq<Exchange>, log1: seq<Exchange>, path: seq<string>) {
    |path| > 0 && forall i, j :: 0 <= i < j < |path| && j == i + 1 ==>
      path[j] == Fqdn(path[i]) || Stated(log, log1, path[i], path[j])
  }

  /** The response has all these records. */
  predicate Answers(e: Exchange, rrs: seq<RR>) {
    e.response.Some? && forall rr <- rrs :: rr in e.response.value.answer
  }

  function Targets(steps: seq<Step>): seq<string> {
    seq(|steps|, i requires 0 <= i < |steps| => steps[i].goal.target)
  }

  lemma StepIsOnPath(r: Resolver, log: seq<Exchange>, log1: seq<Exchange>, step: Step, g: Goal)
    requires Heard(r, log, log1, step) && LeadsTo(r, log, log1, step, g)
    ensures g.target == Fqdn(step.goal.target) || Stated(log, log1, step.goal.target, g.target)
  {
    hide Shortened, ShortQuestion, Fqdn, CanonicalName, NsNames, Undecided, FromReferral;
    var i :| |log| <= i < |log1| && HeardAt(r, log1[i], step);
    if FollowsAlias(step, g.target) {
      var name := step.goal.target;
      var t :| IsFirstAlias(step.response, name, t) && g.target == Fqdn(t);
      var k :| 0 <= k < |step.response.answer| && FirstAliasAt(step.response, name, k)
        && step.response.answer[k].data.target == t;
      assert step.response.answer[k] in log1[i].response.value.answer;
    }
  }

  /** A positive answer is never empty, holds only records of the asked type, all owned by the end of an
      alias path that starts at the asked name and whose every edge some server stated; and every record
      was in a response. This holds for any network. */
  lemma PositiveAnswerIsSound(r: Resolver, g: Goal, log: seq<Exchange>, log1: seq<Exchange>, steps: seq<Step>,
                              m: Message)
    requires Walked(r, g, log, log1, steps) && Concludes(steps, Positive(m))
    ensures var path := Targets(steps);
      && AliasPath(log, log1, path) && path[0] == g.target
      && m.answer != []
      && forall rr <- m.answer :: rr.rrtype == g.qtype && CanonicalName(rr.name) == CanonicalName(path[|path| - 1])
    ensures exists i :: |log| <= i < |log1| && Answers(log1[i], m.answer)
  {
    hide Heard, LeadsTo, Fqdn, Stated, CanonicalName, IsNegative;
    var path := Targets(steps);
    forall i, j | 0 <= i < j < |path| && j == i + 1
      ensures path[j] == Fqdn(path[i]) || Stated(log, log1, path[i], path[j])
    {
      StepIsOnPath(r, log, log1, steps[i], steps[j].goal);
    }
    var last := steps[|steps| - 1];
    var i := StepWasResponse(r, log, log1, last);
    assert Answers(log1[i], m.answer);
  }

  lemma StepWasResponse(r: Resolver, log: seq<Exchange>, log1: seq<Exchange>, step: Step) returns (i: nat)
    requires Heard(r, log, log1, step)
    ensures |log| <= i < |log1| && log1[i].response == Some(step.response)
  {
    hide Shortened, ShortQuestion;
    i :| |log| <= i < |log1| && HeardAt(r, log1[i], step);
  }
}
