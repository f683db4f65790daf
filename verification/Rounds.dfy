/** The run of an iterative resolution: everything sent and received, the rounds it falls into, and how every round
    is reached from the responses before it. */
module Rounds {
  import opened Wrappers
  import opened Names
  import opened Records
  import opened Filters
  import opened Responses

  // ---------------------------------------------------------------- the log of exchanges

  /** log1 continues log, and the network answered every new exchange. */
  ghost predicate Continues(r: Resolver, log: seq<Exchange>, log1: seq<Exchange>) {
    log <= log1 && forall i :: |log| <= i < |log1| ==>
      log1[i].response == r.network(log1[..i], log1[i].server, log1[i].question)
  }

  lemma ContinuesTrans(r: Resolver, a: seq<Exchange>, b: seq<Exchange>, c: seq<Exchange>)
    requires Continues(r, a, b) && Continues(r, b, c)
    ensures Continues(r, a, c) && a <= b <= c
  {
    forall i | |a| <= i < |c| ensures c[i].response == r.network(c[..i], c[i].server, c[i].question) {
      if i < |b| {
        assert b[i] == c[i] && b[..i] == c[..i];
      }
    }
  }

  lemma ContinuesSelf(r: Resolver, log: seq<Exchange>)
    ensures Continues(r, log, log)
  {
  }

  lemma ContinuesOneMore(r: Resolver, log: seq<Exchange>, log1: seq<Exchange>, server: Server, q: Question)
    requires Continues(r, log, log1)
    ensures Continues(r, log, log1 + [Exchange(server, q, r.network(log1, server, q))])
  {
    var next := log1 + [Exchange(server, q, r.network(log1, server, q))];
    forall i | |log| <= i < |next| ensures next[i].response == r.network(next[..i], next[i].server, next[i].question) {
      if i < |log1| {
        assert next[..i] == log1[..i];
      } else {
        assert next[..i] == log1;
      }
    }
  }

  /** No reply, or SERVFAIL. */
  predicate Useless(e: Exchange) {
    e.response.None? || e.response.value.rcode == RCODE_SERVER_FAILURE
  }

  predicate Refuses(e: Exchange) {
    e.response.Some? && e.response.value.rcode == RCODE_REFUSED
  }

  /** The last exchange, made after log, brought nothing. */
  predicate EndsUseless(log: seq<Exchange>, log1: seq<Exchange>) {
    |log| < |log1| && Useless(log1[|log1| - 1])
  }

  /** Every exchange after log asks one of the servers. */
  predicate AsksAmong(log: seq<Exchange>, log1: seq<Exchange>, servers: seq<Server>) {
    |log| <= |log1| && forall i :: |log| <= i < |log1| ==> log1[i].server in servers
  }

  /** Every exchange after log asks one of the servers for q. */
  predicate AsksOnly(log: seq<Exchange>, log1: seq<Exchange>, q: Question, servers: seq<Server>) {
    AsksAmong(log, log1, servers) && forall i :: |log| <= i < |log1| ==> log1[i].question == q
  }

  /** After log, q is asked first; full is asked only once all servers failed on q, or one refused it. */
  ghost predicate FallsBack(log: seq<Exchange>, log1: seq<Exchange>, q: Question, full: Question,
                            servers: seq<Server>) {
    AsksAmong(log, log1, servers) && exists m :: |log| <= m <= |log1| && FallsBackAt(log, log1, q, full, |servers|, m)
  }

  ghost predicate FallsBackAt(log: seq<Exchange>, log1: seq<Exchange>, q: Question, full: Question, n: nat, m: nat)
    requires |log| <= m <= |log1|
  {
    && (forall i :: |log| <= i < m ==> log1[i].question == q)
    && (forall i :: m <= i < |log1| ==> log1[i].question == full)
    && (m < |log1| ==> GaveUpShort(log, log1, n, m))
  }

  /** By the m-th exchange all n servers had failed, or one had just refused. */
  predicate GaveUpShort(log: seq<Exchange>, log1: seq<Exchange>, n: nat, m: nat)
    requires |log| <= m <= |log1|
  {
    || (m == |log| + n && forall i :: |log| <= i < m ==> Useless(log1[i]))
    || (m > |log| && Refuses(log1[m - 1]))
  }

  // ---------------------------------------------------------------- rounds

  /** What a round is after: a name and type, the labels to disclose and the servers to ask. */
  datatype Goal = Goal(target: string, minLabels: nat, servers: seq<Server>, qtype: Word16, qclass: Word16)

  /** A round and the response it used. */
  datatype Step = Step(goal: Goal, response: Message)

  function ShortQuestion(r: Resolver, g: Goal): Question {
    var (name, asked, _) := QueryParams(r, g.target, g.qtype, g.minLabels);
    Question(name, asked, g.qclass)
  }

  function FullQuestion(g: Goal): Question {
    Question(Fqdn(g.target), g.qtype, g.qclass)
  }

  predicate Shortened(r: Resolver, g: Goal) {
    QueryParams(r, g.target, g.qtype, g.minLabels).2
  }

  /** Some exchange of the round asked one of its servers one of its questions and got this response. */
  ghost predicate Heard(r: Resolver, log: seq<Exchange>, log1: seq<Exchange>, s: Step) {
    exists i :: |log| <= i < |log1| && HeardAt(r, log1[i], s)
  }

  predicate HeardAt(r: Resolver, e: Exchange, s: Step) {
    && e.response == Some(s.response) && e.server in s.goal.servers
    && (e.question == ShortQuestion(r, s.goal) || (Shortened(r, s.goal) && e.question == FullQuestion(s.goal)))
  }

  lemma HeardLater(r: Resolver, log: seq<Exchange>, a: seq<Exchange>, b: seq<Exchange>, c: seq<Exchange>, s: Step)
    requires Heard(r, a, b, s) && log <= a <= b <= c
    ensures Heard(r, log, c, s)
  {
    hide HeardAt;
    var i :| |a| <= i < |b| && HeardAt(r, b[i], s);
    assert c[i] == b[i];
  }

  /** The response neither answers nor denies. */
  predicate Undecided(s: Step) {
    Matched(s.response, s.goal.target, s.goal.qtype) == [] && !IsNegative(s.response)
  }

  /** An answer heard after log has a record with this address. */
  ghost predicate AddressHeard(log: seq<Exchange>, log1: seq<Exchange>, x: Server) {
    exists i :: |log| <= i < |log1| && AnswersAddress(log1[i], x)
  }

  predicate AnswersAddress(e: Exchange, x: Server) {
    e.response.Some? && x in AddressSet(e.response.value.answer, None)
  }

  lemma AddressHeardLater(log: seq<Exchange>, a: seq<Exchange>, b: seq<Exchange>, c: seq<Exchange>, x: Server)
    requires AddressHeard(a, b, x) && log <= a <= b <= c
    ensures AddressHeard(log, c, x)
  {
    hide AnswersAddress;
    var i :| |a| <= i < |b| && AnswersAddress(b[i], x);
    assert c[i] == b[i];
  }

  /** The servers a referral leads to: exactly its glue, or else addresses some answer gave since. */
  ghost predicate FromReferral(log: seq<Exchange>, log1: seq<Exchange>, resp: Message, servers: seq<Server>) {
    if GlueOf(resp) != {} then (set x <- servers) == GlueOf(resp)
    else forall x <- servers :: AddressHeard(log, log1, x)
  }

  predicate SameKind(a: Goal, b: Goal) {
    a.qtype == b.qtype && a.qclass == b.qclass
  }

  /** Where a round leads: an alias restarts at the root with its target; a referral keeps the name, asks the
      delegated servers and discloses one more label if the question was shortened. */
  ghost predicate LeadsTo(r: Resolver, log: seq<Exchange>, log1: seq<Exchange>, s: Step, g: Goal) {
    Undecided(s) && SameKind(s.goal, g) &&
    (|| (FollowsAlias(s, g.target) && g.minLabels == StartLabels(r) && g.servers == r.roots)
     || (IsReferral(s) && g.target == Fqdn(s.goal.target) && FromReferral(log, log1, s.response, g.servers)
         && g.minLabels == s.goal.minLabels + if Shortened(r, s.goal) then 1 else 0))
  }

  ghost predicate FollowsAlias(s: Step, target: string) {
    exists t :: IsFirstAlias(s.response, s.goal.target, t) && target == Fqdn(t)
  }

  predicate IsReferral(s: Step) {
    (forall rr <- s.response.answer :: !IsAliasOf(rr, s.goal.target)) && NsNames(s.response) != {}
  }

  /** The same by the fields of the response. */
  lemma LeadsByFields(r: Resolver, log: seq<Exchange>, log1: seq<Exchange>, s: Step, g: Goal)
    requires LeadsTo(r, log, log1, s, g)
    ensures g.qtype == s.goal.qtype && g.qclass == s.goal.qclass
    ensures AliasLeads(r, s, g) || ReferralLeads(r, s, g)
  {
    hide CanonicalName, Fqdn, Labels, AddressHeard, Undecided;
    if FollowsAlias(s, g.target) && g.minLabels == StartLabels(r) && g.servers == r.roots {
      var t :| IsFirstAlias(s.response, s.goal.target, t) && g.target == Fqdn(t);
      var i :| 0 <= i < |s.response.answer| && FirstAliasAt(s.response, s.goal.target, i)
               && s.response.answer[i].data.target == t;
      assert LeadsAt(s, g, i);
      assert AliasLeads(r, s, g);
    } else {
      var name :| name in NsNames(s.response);
      ReferralByFields(r, log, log1, s, g, name);
    }
  }

  /** A restart: the first CNAME record in the answer that the name owns gives the new name, and the roots are asked
      again, for one label if names are shortened. */
  ghost predicate AliasLeads(r: Resolver, s: Step, g: Goal) {
    && g.servers == r.roots && g.minLabels == (if r.minimize then 1 else 0)
    && exists i :: 0 <= i < |s.response.answer| && LeadsAt(s, g, i)
  }

  predicate LeadsAt(s: Step, g: Goal, i: nat)
    requires i < |s.response.answer|
  {
    var answer := s.response.answer;
    && answer[i].data.CNAME? && CanonicalName(answer[i].name) == CanonicalName(s.goal.target)
    && g.target == Fqdn(answer[i].data.target)
    && forall j :: 0 <= j < i && answer[j].data.CNAME? ==>
         CanonicalName(answer[j].name) != CanonicalName(s.goal.target)
  }

  /** One step down: no CNAME record of the name, an NS record in authority or answer; the name stays and shows one
      label more if it was shown in part. Where the response has glue the servers are just that. */
  ghost predicate ReferralLeads(r: Resolver, s: Step, g: Goal) {
    var resp, t := s.response, Fqdn(s.goal.target);
    && (forall rr <- resp.answer :: rr.data.CNAME? ==> CanonicalName(rr.name) != CanonicalName(s.goal.target))
    && (exists rr <- resp.authority + resp.answer :: rr.data.NS?)
    && g.target == t
    && g.minLabels == s.goal.minLabels + (if r.minimize && 0 < s.goal.minLabels < |Labels(t)| then 1 else 0)
    && ((exists rr <- resp.extra, x :: IsGlue(resp, rr, x)) ==>
          forall x :: x in g.servers <==> exists rr <- resp.extra :: IsGlue(resp, rr, x))
  }

  lemma ReferralByFields(r: Resolver, log: seq<Exchange>, log1: seq<Exchange>, s: Step, g: Goal, name: string)
    requires IsReferral(s) && g.target == Fqdn(s.goal.target) && FromReferral(log, log1, s.response, g.servers)
    requires g.minLabels == s.goal.minLabels + if Shortened(r, s.goal) then 1 else 0
    requires name in NsNames(s.response)
    ensures ReferralLeads(r, s, g)
  {
    hide CanonicalName, Fqdn, Labels, AddressHeard, IsGlue, GlueOf;
    var resp := s.response;
    var ns :| ns in resp.authority + resp.answer && ns.data.NS? && name == CanonicalName(ns.data.host);
    forall rr | rr in resp.answer && rr.data.CNAME? ensures CanonicalName(rr.name) != CanonicalName(s.goal.target) {
      assert !IsAliasOf(rr, s.goal.target);
    }
    if rr, x :| rr in resp.extra && IsGlue(resp, rr, x) {
      GlueMeans(resp, x);
      assert x in GlueOf(resp) && (set y <- g.servers) == GlueOf(resp);
      forall y ensures y in g.servers <==> exists extra <- resp.extra :: IsGlue(resp, extra, y) {
        assert y in g.servers <==> y in GlueOf(resp);
        GlueMeans(resp, y);
      }
    }
  }

  lemma LeadsToLater(r: Resolver, log: seq<Exchange>, a: seq<Exchange>, b: seq<Exchange>, c: seq<Exchange>, s: Step,
                     g: Goal)
    requires LeadsTo(r, a, b, s, g) && log <= a <= b <= c
    ensures LeadsTo(r, log, c, s, g)
  {
    hide AddressHeard, GlueOf, Fqdn, Undecided, Shortened, FollowsAlias, IsReferral;
    if FromReferral(a, b, s.response, g.servers) && GlueOf(s.response) == {} {
      forall x | x in g.servers ensures AddressHeard(log, c, x) {
        AddressHeardLater(log, a, b, c, x);
      }
    }
  }

  lemma LeadsByAlias(r: Resolver, log: seq<Exchange>, log1: seq<Exchange>, s: Step, target: string)
    requires Undecided(s) && IsFirstAlias(s.response, s.goal.target, target)
    ensures LeadsTo(r, log, log1, s, Goal(Fqdn(target), StartLabels(r), r.roots, s.goal.qtype, s.goal.qclass))
  {
    hide IsFirstAlias, Undecided, Fqdn;
  }

  /** Where a referral leads when these servers were found for it. */
  function Referred(r: Resolver, s: Step, servers: seq<Server>): Goal {
    Goal(Fqdn(s.goal.target), s.goal.minLabels + (if Shortened(r, s.goal) then 1 else 0), servers, s.goal.qtype,
         s.goal.qclass)
  }

  lemma LeadsByReferral(r: Resolver, log: seq<Exchange>, log1: seq<Exchange>, s: Step, servers: seq<Server>)
    requires Undecided(s) && IsReferral(s) && FromReferral(log, log1, s.response, servers)
    ensures LeadsTo(r, log, log1, s, Referred(r, s, servers))
  {
    hide IsReferral, Undecided, Fqdn, FromReferral, Shortened;
  }

  // ---------------------------------------------------------------- the walk of one resolution

  /** The rounds that used a response, in order: the first is after g, every response was heard from the network in
      reply to its round, and every round leads to the next. */
  ghost predicate Walked(r: Resolver, g: Goal, log: seq<Exchange>, log1: seq<Exchange>, steps: seq<Step>) {
    && (steps != [] ==> steps[0].goal == g)
    && (forall i :: 0 <= i < |steps| ==> Heard(r, log, log1, steps[i]) && SameKind(steps[i].goal, g))
    && (forall i, j :: 0 <= i < j < |steps| && j == i + 1 ==> LeadsTo(r, log, log1, steps[i], steps[j].goal))
  }

  lemma WalkedLater(r: Resolver, g: Goal, log: seq<Exchange>, a: seq<Exchange>, b: seq<Exchange>, c: seq<Exchange>,
                    steps: seq<Step>)
    requires Walked(r, g, a, b, steps) && log <= a <= b <= c
    ensures Walked(r, g, log, c, steps)
  {
    hide Heard, LeadsTo;
    forall i | 0 <= i < |steps| ensures Heard(r, log, c, steps[i]) {
      HeardLater(r, log, a, b, c, steps[i]);
    }
    forall i, j | 0 <= i < j < |steps| && j == i + 1 ensures LeadsTo(r, log, c, steps[i], steps[j].goal) {
      LeadsToLater(r, log, a, b, c, steps[i], steps[j].goal);
    }
  }

  /** The walk so far has come to this goal. */
  ghost predicate IsAt(r: Resolver, g: Goal, log: seq<Exchange>, log1: seq<Exchange>, steps: seq<Step>, goal: Goal) {
    if steps == [] then goal == g else LeadsTo(r, log, log1, steps[|steps| - 1], goal)
  }

  lemma AppendStep(r: Resolver, g: Goal, log: seq<Exchange>, a: seq<Exchange>, b: seq<Exchange>, steps: seq<Step>,
                   step: Step)
    requires Walked(r, g, log, a, steps) && Heard(r, a, b, step) && log <= a <= b
    requires IsAt(r, g, log, a, steps, step.goal)
    ensures Walked(r, g, log, b, steps + [step])
  {
    hide Heard, LeadsTo;
    WalkedLater(r, g, log, log, a, b, steps);
    HeardLater(r, log, a, b, b, step);
    if steps != [] {
      LeadsToLater(r, log, log, a, b, steps[|steps| - 1], step.goal);
      LeadsToSameKind(r, log, b, steps[|steps| - 1], step.goal);
    }
  }

  lemma LeadsToSameKind(r: Resolver, log: seq<Exchange>, log1: seq<Exchange>, s: Step, g: Goal)
    requires LeadsTo(r, log, log1, s, g)
    ensures SameKind(s.goal, g)
  {
  }

  lemma AppendRest(r: Resolver, g: Goal, log: seq<Exchange>, a: seq<Exchange>, b: seq<Exchange>, steps: seq<Step>,
                   rest: seq<Step>)
    requires Walked(r, g, log, a, steps) && steps != [] && log <= a <= b
    requires rest != [] ==>
      LeadsTo(r, a, b, steps[|steps| - 1], rest[0].goal) && Walked(r, rest[0].goal, a, b, rest)
    ensures Walked(r, g, log, b, steps + rest)
  {
    hide Heard, LeadsTo;
    WalkedLater(r, g, log, log, a, b, steps);
    if rest == [] {
      assert steps + rest == steps;
    } else {
      WalkedLater(r, rest[0].goal, log, a, b, b, rest);
      LeadsToLater(r, log, a, b, b, steps[|steps| - 1], rest[0].goal);
      LeadsToSameKind(r, log, b, steps[|steps| - 1], rest[0].goal);
    }
  }

  datatype Outcome = Positive(message: Message) | Negative(message: Message) | Failed

  /** What the outcome says about the last round. */
  ghost predicate Concludes(steps: seq<Step>, out: Outcome) {
    if steps == [] then out.Failed? else StepConcludes(steps[|steps| - 1], out)
  }

  predicate StepConcludes(last: Step, out: Outcome) {
    var matched := Matched(last.response, last.goal.target, last.goal.qtype);
    match out
    case Positive(m) => matched != [] && m == last.response.(rcode := RCODE_SUCCESS, answer := matched)
    case Negative(m) => matched == [] && m == last.response && IsNegative(m)
    case Failed => Undecided(last)
  }

  /** An answer of the type asked for, owned by the name asked for. */
  predicate IsHit(rr: RR, g: Goal) {
    CanonicalName(rr.name) == CanonicalName(g.target) && rr.rrtype == g.qtype
  }

  /** What a response means for its round, by its fields. Without an error and with a hit it is the answer, and all
      hits are; a name error, or no error and nothing in the answer but an SOA in the authority, is a denial;
      anything else decides nothing. */
  ghost predicate Decides(last: Step, out: Outcome) {
    var resp := last.response;
    var hit := resp.rcode == RCODE_SUCCESS && exists rr <- resp.answer :: IsHit(rr, last.goal);
    var denial := resp.rcode == RCODE_NAME_ERROR
      || (resp.rcode == RCODE_SUCCESS && resp.answer == [] && exists rr <- resp.authority :: rr.data.SOA?);
    match out
    case Positive(m) =>
      && hit && m.rcode == RCODE_SUCCESS && m.authority == resp.authority && m.extra == resp.extra
      && IsSelection(resp.answer, (rr: RR) => IsHit(rr, last.goal), m.answer)
    case Negative(m) => !hit && denial && m == resp
    case Failed => !hit && !denial
  }

  lemma ConclusionDecides(last: Step, out: Outcome)
    requires StepConcludes(last, out)
    ensures Decides(last, out)
  {
    hide CanonicalName;
    var resp, g := last.response, last.goal;
    var keep := (rr: RR) => CanonicalName(rr.name) == CanonicalName(g.target) && rr.rrtype == g.qtype;
    if resp.rcode == RCODE_SUCCESS {
      assert Matched(resp, g.target, g.qtype) == Filter(resp.answer, keep);
      HitsAreMatched(resp.answer, g);
    }
  }

  lemma WalkDecides(steps: seq<Step>, out: Outcome)
    requires Concludes(steps, out)
    ensures if steps == [] then out.Failed? else Decides(steps[|steps| - 1], out)
  {
    hide StepConcludes, Decides;
    if steps != [] {
      ConclusionDecides(steps[|steps| - 1], out);
    }
  }

  lemma HitsAreMatched(answer: seq<RR>, g: Goal)
    ensures var matched := Filter(answer, (rr: RR) => CanonicalName(rr.name) == CanonicalName(g.target)
                                                      && rr.rrtype == g.qtype);
      && IsSelection(answer, (rr: RR) => IsHit(rr, g), matched)
      && (matched != [] <==> exists rr <- answer :: IsHit(rr, g))
  {
    hide CanonicalName;
    var keep := (rr: RR) => CanonicalName(rr.name) == CanonicalName(g.target) && rr.rrtype == g.qtype;
    var hits := Filter(answer, (rr: RR) => IsHit(rr, g));
    FilterSame(answer, keep, (rr: RR) => IsHit(rr, g));
    FilterSelects(answer, (rr: RR) => IsHit(rr, g));
    if hits != [] {
      assert hits[0] in hits;
    }
    if rr :| rr in answer && IsHit(rr, g) {
      FilterHas(answer, (x: RR) => IsHit(x, g), rr);
    }
  }

  /** The addresses in a successful outcome. */
  function Addresses(out: Outcome): set<Server> {
    if out.Failed? || out.message.rcode != RCODE_SUCCESS then {} else AddressSet(out.message.answer, None)
  }

  /** Addresses that a resolution finds were in an answer it heard. */
  lemma AddressesWereHeard(r: Resolver, g: Goal, log: seq<Exchange>, log1: seq<Exchange>, steps: seq<Step>,
                           out: Outcome)
    requires Walked(r, g, log, log1, steps) && Concludes(steps, out)
    ensures forall x <- Addresses(out) :: AddressHeard(log, log1, x)
  {
    hide LeadsTo, AddressOf, CanonicalName, IsNegative;
    if !out.Failed? {
      var last := steps[|steps| - 1];
      var i :| |log| <= i < |log1| && HeardAt(r, log1[i], last);
      forall x | x in Addresses(out) ensures AddressHeard(log, log1, x) {
        assert AnswersAddress(log1[i], x);
      }
    }
  }

  // ---------------------------------------------------------------- the look-up of a server's addresses

  /** One resolution: the log before and after it, its walk and its outcome. */
  datatype Walk = Walk(before: seq<Exchange>, after: seq<Exchange>, steps: seq<Step>, out: Outcome)

  ghost predicate IsWalk(r: Resolver, g: Goal, w: Walk) {
    Continues(r, w.before, w.after) && Walked(r, g, w.before, w.after, w.steps) && Concludes(w.steps, w.out)
  }

  /** The look-up of a host: of its A records, and then of its AAAA records if that found nothing. */
  datatype Lookup = Lookup(v4: Walk, v6: Option<Walk>)

  function HostGoal(r: Resolver, host: string, qtype: Word16): Goal {
    Goal(Fqdn(host), StartLabels(r), r.roots, qtype, CLASS_INET)
  }

  ghost predicate IsLookup(r: Resolver, log: seq<Exchange>, log1: seq<Exchange>, host: string, l: Lookup) {
    && IsWalk(r, HostGoal(r, host, TYPE_A), l.v4) && l.v4.before == log
    && (l.v6.None? <==> Addresses(l.v4.out) != {})
    && (match l.v6
        case None => l.v4.after == log1
        case Some(w) => IsWalk(r, HostGoal(r, host, TYPE_AAAA), w) && w.before == l.v4.after && w.after == log1)
  }

  function Found(l: Lookup): set<Server> {
    match l.v6
    case None => Addresses(l.v4.out)
    case Some(w) => Addresses(w.out)
  }

  function FoundByAny(lookups: seq<Lookup>): set<Server> {
    if |lookups| == 0 then {} else FoundByAny(lookups[..|lookups| - 1]) + Found(lookups[|lookups| - 1])
  }

  /** All the hosts are looked up, one after the other. */
  ghost predicate LooksUpAll(r: Resolver, log: seq<Exchange>, log1: seq<Exchange>, hosts: seq<string>,
                             lookups: seq<Lookup>)
    decreases |hosts|
  {
    if |hosts| == 0 then lookups == [] && log == log1
    else
      |lookups| > 0 &&
      var n, last := |hosts| - 1, lookups[|lookups| - 1];
      && IsLookup(r, last.v4.before, log1, hosts[n], last)
      && LooksUpAll(r, log, last.v4.before, hosts[..n], lookups[..|lookups| - 1])
  }

  /** The servers are what looking up every delegated host found. */
  ghost predicate ServersLookedUp(r: Resolver, log: seq<Exchange>, log1: seq<Exchange>, resp: Message,
                                  servers: set<Server>) {
    exists hosts, lookups, middle ::
      && (set h <- hosts :: CanonicalName(h)) == NsNames(resp) && middle <= log1
      && LooksUpAll(r, log, middle, hosts, lookups) && FoundByAny(lookups) == servers
  }

  // ---------------------------------------------------------------- every exchange has its round

  /** A round of the run: the log before and after it, and the response it used, if any. */
  datatype Stage = Stage(goal: Goal, before: seq<Exchange>, after: seq<Exchange>, response: Option<Message>)

  ghost predicate StageHolds(r: Resolver, x: Stage) {
    && x.before <= x.after && StageAsks(r, x)
    && (x.response.Some? ==> Heard(r, x.before, x.after, Step(x.goal, x.response.value)))
  }

  /** The round asks its servers for the shortened name, and for the whole name only as a fallback. */
  ghost predicate StageAsks(r: Resolver, x: Stage) {
    if Shortened(r, x.goal) then
      FallsBack(x.before, x.after, ShortQuestion(r, x.goal), FullQuestion(x.goal), x.goal.servers)
    else AsksOnly(x.before, x.after, ShortQuestion(r, x.goal), x.goal.servers)
  }

  /** The goal comes from the response of this round: the next round, or the look-up of a delegated host that came
      without an address. */
  ghost predicate Follows(r: Resolver, x: Stage, now: seq<Exchange>, g: Goal) {
    x.after <= now && x.response.Some?
    && (LeadsTo(r, x.after, now, Step(x.goal, x.response.value), g) || IsHostGoal(r, x.response.value, g))
  }

  ghost predicate IsHostGoal(r: Resolver, resp: Message, g: Goal) {
    GlueOf(resp) == {} && (g.qtype == TYPE_A || g.qtype == TYPE_AAAA)
    && exists host :: CanonicalName(host) in NsNames(resp) && g == HostGoal(r, host, g.qtype)
  }

  /** The goal is g itself or follows from a round before. */
  ghost predicate Reached(r: Resolver, g: Goal, stages: seq<Stage>, now: seq<Exchange>, goal: Goal) {
    goal == g || exists j :: 0 <= j < |stages| && Follows(r, stages[j], now, goal)
  }

  /** The rounds follow each other without a gap from log to log1. */
  ghost predicate Tiles(log: seq<Exchange>, log1: seq<Exchange>, stages: seq<Stage>)
    decreases |stages|
  {
    if |stages| == 0 then log == log1
    else stages[0].before == log && stages[0].before <= stages[0].after && Tiles(stages[0].after, log1, stages[1..])
  }

  /** The whole of the log after log: it falls into rounds, each asking what it may ask and each reached from g. */
  ghost predicate Accounts(r: Resolver, g: Goal, log: seq<Exchange>, log1: seq<Exchange>, stages: seq<Stage>) {
    && Tiles(log, log1, stages)
    && (forall k :: 0 <= k < |stages| ==> StageHolds(r, stages[k]))
    && (forall k :: 0 <= k < |stages| ==> Reached(r, g, stages[..k], stages[k].before, stages[k].goal))
  }


  lemma AccountsOne(r: Resolver, x: Stage)
    requires StageHolds(r, x)
    ensures Accounts(r, x.goal, x.before, x.after, [x])
  {
    hide StageAsks, Heard;
    assert [x][1..] == [] && [x][..0] == [] && Tiles(x.after, x.after, []);
    assert Reached(r, x.goal, [], x.before, x.goal);
  }

  lemma {:induction false} TilesConcat(log: seq<Exchange>, middle: seq<Exchange>, log1: seq<Exchange>, a: seq<Stage>,
                                       b: seq<Stage>)
    requires Tiles(log, middle, a) && Tiles(middle, log1, b)
    ensures Tiles(log, log1, a + b)
    decreases |a|
  {
    if |a| == 0 {
      assert a + b == b;
    } else {
      TilesConcat(a[0].after, middle, log1, a[1..], b);
      assert (a + b)[1..] == a[1..] + b;
    }
  }

  lemma {:induction false} TilesBounds(log: seq<Exchange>, log1: seq<Exchange>, stages: seq<Stage>)
    requires Tiles(log, log1, stages)
    ensures log <= log1
    ensures forall k :: 0 <= k < |stages| ==> log <= stages[k].before <= stages[k].after <= log1
    decreases |stages|
  {
    if |stages| > 0 {
      TilesBounds(stages[0].after, log1, stages[1..]);
      assert forall k :: 1 <= k < |stages| ==> stages[k] == stages[1..][k - 1];
    }
  }

  lemma FollowsLater(r: Resolver, x: Stage, now: seq<Exchange>, later: seq<Exchange>, g: Goal)
    requires Follows(r, x, now, g) && now <= later
    ensures Follows(r, x, later, g)
  {
    hide LeadsTo, IsHostGoal;
    var s := Step(x.goal, x.response.value);
    if LeadsTo(r, x.after, now, s, g) {
      LeadsToLater(r, x.after, x.after, now, later, s, g);
    }
  }

  /** What was reached stays reached. */
  lemma ReachedLater(r: Resolver, g: Goal, stages: seq<Stage>, more: seq<Stage>, now: seq<Exchange>,
                     later: seq<Exchange>, goal: Goal)
    requires Reached(r, g, stages, now, goal) && now <= later && stages <= more
    ensures Reached(r, g, more, later, goal)
  {
    hide Follows;
    if goal != g {
      var j :| 0 <= j < |stages| && Follows(r, stages[j], now, goal);
      FollowsLater(r, stages[j], now, later, goal);
      assert more[j] == stages[j];
    }
  }

  /** A part of the run that pursues a goal reached before extends the account. */
  lemma AccountsConcat(r: Resolver, g: Goal, log: seq<Exchange>, middle: seq<Exchange>, log1: seq<Exchange>,
                       a: seq<Stage>, goal: Goal, b: seq<Stage>)
    requires Accounts(r, g, log, middle, a) && Accounts(r, goal, middle, log1, b)
    requires Reached(r, g, a, middle, goal)
    ensures Accounts(r, g, log, log1, a + b)
  {
    hide StageHolds, Reached, Tiles;
    TilesConcat(log, middle, log1, a, b);
    TilesBounds(middle, log1, b);
    var all := a + b;
    forall k | 0 <= k < |all| ensures StageHolds(r, all[k]) && Reached(r, g, all[..k], all[k].before, all[k].goal) {
      if k < |a| {
        assert all[..k] == a[..k];
      } else {
        var i := k - |a|;
        assert all[..k] == a + b[..i] && all[k] == b[i];
        ReachedThrough(r, g, a, middle, goal, b[..i], b[i]);
      }
    }
  }

  lemma ReachedThrough(r: Resolver, g: Goal, a: seq<Stage>, middle: seq<Exchange>, goal: Goal, b: seq<Stage>, x: Stage)
    requires Reached(r, g, a, middle, goal) && Reached(r, goal, b, x.before, x.goal) && middle <= x.before
    ensures Reached(r, g, a + b, x.before, x.goal)
  {
    hide Follows;
    if x.goal == goal {
      ReachedLater(r, g, a, a + b, middle, x.before, goal);
    } else {
      var j :| 0 <= j < |b| && Follows(r, b[j], x.before, x.goal);
      assert (a + b)[|a| + j] == b[j];
    }
  }

  /** The look-up of a delegated host without an address follows from the round that delegated to it. */
  lemma HostIsReached(r: Resolver, g: Goal, stages: seq<Stage>, j: nat, now: seq<Exchange>, host: string, qtype: Word16)
    requires j < |stages| && stages[j].after <= now && stages[j].response.Some?
    requires GlueOf(stages[j].response.value) == {} && CanonicalName(host) in NsNames(stages[j].response.value)
    requires qtype == TYPE_A || qtype == TYPE_AAAA
    ensures Reached(r, g, stages, now, HostGoal(r, host, qtype))
  {
    hide GlueOf, NsNames, CanonicalName, LeadsTo;
    assert IsHostGoal(r, stages[j].response.value, HostGoal(r, host, qtype));
    assert Follows(r, stages[j], now, HostGoal(r, host, qtype));
  }

  // ---------------------------------------------------------------- what every query discloses

  lemma {:induction false} StageOf(log: seq<Exchange>, log1: seq<Exchange>, stages: seq<Stage>, i: nat) returns (k: nat)
    requires Tiles(log, log1, stages) && |log| <= i < |log1|
    ensures k < |stages| && |stages[k].before| <= i < |stages[k].after| <= |log1| && stages[k].after[i] == log1[i]
    decreases |stages|
  {
    TilesBounds(log, log1, stages);
    if i < |stages[0].after| {
      k := 0;
    } else {
      var rest := StageOf(stages[0].after, log1, stages[1..], i);
      k := rest + 1;
    }
  }

  /** Every round discloses at least one label. */
  lemma {:induction false} StagesDisclose(r: Resolver, g: Goal, log: seq<Exchange>, log1: seq<Exchange>,
                                          stages: seq<Stage>, k: nat)
    requires Accounts(r, g, log, log1, stages) && k < |stages| && r.minimize && g.minLabels > 0
    ensures stages[k].goal.minLabels > 0
    decreases k
  {
    hide StageHolds, Tiles, IsHostGoal, Shortened, FollowsAlias, IsReferral, Undecided, FromReferral;
    if stages[k].goal != g {
      assert Reached(r, g, stages[..k], stages[k].before, stages[k].goal);
      var j :| 0 <= j < k && Follows(r, stages[..k][j], stages[k].before, stages[k].goal);
      assert stages[..k][j] == stages[j];
      StagesDisclose(r, g, log, log1, stages, j);
      HostGoalDiscloses(r, stages[j].response.value, stages[k].goal);
    }
  }

  lemma HostGoalDiscloses(r: Resolver, resp: Message, g: Goal)
    ensures IsHostGoal(r, resp, g) && r.minimize ==> g.minLabels == 1
  {
    hide GlueOf, NsNames, CanonicalName;
  }

  /** The i-th exchange, made in this round, asked one of its servers: either for exactly the last minLabels labels
      of its target, with type NS, or for the whole target; and for more than that many labels only once all its
      servers had failed on the shortened name, or one had just refused it. */
  ghost predicate Discloses(x: Stage, i: nat)
    requires |x.before| <= i < |x.after|
  {
    var e, labels, least := x.after[i], Labels(x.goal.target), x.goal.minLabels;
    && e.server in x.goal.servers && e.question.qclass == x.goal.qclass
    && (|| (least < |labels| && Labels(e.question.name) == labels[|labels| - least..] && e.question.qtype == TYPE_NS)
        || (e.question.name == x.goal.target && e.question.qtype == x.goal.qtype
            && (least >= |labels| || exists m :: |x.before| <= m <= i && GaveUpShort(x.before, x.after,
                                                                                     |x.goal.servers|, m))))
  }

  lemma StageDiscloses(r: Resolver, x: Stage, i: nat)
    requires StageHolds(r, x) && |x.before| <= i < |x.after| && r.minimize && x.goal.minLabels > 0
    requires IsFqdn(x.goal.target) && "" !in Labels(x.goal.target)
    ensures Discloses(x, i)
  {
    hide Labels, IsFqdn, QueryParams, GaveUpShort, Heard;
    var g := x.goal;
    QueryDisclosesSuffix(r, g.target, g.qtype, g.minLabels);
    FqdnIsFqdn(g.target);
    if Shortened(r, g) {
      var m :| |x.before| <= m <= |x.after|
        && FallsBackAt(x.before, x.after, ShortQuestion(r, g), FullQuestion(g), |g.servers|, m);
    }
  }

  /** What minimisation promises for a whole resolution (section 2 of RFC 7816): every query that is sent, to
      whatever server and in whatever round, belongs to a round that is reached from the question by responses, and
      discloses to that round's servers only the labels of the round, but for the fallback. */
  lemma EveryQueryDisclosesSuffix(r: Resolver, g: Goal, log: seq<Exchange>, log1: seq<Exchange>, stages: seq<Stage>,
                                  i: nat) returns (k: nat)
    requires Accounts(r, g, log, log1, stages) && |log| <= i < |log1| && r.minimize && g.minLabels > 0
    ensures k < |stages| && |stages[k].before| <= i < |stages[k].after| <= |log1| && stages[k].after[i] == log1[i]
    ensures Reached(r, g, stages[..k], stages[k].before, stages[k].goal)
    ensures IsFqdn(stages[k].goal.target) && "" !in Labels(stages[k].goal.target) ==> Discloses(stages[k], i)
  {
    hide Tiles, StageHolds, Reached, Discloses, Labels, IsFqdn;
    k := StageOf(log, log1, stages, i);
    StagesDisclose(r, g, log, log1, stages, k);
    if IsFqdn(stages[k].goal.target) && "" !in Labels(stages[k].goal.target) {
      StageDiscloses(r, stages[k], i);
    }
  }
}
