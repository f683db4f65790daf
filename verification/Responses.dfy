/** What the iterative resolver asks for and what it reads in a response. */
module Responses {
  import opened Wrappers
  import opened Names
  import opened Records

  type Server = string

  /** One query sent to one server: None stands for an error, a timeout or an empty reply. */
  datatype Exchange = Exchange(server: Server, question: Question, response: Option<Message>)

  type Network = (seq<Exchange>, Server, Question) -> Option<Message>

  datatype Resolver = Resolver(network: Network, roots: seq<Server>, minimize: bool)

  // ---------------------------------------------------------------- what is asked

  function StartLabels(r: Resolver): nat {
    if r.minimize then 1 else 0
  }

  /** The last labelCount labels of a name. */
  function MinimizedName(fqdn: string, labelCount: nat): string {
    var labels := Labels(Fqdn(fqdn));
    if labelCount == 0 || labelCount >= |labels| then Fqdn(fqdn)
    else Fqdn(JoinDots(labels[|labels| - labelCount..]))
  }

  /** The name and type to ask for on the way to target, and whether the name is shortened. */
  function QueryParams(r: Resolver, target: string, qtype: Word16, minLabels: nat): (string, Word16, bool) {
    var t := Fqdn(target);
    if !r.minimize || minLabels == 0 || minLabels >= |Labels(t)| then (t, qtype, false)
    else (MinimizedName(t, minLabels), TYPE_NS, true)
  }

  /** What minimisation promises (section 2 of RFC 7816): with it on, a query discloses exactly the last
      min(minLabels, total) labels of the target and asks for NS unless it asks for the whole name. */
  lemma QueryDisclosesSuffix(r: Resolver, target: string, qtype: Word16, minLabels: nat)
    requires r.minimize && minLabels > 0
    requires IsFqdn(target) && "" !in Labels(target)
    ensures var (name, asked, minimized) := QueryParams(r, target, qtype, minLabels);
      var labels := Labels(target);
      && (minLabels >= |labels| ==> name == target && asked == qtype && !minimized)
      && (minLabels < |labels| ==>
            Labels(name) == labels[|labels| - minLabels..] && asked == TYPE_NS && minimized)
  {
    hide Labels, IsFqdn;
    FqdnIsFqdn(target);
    if minLabels < |Labels(target)| {
      LabelsOfSuffix(target, |Labels(target)| - minLabels);
    }
  }

  lemma FqdnIsFqdn(s: string)
    ensures IsFqdn(s) ==> Fqdn(s) == s
  {
  }

  // ---------------------------------------------------------------- reading a response

  /** The answers that own the asked name and type. */
  function Matched(resp: Message, qname: string, qtype: Word16): seq<RR> {
    if resp.rcode != RCODE_SUCCESS then []
    else Filter(resp.answer, (rr: RR) => CanonicalName(rr.name) == CanonicalName(qname) && rr.rrtype == qtype)
  }

  predicate IsNegative(resp: Message) {
    resp.rcode == RCODE_NAME_ERROR
    || (resp.rcode == RCODE_SUCCESS && resp.answer == [] && exists rr <- resp.authority :: rr.data.SOA?)
  }

  predicate IsAliasOf(rr: RR, qname: string) {
    rr.data.CNAME? && CanonicalName(rr.name) == CanonicalName(qname)
  }

  /** target is what the first alias of qname in the answer leads to. */
  ghost predicate IsFirstAlias(resp: Message, qname: string, target: string) {
    exists i :: 0 <= i < |resp.answer| && FirstAliasAt(resp, qname, i) && resp.answer[i].data.target == target
  }

  predicate FirstAliasAt(resp: Message, qname: string, i: nat)
    requires i < |resp.answer|
    ensures FirstAliasAt(resp, qname, i) ==> resp.answer[i].data.CNAME?
  {
    IsAliasOf(resp.answer[i], qname) && forall j :: 0 <= j < i ==> !IsAliasOf(resp.answer[j], qname)
  }

  /** The target of the first alias of qname in the answer. */
  method CnameTarget(resp: Message, qname: string) returns (target: Option<string>)
    ensures target.None? <==> forall rr <- resp.answer :: !IsAliasOf(rr, qname)
    ensures target.Some? ==> IsFirstAlias(resp, qname, target.value)
  {
    hide CanonicalName, IsAliasOf;
    for i := 0 to |resp.answer|
      invariant forall j :: 0 <= j < i ==> !IsAliasOf(resp.answer[j], qname)
    {
      if IsAliasOf(resp.answer[i], qname) {
        assert FirstAliasAt(resp, qname, i);
        return Some(resp.answer[i].data.target);
      }
    }
    return None;
  }

  method MatchedAnswers(resp: Message, qname: string, qtype: Word16) returns (matched: seq<RR>)
    ensures matched == Matched(resp, qname, qtype)
  {
    hide CanonicalName;
    matched := [];
    if resp.rcode != RCODE_SUCCESS {
      return;
    }
    ghost var keep := (rr: RR) => CanonicalName(rr.name) == CanonicalName(qname) && rr.rrtype == qtype;
    for i := 0 to |resp.answer|
      invariant matched == Filter(resp.answer[..i], keep)
    {
      assert resp.answer[..i + 1] == resp.answer[..i] + [resp.answer[i]];
      FilterOfConcat(resp.answer[..i], [resp.answer[i]], keep);
      if CanonicalName(resp.answer[i].name) == CanonicalName(qname) && resp.answer[i].rrtype == qtype {
        matched := matched + [resp.answer[i]];
      }
    }
    assert resp.answer[..|resp.answer|] == resp.answer;
  }

  /** The canonical names of the servers a response delegates to. */
  function NsNames(resp: Message): set<string> {
    set rr <- resp.authority + resp.answer | rr.data.NS? :: CanonicalName(rr.data.host)
  }

  /** The delegated servers, each once, in order of appearance. */
  method ReferralNs(resp: Message) returns (hosts: seq<string>)
    ensures |hosts| == |NsNames(resp)|
    ensures (set h <- hosts :: CanonicalName(h)) == NsNames(resp)
  {
    hide CanonicalName;
    var all := resp.authority + resp.answer;
    hosts := [];
    var seen: set<string> := {};
    for i := 0 to |all|
      invariant seen == set rr <- all[..i] | rr.data.NS? :: CanonicalName(rr.data.host)
      invariant seen == (set h <- hosts :: CanonicalName(h)) && |hosts| == |seen|
    {
      var rr := all[i];
      assert all[..i + 1] == all[..i] + [rr];
      if rr.data.NS? {
        var name := CanonicalName(rr.data.host);
        if name !in seen {
          seen := seen + {name};
          assert forall h :: h in hosts + [rr.data.host] <==> h in hosts || h == rr.data.host;
          hosts := hosts + [rr.data.host];
        }
      }
    }
    assert all[..|all|] == all;
  }

  function HostPort(text: string): Server {
    if ':' in text then "[" + text + "]:53" else text + ":53"
  }

  /** Where a server is asked: at port 53, an address with colons in brackets. */
  lemma HostPortForms()
    ensures HostPort("192.0.2.1") == "192.0.2.1:53" && HostPort("2001:db8::1") == "[2001:db8::1]:53"
  {
    assert "2001:db8::1"[4] == ':';
  }

  /** So no two addresses are confused. */
  lemma HostPortIsInjective(a: string, b: string)
    requires (a != "" ==> a[0] != '[') && (b != "" ==> b[0] != '[') && HostPort(a) == HostPort(b)
    ensures a == b
  {
    var s := HostPort(a);
    HostPortStart(a);
    HostPortStart(b);
    if ':' in a {
      assert ("[" + a + "]:53")[1..|s| - 4] == a && ("[" + b + "]:53")[1..|s| - 4] == b;
    } else {
      assert (a + ":53")[..|s| - 3] == a && (b + ":53")[..|s| - 3] == b;
    }
  }

  lemma HostPortStart(a: string)
    requires a != "" ==> a[0] != '['
    ensures HostPort(a) != "" && (HostPort(a)[0] == '[' <==> ':' in a)
  {
  }

  function AddressOf(rr: RR): Option<Server> {
    match rr.data
    case A(Address(text)) => Some(HostPort(text))
    case AAAA(Address(text)) => Some(HostPort(text))
    case _ => None
  }

  predicate IsWanted(rr: RR, wanted: Option<set<string>>) {
    (wanted.Some? ==> CanonicalName(rr.name) in wanted.value) && AddressOf(rr).Some?
  }

  /** The addresses in a section that belong to one of the wanted names, or to any name. */
  function AddressSet(section: seq<RR>, wanted: Option<set<string>>): set<Server> {
    set rr <- section | IsWanted(rr, wanted) :: AddressOf(rr).value
  }

  /** The addresses a referral gives for the servers it names, and for no others. */
  function GlueOf(resp: Message): set<Server> {
    AddressSet(resp.extra, Some(NsNames(resp)))
  }

  /** Glue is the addresses, A or AAAA, of the additional section whose owner some NS record of authority or answer
      names. */
  lemma GlueMeans(resp: Message, x: Server)
    ensures x in GlueOf(resp) <==> exists rr <- resp.extra :: IsGlue(resp, rr, x)
  {
    hide CanonicalName, HostPort;
    if rr :| rr in resp.extra && IsGlue(resp, rr, x) {
      var ns :| ns in resp.authority + resp.answer && ns.data.NS?
                && CanonicalName(ns.data.host) == CanonicalName(rr.name);
      assert CanonicalName(rr.name) in NsNames(resp);
      assert IsWanted(rr, Some(NsNames(resp))) && AddressOf(rr).value == x;
    }
    if x in GlueOf(resp) {
      var rr :| rr in resp.extra && IsWanted(rr, Some(NsNames(resp))) && AddressOf(rr).value == x;
      assert IsGlue(resp, rr, x);
    }
  }

  predicate IsGlue(resp: Message, rr: RR, x: Server) {
    && (|| (rr.data.A? && rr.data.addr.Address? && x == HostPort(rr.data.addr.text))
        || (rr.data.AAAA? && rr.data.addr.Address? && x == HostPort(rr.data.addr.text)))
    && exists ns <- resp.authority + resp.answer ::
         ns.data.NS? && CanonicalName(ns.data.host) == CanonicalName(rr.name)
  }

  lemma AddressSetOneMore(section: seq<RR>, rr: RR, wanted: Option<set<string>>)
    ensures AddressSet(section + [rr], wanted)
         == AddressSet(section, wanted) + if IsWanted(rr, wanted) then {AddressOf(rr).value} else {}
  {
    hide CanonicalName, AddressOf;
    assert forall x :: x in section + [rr] <==> x in section || x == rr;
  }

  /** The loop shared by glue and address answers: each address once. */
  method CollectAddresses(section: seq<RR>, wanted: Option<set<string>>) returns (out: seq<Server>)
    ensures (set a <- out) == AddressSet(section, wanted) && |out| == |AddressSet(section, wanted)|
  {
    hide AddressSet, CanonicalName, AddressOf;
    out := [];
    NoAddresses(wanted);
    for i := 0 to |section|
      invariant AddressSet(section[..i], wanted) == (set a <- out) && |out| == |AddressSet(section[..i], wanted)|
    {
      var rr := section[i];
      assert section[..i + 1] == section[..i] + [rr];
      AddressSetOneMore(section[..i], rr, wanted);
      if IsWanted(rr, wanted) {
        var addr := AddressOf(rr).value;
        if addr !in out {
          assert forall x :: x in out + [addr] <==> x in out || x == addr;
          out := out + [addr];
        }
      }
    }
    assert section[..|section|] == section;
  }

  lemma NoAddresses(wanted: Option<set<string>>)
    ensures AddressSet([], wanted) == {}
  {
  }
}
