/** Named access lists that refer to each other. A depth-first walk accepts a set of lists exactly when
    every reference is defined and no list refers to itself through others; acceptance is what makes the
    recursive matcher stop. */
module AccessLists {
  import opened Arithmetic

  /** An address with its width in bits: 32 or 128. */
  datatype Addr = Addr(width: nat, value: nat)

  datatype Entry =
    | Prefix(base: Addr, length: nat)
    | Named(name: string)
    | AnyClient
    | NoClient
    | Localhost

  type MatchList = seq<Entry>
  type Lists = map<string, MatchList>

  // ---------------------------------------------------------------- the reference graph

  /** List a is defined and has an entry naming b. */
  predicate Refers(named: Lists, a: string, b: string) {
    a in named && Named(b) in named[a]
  }

  ghost predicate AllDefined(named: Lists) {
    forall a, b :: Refers(named, a, b) ==> b in named
  }

  ghost predicate IsPath(named: Lists, p: seq<string>) {
    forall i, j :: 0 <= i < j < |p| && j == i + 1 ==> Refers(named, p[i], p[j])
  }

  ghost predicate IsCycle(named: Lists, p: seq<string>) {
    |p| >= 2 && p[0] == p[|p| - 1] && IsPath(named, p)
  }

  ghost predicate Acyclic(named: Lists) {
    forall p :: !IsCycle(named, p)
  }

  /** Every list in order refers only to lists placed before it. */
  ghost predicate Ordered(named: Lists, order: seq<string>) {
    forall i, b :: 0 <= i < |order| && Refers(named, order[i], b) ==> b in order[..i]
  }

  datatype Verdict = Accepted | Undefined(name: string) | Circular(name: string)

  /** What a rejection witnesses. */
  ghost predicate Justified(named: Lists, v: Verdict) {
    match v
    case Accepted => true
    case Undefined(name) => exists a :: Refers(named, a, name) && name !in named
    case Circular(name) => exists p :: IsCycle(named, p) && p[0] == name
  }

  /** One visit of the walk. The stack is the chain of lists being visited; order lists the finished
      ones, each after everything it refers to. */
  method Walk(named: Lists, name: string, visiting: set<string>, visited: set<string>, ghost stack: seq<string>,
              ghost order: seq<string>)
    returns (verdict: Verdict, visiting1: set<string>, visited1: set<string>, ghost order1: seq<string>)
    requires visiting == (set n <- stack) && visited == (set n <- order)
    requires visiting <= named.Keys && visited <= named.Keys
    requires IsPath(named, stack + [name]) && (stack == [] ==> name in named)
    requires Ordered(named, order)
    ensures verdict.Accepted? ==>
      && visiting1 == visiting && visited1 == (set n <- order1) && visited + {name} <= visited1 <= named.Keys
      && Ordered(named, order1)
    ensures Justified(named, verdict)
    decreases named.Keys - visiting
  {
    hide IsPath, Ordered, Justified, Refers;
    verdict, visiting1, visited1, order1 := Accepted, visiting, visited, order;
    AcceptedJustified(named);
    if name in visited {
      return;
    }
    if name in visiting {
      CycleOnStack(named, stack, name);
      verdict := Circular(name);
      return;
    }
    if name !in named {
      UndefinedOnStack(named, stack, name);
      verdict := Undefined(name);
      return;
    }
    ghost var inner := stack + [name];
    visiting1 := visiting + {name};
    assert visiting1 == set n <- inner;
    assert name in named.Keys - visiting;
    for i := 0 to |named[name]|
      invariant verdict.Accepted? && visiting1 == visiting + {name}
      invariant visited1 == (set n <- order1) && visited <= visited1 <= named.Keys
      invariant Ordered(named, order1)
      invariant forall j :: 0 <= j < i && named[name][j].Named? ==> named[name][j].name in visited1
    {
      var entry := named[name][i];
      if entry.Named? {
        RefersByEntry(named, name, i);
        ExtendPath(named, inner, entry.name);
        verdict, visiting1, visited1, order1 := Walk(named, entry.name, visiting1, visited1, inner, order1);
        if !verdict.Accepted? {
          return;
        }
      }
    }
    visiting1 := visiting;
    visited1 := visited1 + {name};
    Finish(named, order1, name);
    order1 := order1 + [name];
  }

  lemma AcceptedJustified(named: Lists)
    ensures Justified(named, Accepted)
  {
  }

  lemma RefersByEntry(named: Lists, name: string, i: nat)
    requires name in named && i < |named[name]| && named[name][i].Named?
    ensures Refers(named, name, named[name][i].name)
  {
  }

  lemma UndefinedOnStack(named: Lists, stack: seq<string>, name: string)
    requires IsPath(named, stack + [name]) && stack != [] && name !in named
    ensures Justified(named, Undefined(name))
  {
    var whole := stack + [name];
    assert Refers(named, whole[|stack| - 1], whole[|stack|]);
  }

  lemma ExtendPath(named: Lists, p: seq<string>, b: string)
    requires |p| > 0 && IsPath(named, p) && Refers(named, p[|p| - 1], b)
    ensures IsPath(named, p + [b])
  {
  }

  lemma CycleOnStack(named: Lists, stack: seq<string>, name: string)
    requires IsPath(named, stack + [name]) && name in stack
    ensures Justified(named, Circular(name))
  {
    var k :| 0 <= k < |stack| && stack[k] == name;
    var whole := stack + [name];
    var p := whole[k..];
    forall i, j | 0 <= i < j < |p| && j == i + 1 ensures Refers(named, p[i], p[j]) {
      assert Refers(named, whole[k + i], whole[k + j]);
    }
    assert IsCycle(named, p);
  }

  lemma Finish(named: Lists, order: seq<string>, name: string)
    requires Ordered(named, order) && name in named
    requires forall j :: 0 <= j < |named[name]| && named[name][j].Named? ==> named[name][j].name in order
    ensures Ordered(named, order + [name])
  {
    var longer := order + [name];
    forall i, b | 0 <= i < |longer| && Refers(named, longer[i], b) ensures b in longer[..i] {
      if i < |order| {
        assert longer[..i] == order[..i] && Refers(named, order[i], b);
      } else {
        assert longer[..i] == order;
        var j :| 0 <= j < |named[name]| && named[name][j] == Named(b);
      }
    }
  }

  /** Accepts a map of lists, visiting its names in any order. */
  method ResolveNamedReferences(named: Lists) returns (verdict: Verdict, ghost order: seq<string>)
    ensures verdict.Accepted? <==> AllDefined(named) && Acyclic(named)
    ensures verdict.Accepted? ==> Ordered(named, order) && named.Keys == set n <- order
    ensures Justified(named, verdict)
  {
    var visiting: set<string>, visited: set<string> := {}, {};
    order := [];
    var todo := named.Keys;
    while todo != {}
      invariant visiting == {} && todo <= named.Keys
      invariant visited == (set n <- order) && named.Keys - todo <= visited <= named.Keys
      invariant Ordered(named, order)
    {
      var name :| name in todo;
      todo := todo - {name};
      assert IsPath(named, [] + [name]);
      verdict, visiting, visited, order := Walk(named, name, visiting, visited, [], order);
      if !verdict.Accepted? {
        RejectionIsRight(named, verdict);
        return;
      }
    }
    verdict := Accepted;
    AcceptanceIsRight(named, order);
  }

  lemma RejectionIsRight(named: Lists, v: Verdict)
    requires Justified(named, v) && !v.Accepted?
    ensures !(AllDefined(named) && Acyclic(named))
  {
  }

  lemma AcceptanceIsRight(named: Lists, order: seq<string>)
    requires Ordered(named, order) && named.Keys == set n <- order
    ensures AllDefined(named) && Acyclic(named)
  {
    forall a, b | Refers(named, a, b) ensures b in named {
      assert a in order;
      var i :| 0 <= i < |order| && order[i] == a;
      assert b in order[..i];
    }
    forall p ensures !IsCycle(named, p) {
      if IsCycle(named, p) {
        assert Refers(named, p[0], p[1]) && p[0] in order;
        var first := FirstIndex(order, p[0]);
        PathDescends(named, order, p, first);
      }
    }
  }

  /** The first position of a name. */
  lemma FirstIndex(order: seq<string>, n: string) returns (i: nat)
    requires n in order
    ensures i < |order| && order[i] == n && n !in order[..i]
  {
    i :| 0 <= i < |order| && order[i] == n;
    while n in order[..i]
      invariant i < |order| && order[i] == n
      decreases i
    {
      var j :| 0 <= j < i && order[..i][j] == n;
      i := j;
    }
  }

  /** Along a path of length two or more the first position in the order falls. */
  lemma {:induction false} PathDescends(named: Lists, order: seq<string>, p: seq<string>, i: nat)
    requires Ordered(named, order) && |p| >= 2 && IsPath(named, p)
    requires i < |order| && order[i] == p[0]
    ensures p[|p| - 1] in order[..i]
    decreases |p|
  {
    assert Refers(named, order[i], p[1]);
    assert p[1] in order[..i];
    if |p| > 2 {
      var j :| 0 <= j < i && order[..i][j] == p[1];
      var rest := p[1..];
      forall a, b | 0 <= a < b < |rest| && b == a + 1 ensures Refers(named, rest[a], rest[b]) {
        assert Refers(named, p[a + 1], p[b + 1]);
      }
      PathDescends(named, order, rest, j);
      assert order[..j] <= order[..i];
    }
  }

  // ---------------------------------------------------------------- matching

  /** Same family and equal leading bits. */
  predicate InPrefix(base: Addr, length: nat, addr: Addr) {
    && base.width == addr.width && length <= addr.width
    && base.value / Pow2(addr.width - length) == addr.value / Pow2(addr.width - length)
  }

  /** 127.0.0.0/8, or ::1. */
  predicate IsLocalhost(addr: Addr) {
    if addr.width == 32 then addr.value / 0x100_0000 == 127 else addr.value == 1
  }

  /** Bit i of an address, counted from the most significant one. */
  function BitAt(addr: Addr, i: nat): nat
    requires i < addr.width
  {
    addr.value / Pow2(addr.width - 1 - i) % 2
  }

  lemma HalvedBit(v: nat, p: nat)
    requires p > 0
    ensures v / p == 2 * (v / (2 * p)) + v / p % 2
  {
    var q := v / p;
    assert v == p * q + v % p;
    QuotientOfDouble(v, p, q, v % p);
  }

  lemma QuotientOfDouble(v: nat, p: nat, q: nat, r: nat)
    requires p > 0 && v == p * q + r && r < p
    ensures v / (2 * p) == q / 2
  {
    var h, b := q / 2, q % 2;
    assert q == 2 * h + b;
    assert p * q == 2 * p * h + p * b;
    assert p * b <= p;
    QuotientIs(v, 2 * p, h, p * b + r);
  }

  lemma {:induction false} SameBits(a: Addr, b: Addr, n: nat)
    requires a.width == b.width && n <= a.width && a.value / Pow2(a.width) == b.value / Pow2(a.width)
    ensures a.value / Pow2(a.width - n) == b.value / Pow2(a.width - n)
       <==> forall i :: 0 <= i < n ==> BitAt(a, i) == BitAt(b, i)
    decreases n
  {
    if n > 0 {
      var p := Pow2(a.width - n);
      assert Pow2(a.width - (n - 1)) == 2 * p;
      SameBits(a, b, n - 1);
      HalvedBit(a.value, p);
      HalvedBit(b.value, p);
      assert BitAt(a, n - 1) == a.value / p % 2 && BitAt(b, n - 1) == b.value / p % 2;
      if a.value / p == b.value / p {
        assert a.value / (2 * p) == b.value / (2 * p);
      }
    }
  }

  /** An address is in a prefix exactly if it is of the same family and its leading bits are those of the prefix. */
  lemma InPrefixMeansBits(base: Addr, length: nat, addr: Addr)
    requires base.value < Pow2(base.width) && addr.value < Pow2(addr.width)
    ensures InPrefix(base, length, addr)
       <==> base.width == addr.width && length <= base.width
            && forall i :: 0 <= i < length ==> BitAt(base, i) == BitAt(addr, i)
  {
    hide BitAt;
    if base.width == addr.width && length <= base.width {
      QuotientIs(base.value, Pow2(base.width), 0, base.value);
      QuotientIs(addr.value, Pow2(addr.width), 0, addr.value);
      SameBits(base, addr, length);
    }
  }

  /** The local host is 127.0.0.0 to 127.255.255.255, and ::1. */
  lemma LocalhostRange(value: nat)
    ensures IsLocalhost(Addr(32, value)) <==> 0x7f00_0000 <= value <= 0x7fff_ffff
    ensures IsLocalhost(Addr(128, value)) <==> value == 1
  {
  }

  /** Every list an entry names is undefined or placed in order. */
  ghost predicate Grounded(named: Lists, entries: MatchList, order: seq<string>) {
    forall i :: 0 <= i < |entries| && entries[i].Named? && entries[i].name in named ==> entries[i].name in order
  }

  /** The matcher. The order exists when the lists were accepted; each step into a named list moves to a
      shorter prefix of it, which is why the recursion ends. */
  function Contains(named: Lists, entries: MatchList, addr: Addr, ghost order: seq<string>): bool
    requires Ordered(named, order) && Grounded(named, entries, order)
    decreases |order|, |entries|
  {
    if entries == [] then false
    else
      RestGrounded(named, entries, order);
      match entries[0]
      case AnyClient => true
      case NoClient => false
      case Localhost => IsLocalhost(addr) || Contains(named, entries[1..], addr, order)
      case Prefix(base, length) => InPrefix(base, length, addr) || Contains(named, entries[1..], addr, order)
      case Named(name) =>
        (if name in named then
           ghost var i := IndexOf(order, name);
           PrefixGrounded(named, order, i);
           Contains(named, named[name], addr, order[..i])
         else false)
        || Contains(named, entries[1..], addr, order)
  }

  ghost function IndexOf(order: seq<string>, name: string): (i: nat)
    requires name in order
    ensures i < |order| && order[i] == name
  {
    var i :| 0 <= i < |order| && order[i] == name;
    i
  }

  lemma RestGrounded(named: Lists, entries: MatchList, order: seq<string>)
    requires Grounded(named, entries, order) && entries != []
    ensures Grounded(named, entries[1..], order)
    ensures entries[0].Named? && entries[0].name in named ==> entries[0].name in order
  {
    var rest := entries[1..];
    assert forall i :: 0 <= i < |rest| ==> rest[i] == entries[i + 1];
  }

  lemma PrefixGrounded(named: Lists, order: seq<string>, i: nat)
    requires Ordered(named, order) && i < |order|
    ensures Ordered(named, order[..i])
    ensures order[i] in named ==> Grounded(named, named[order[i]], order[..i])
  {
    forall j, b | 0 <= j < |order[..i]| && Refers(named, order[..i][j], b) ensures b in order[..i][..j] {
      assert order[..i][..j] == order[..j];
      assert Refers(named, order[j], b);
    }
    if order[i] in named {
      var entries := named[order[i]];
      forall k | 0 <= k < |entries| && entries[k].Named? && entries[k].name in named
        ensures entries[k].name in order[..i]
      {
        assert Refers(named, order[i], entries[k].name);
      }
    }
  }

  /** The meaning of a list, without any order: some entry lets the address in and no entry before it
      turns everybody away. A named entry lets in whom its list lets in. */
  least predicate Allowed[nat](named: Lists, entries: MatchList, addr: Addr) {
    exists i :: 0 <= i < |entries| && NoClient !in entries[..i] &&
      match entries[i]
      case AnyClient => true
      case NoClient => false
      case Localhost => IsLocalhost(addr)
      case Prefix(base, length) => InPrefix(base, length, addr)
      case Named(name) => name in named && Allowed(named, named[name], addr)
  }

  /** One entry lets the address in, given the meaning of the lists it may name. */
  ghost predicate LetsIn(named: Lists, entry: Entry, addr: Addr) {
    match entry
    case AnyClient => true
    case NoClient => false
    case Localhost => IsLocalhost(addr)
    case Prefix(base, length) => InPrefix(base, length, addr)
    case Named(name) => name in named && Allowed(named, named[name], addr)
  }

  lemma AllowedSplits(named: Lists, entries: MatchList, addr: Addr)
    requires entries != []
    ensures Allowed(named, entries, addr)
       <==> LetsIn(named, entries[0], addr) || (entries[0] != NoClient && Allowed(named, entries[1..], addr))
  {
    hide InPrefix, IsLocalhost;
    if Allowed(named, entries, addr) && !LetsIn(named, entries[0], addr) {
      AllowedTail(named, entries, addr);
    }
    if LetsIn(named, entries[0], addr) {
      assert NoClient !in entries[..0];
    } else if entries[0] != NoClient && Allowed(named, entries[1..], addr) {
      var rest := entries[1..];
      var i :| 0 <= i < |rest| && NoClient !in rest[..i] && LetsIn(named, rest[i], addr);
      assert entries[..i + 1] == [entries[0]] + rest[..i] && entries[i + 1] == rest[i];
    }
  }

  lemma AllowedTail(named: Lists, entries: MatchList, addr: Addr)
    requires entries != [] && Allowed(named, entries, addr) && !LetsIn(named, entries[0], addr)
    ensures entries[0] != NoClient && Allowed(named, entries[1..], addr)
  {
    hide InPrefix, IsLocalhost;
    var rest := entries[1..];
    var i :| 0 <= i < |entries| && NoClient !in entries[..i] && LetsIn(named, entries[i], addr);
    assert entries[..i][0] == entries[0] && rest[..i - 1] == entries[1..i];
    assert forall e <- rest[..i - 1] :: e in entries[..i];
    assert rest[i - 1] == entries[i];
  }

  /** On accepted lists the matcher computes the meaning, for every list and every address. */
  lemma {:induction false} ContainsIsAllowed(named: Lists, entries: MatchList, addr: Addr, order: seq<string>)
    requires Ordered(named, order) && Grounded(named, entries, order)
    ensures Contains(named, entries, addr, order) <==> Allowed(named, entries, addr)
    decreases |order|, |entries|
  {
    hide InPrefix, IsLocalhost;
    if entries != [] {
      RestGrounded(named, entries, order);
      ContainsIsAllowed(named, entries[1..], addr, order);
      AllowedSplits(named, entries, addr);
      if entries[0].Named? && entries[0].name in named {
        var i := IndexOf(order, entries[0].name);
        PrefixGrounded(named, order, i);
        ContainsIsAllowed(named, named[entries[0].name], addr, order[..i]);
      }
    }
  }
}
