/** Denial of existence by a signed zone: how many of its NSEC records deny an absent name, when it is exactly
    one, and what the sort that never sorts makes possible. */
module SignedGaps {
  import opened Wrappers
  import opened Names
  import opened Records
  import opened Filters
  import opened Signer
  import opened SignedZone
  import opened CanonicalOrder
  import G = NsecGaps

  /** The record is an NSEC record whose gap covers x. */
  predicate Denies(less: (string, string) -> bool, rr: RR, x: string) {
    rr.rrtype == TYPE_NSEC && rr.data.NSEC? && G.Covers(less, CanonicalName(rr.name), rr.data.next, x)
  }

  function Denials(less: (string, string) -> bool, signed: seq<RR>, x: string): seq<RR> {
    Filter(signed, (rr: RR) => Denies(less, rr, x))
  }

  // ---------------------------------------------------------------- counting denials along the circle

  predicate DeniesFrom(less: (string, string) -> bool, rr: RR, x: string, names: seq<string>) {
    Denies(less, rr, x) && CanonicalName(rr.name) in names
  }

  function DenialsFrom(less: (string, string) -> bool, signed: seq<RR>, x: string, names: seq<string>): seq<RR> {
    Filter(signed, (rr: RR) => DeniesFrom(less, rr, x, names))
  }

  /** The one NSEC record of the i-th name denies x exactly when the i-th gap covers it. */
  lemma DenialsAt(less: (string, string) -> bool, signed: seq<RR>, order: seq<string>, x: string, i: nat)
    requires IsCircle(signed, order) && i < |order|
    ensures |DenialsFrom(less, signed, x, [order[i]])|
         == if G.Covers(less, order[i], NextOf(order, i), x) then 1 else 0
  {
    hide CanonicalName, Enumerates, G.Covers;
    var k := (order[i], TYPE_NSEC);
    assert NextName(signed, order[i]) == Some(NextOf(order, i));
    var found := RRsetOf(signed, k);
    FilterTwice(signed, (rr: RR) => CanonicalName(rr.name) == k.0 && rr.rrtype == k.1,
                (rr: RR) => Denies(less, rr, x), (rr: RR) => DeniesFrom(less, rr, x, [order[i]]));
    assert found == [found[0]] && found[0] in found && found[1..] == [];
  }

  lemma {:induction false} DenialsFromTail(less: (string, string) -> bool, signed: seq<RR>, order: seq<string>,
                                           x: string, i: nat)
    requires IsCircle(signed, order) && i <= |order|
    ensures |order| > 0 ==>
      |DenialsFrom(less, signed, x, order[i..])| == G.CoverCount(less, G.Circle(order)[i..], x)
    decreases |order| - i
  {
    hide IsCircle, DenialsFrom, G.Covers;
    if i == |order| {
      if |order| > 0 {
        assert G.Circle(order)[i..] == [order[0]];
        NoDenialsFromNone(less, signed, x);
        assert order[i..] == [];
      }
    } else {
      DenialsFromTail(less, signed, order, x, i + 1);
      DenialsAt(less, signed, order, x, i);
      SplitFirst(less, signed, order, x, i);
      var path := G.Circle(order)[i..];
      assert path[0] == order[i] && path[1] == NextOf(order, i) && path[1..] == G.Circle(order)[i + 1..];
    }
  }

  lemma NoDenialsFromNone(less: (string, string) -> bool, signed: seq<RR>, x: string)
    ensures DenialsFrom(less, signed, x, []) == []
  {
    FilterNone(signed, (rr: RR) => DeniesFrom(less, rr, x, []));
  }

  lemma SplitFirst(less: (string, string) -> bool, signed: seq<RR>, order: seq<string>, x: string, i: nat)
    requires IsCircle(signed, order) && i < |order|
    ensures |DenialsFrom(less, signed, x, order[i..])|
         == |DenialsFrom(less, signed, x, [order[i]])| + |DenialsFrom(less, signed, x, order[i + 1..])|
  {
    hide CanonicalName, NextName, Denies;
    assert order[i..] == [order[i]] + order[i + 1..];
    assert order[i] !in order[i + 1..];
    FilterSplits(signed, (rr: RR) => DeniesFrom(less, rr, x, order[i..]),
                 (rr: RR) => DeniesFrom(less, rr, x, [order[i]]), (rr: RR) => DeniesFrom(less, rr, x, order[i + 1..]));
  }

  /** As many NSEC records of a signed zone deny a name as gaps of its circle cover it. */
  lemma DenialsAreGaps(less: (string, string) -> bool, signed: seq<RR>, order: seq<string>, x: string)
    requires IsCircle(signed, order) && |order| > 0
    ensures |Denials(less, signed, x)| == G.CoverCount(less, G.Circle(order), x)
  {
    hide CanonicalName, NextName, Denies;
    DenialsFromTail(less, signed, order, x, 0);
    assert order[0..] == order && G.Circle(order)[0..] == G.Circle(order);
    forall rr: RR | rr in signed ensures Denies(less, rr, x) <==> DeniesFrom(less, rr, x, order) {
      assert CanonicalName(rr.name) in NamesOf(signed);
    }
    FilterSame(signed, (rr: RR) => Denies(less, rr, x), (rr: RR) => DeniesFrom(less, rr, x, order));
  }

  // ---------------------------------------------------------------- exactly one denial

  /** Following the pointers once around leads upwards all the way, from the least name to the greatest. */
  ghost predicate Ascends(less: (string, string) -> bool, signed: seq<RR>) {
    exists order :: IsCircle(signed, order) && G.Ascending(less, order)
  }

  lemma RotationEnumerates(order: seq<string>, names: set<string>, k: nat)
    requires Enumerates(order, names) && k <= |order|
    ensures Enumerates(order[k..] + order[..k], names)
  {
    hide Distinct;
    assert order == order[..k] + order[k..];
    RearrangedEnumerates(order, order[k..] + order[..k], names);
  }

  /** A circle may be entered anywhere. */
  lemma CircleTurns(signed: seq<RR>, order: seq<string>, k: nat)
    requires IsCircle(signed, order) && k < |order|
    ensures IsCircle(signed, order[k..] + order[..k])
  {
    hide NextName, NamesOf, Enumerates;
    RotationEnumerates(order, NamesOf(signed), k);
    var turned := order[k..] + order[..k];
    forall i | 0 <= i < |turned| ensures NextName(signed, turned[i]) == Some(NextOf(turned, i)) {
      var j := if i + k < |order| then i + k else i + k - |order|;
      assert NextName(signed, order[j]) == Some(NextOf(order, j));
    }
  }

  /** An absent name is denied as often as the circle runs downwards; so it is denied exactly once if and only if
      the pointers lead upwards all the way round. */
  lemma DeniedOnceIff(less: (string, string) -> bool, signed: seq<RR>, order: seq<string>, x: string)
    requires IsCircle(signed, order) && |order| > 0 && x !in NamesOf(signed)
    requires G.StrictTotalOrder(less, NamesOf(signed) + {x})
    ensures |Denials(less, signed, x)| == G.Descents(less, G.Circle(order))
    ensures |Denials(less, signed, x)| == 1 <==> Ascends(less, signed)
  {
    hide NextName, NamesOf, Denials, G.Covers, G.StrictTotalOrder;
    CircleDescents(less, signed, order, x);
    if |Denials(less, signed, x)| == 1 {
      var k :| 0 <= k < |order| && G.Ascending(less, order[k..] + order[..k]);
      CircleTurns(signed, order, k);
    }
    if Ascends(less, signed) {
      var up :| IsCircle(signed, up) && G.Ascending(less, up);
      assert order[0] in NamesOf(signed) && up != [];
      CircleDescents(less, signed, up, x);
      assert up[0..] + up[..0] == up;
    }
  }

  lemma CircleDescents(less: (string, string) -> bool, signed: seq<RR>, order: seq<string>, x: string)
    requires IsCircle(signed, order) && |order| > 0 && x !in NamesOf(signed)
    requires G.StrictTotalOrder(less, NamesOf(signed) + {x})
    ensures |Denials(less, signed, x)| == G.Descents(less, G.Circle(order))
    ensures |Denials(less, signed, x)| == 1 <==> G.IsRotatedAscending(less, order)
  {
    hide NextName, NamesOf, Denials, G.Covers, G.StrictTotalOrder, G.Descents, G.IsRotatedAscending;
    var names := NamesOf(signed) + {x};
    forall i | 0 <= i < |order| ensures order[i] in names {
      assert order[i] in order;
    }
    DenialsAreGaps(less, signed, order, x);
    G.GapsEqualDescents(less, names, order, x);
    G.OneDescentIffRotated(less, names, order);
  }

  // ---------------------------------------------------------------- every order of the chain is possible

  ghost predicate AlwaysSigns(keys: KeyPair) {
    && (forall t, rrset :: keys.ksk.sign(t, rrset).Some?)
    && (forall t, rrset :: keys.zsk.sign(t, rrset).Some?)
  }

  lemma {:induction false} SetIsEnumerated<T(!new)>(s: set<T>) returns (order: seq<T>)
    ensures Enumerates(order, s)
    decreases |s|
  {
    if s == {} {
      order := [];
    } else {
      var x :| x in s;
      var rest := SetIsEnumerated(s - {x});
      EnumeratesOneMore(rest, s - {x}, x);
      assert s - {x} + {x} == s;
      order := rest + [x];
    }
  }

  lemma {:induction false} TypesAscend(types: set<Word16>) returns (s: seq<Word16>)
    ensures Ascending(s) && forall t: Word16 :: t in s <==> t in types
    decreases |types|
  {
    if types == {} {
      s := [];
    } else {
      var most := Greatest(types);
      var rest := TypesAscend(types - {most});
      AppendLargest(rest, most);
      s := rest + [most];
    }
  }

  lemma {:induction false} Greatest(types: set<Word16>) returns (most: Word16)
    requires types != {}
    ensures most in types && forall t <- types :: t <= most
    decreases |types|
  {
    most :| most in types;
    assert forall t <- types :: t == most || t in types - {most};
    if types - {most} != {} {
      var other := Greatest(types - {most});
      most := if other < most then most else other;
    }
  }

  lemma {:induction false} ChainFor(order: seq<string>, types: map<string, set<Word16>>, ttl: Word32, n: nat)
    returns (chain: seq<RR>)
    requires n <= |order| && forall i :: 0 <= i < |order| ==> order[i] in types
    ensures |chain| == n && forall i :: 0 <= i < n ==> IsLink(chain[i], order, i, types[order[i]], ttl)
    decreases n
  {
    chain := [];
    if n > 0 {
      var init := ChainFor(order, types, ttl, n - 1);
      var bitmap := TypesAscend(types[order[n - 1]]);
      chain := init + [RR(order[n - 1], TYPE_NSEC, CLASS_INET, ttl, NSEC(NextOf(order, n - 1), bitmap))];
    }
  }

  lemma {:induction false} SignaturesOf(ks: seq<Key>, all: seq<RR>, origin: string, keys: KeyPair, ttl: Word32,
                                        window: Window, n: nat) returns (sigs: seq<RR>)
    requires AlwaysSigns(keys) && n <= |ks| && forall i :: 0 <= i < |ks| ==> ks[i] in KeysOf(all)
    ensures |sigs| == n && forall i :: 0 <= i < n ==> IsSignatureFor(sigs[i], ks[i], all, origin, keys, ttl, window)
    decreases n
  {
    hide RRsetOf, KeysOf, IsSignatureFor, SignRRset;
    sigs := [];
    if n > 0 {
      var init := SignaturesOf(ks, all, origin, keys, ttl, window, n - 1);
      var sig := SignatureExists(ks[n - 1], all, origin, keys, ttl, window);
      sigs := init + [sig];
    }
  }

  lemma InRRset(all: seq<RR>, k: Key, rr: RR)
    requires rr in all && KeyOf(rr) == k
    ensures rr in RRsetOf(all, k)
  {
    hide CanonicalName;
    FilterHas(all, (x: RR) => CanonicalName(x.name) == k.0 && x.rrtype == k.1, rr);
  }

  lemma SignatureExists(k: Key, all: seq<RR>, origin: string, keys: KeyPair, ttl: Word32, window: Window)
    returns (sig: RR)
    requires AlwaysSigns(keys) && k in KeysOf(all)
    ensures IsSignatureFor(sig, k, all, origin, keys, ttl, window)
  {
    hide CanonicalName;
    var rr: RR :| rr in all && KeyOf(rr) == k;
    var rrset := RRsetOf(all, k);
    InRRset(all, k, rr);
    SignatureOf(k, rrset, all, origin, keys, ttl, window);
    sig := SignRRset(SignerFor(keys, k.1), rrset, origin, ttl, window).value;
  }

  /** The names of a zone may come out of the sort in any order whatever: each gives a signed form of the zone with
      that circle. */
  lemma EveryOrderIsPossible(records: seq<RR>, origin: string, keys: KeyPair, window: Window, order: seq<string>)
    returns (signed: seq<RR>)
    requires SignableZone(records, origin, keys) && AlwaysSigns(keys)
    requires Enumerates(order, NamesOf(Base(records, origin)) + {origin})
    ensures IsSigned(records, origin, keys, window, signed) && IsCircle(signed, order)
  {
    hide CanonicalName, IsOwnerName, Base, IsLink, Enumerates, NamesOf, AlwaysSigns, SignableZone, IsSignatureFor;
    hide KeysOf;
    var base, ttl := Base(records, origin), ZoneTtl(Unsigned(records));
    var types := ChainTypes(base, origin);
    assert types.Keys == NamesOf(base) + {origin};
    forall i | 0 <= i < |order| ensures order[i] in types {
      EnumeratesMember(order, types.Keys, i);
    }
    var chain := ChainFor(order, types, ttl, |order|);
    var all := ToSign(records, origin, keys, chain);
    var ks := SetIsEnumerated(KeysOf(all));
    forall i | 0 <= i < |ks| ensures ks[i] in KeysOf(all) {
      EnumeratesMember(ks, KeysOf(all), i);
    }
    var sigs := SignaturesOf(ks, all, origin, keys, ttl, window, |ks|);
    signed := all + sigs;
    assert SignedWith(records, origin, keys, window, signed, order, chain, ks, sigs);
    CircleOfChain(records, origin, keys, window, signed, order, chain, ks, sigs);
  }

  /** The sort leaves denial to chance exactly from three owner names on: every signed form of a zone denies an
      absent name exactly once if and only if the zone has at most two owner names. */
  lemma AlwaysDeniedOnceIff(less: (string, string) -> bool, records: seq<RR>, origin: string, keys: KeyPair,
                            window: Window, x: string)
    requires SignableZone(records, origin, keys) && AlwaysSigns(keys)
    requires x !in OwnerNames(records, origin) && G.StrictTotalOrder(less, OwnerNames(records, origin) + {x})
    ensures (forall signed :: IsSigned(records, origin, keys, window, signed) ==> |Denials(less, signed, x)| == 1)
       <==> |OwnerNames(records, origin)| <= 2
  {
    hide SignableZone, AlwaysSigns, OwnerNames, IsSigned, Denials, G.StrictTotalOrder;
    if |OwnerNames(records, origin)| <= 2 {
      forall signed | IsSigned(records, origin, keys, window, signed) ensures |Denials(less, signed, x)| == 1 {
        SmallZoneDeniesOnce(less, records, origin, keys, window, signed, x);
      }
    } else {
      var signed := SomeFormFails(less, records, origin, keys, window, x);
    }
  }

  /** The owner names of the signed zone. */
  function OwnerNames(records: seq<RR>, origin: string): set<string> {
    NamesOf(Base(records, origin)) + {origin}
  }

  lemma NamesOfForm(records: seq<RR>, origin: string, keys: KeyPair, window: Window, signed: seq<RR>)
    requires SignableZone(records, origin, keys) && IsSigned(records, origin, keys, window, signed)
    ensures NamesOf(signed) == OwnerNames(records, origin)
  {
    hide CanonicalName, IsOwnerName, Base, SignsEach;
    var order: seq<string>, chain: seq<RR>, ks: seq<Key>, sigs: seq<RR> :|
      SignedWith(records, origin, keys, window, signed, order, chain, ks, sigs);
    var base, keyRRs := Base(records, origin), KeyRecords(records, keys);
    SignedParts(records, origin, keys, window, signed, order, chain, ks, sigs);
    SignaturesAtNames(sigs, ks, base + keyRRs + chain, origin, keys, ZoneTtl(Unsigned(records)), window);
    NamesOfSigned(base, keyRRs, chain, sigs, origin, order, signed);
  }

  lemma {:induction false} EnumerationSize<T(!new)>(order: seq<T>, names: set<T>)
    requires Enumerates(order, names)
    ensures |order| == |names|
    decreases |order|
  {
    if |order| == 0 {
      assert names == {};
    } else {
      var last, init := order[|order| - 1], order[..|order| - 1];
      assert order == init + [last];
      assert last in order && last !in init;
      assert forall y :: y in init <==> y in names - {last};
      EnumerationSize(init, names - {last});
      assert names == names - {last} + {last};
    }
  }

  lemma SmallZoneDeniesOnce(less: (string, string) -> bool, records: seq<RR>, origin: string, keys: KeyPair,
                            window: Window, signed: seq<RR>, x: string)
    requires SignableZone(records, origin, keys) && IsSigned(records, origin, keys, window, signed)
    requires x !in OwnerNames(records, origin) && G.StrictTotalOrder(less, OwnerNames(records, origin) + {x})
    requires |OwnerNames(records, origin)| <= 2
    ensures |Denials(less, signed, x)| == 1
  {
    hide SignableZone, OwnerNames, IsSigned, Denials, NextName, NamesOf, G.StrictTotalOrder, G.Descents;
    NamesOfForm(records, origin, keys, window, signed);
    NsecCircle(records, origin, keys, window, signed);
    var order :| IsCircle(signed, order);
    EnumerationSize(order, NamesOf(signed));
    NotEmpty(order, OwnerNames(records, origin), origin, records);
    AllWithin(order, NamesOf(signed), x);
    G.SmallCircles(less, NamesOf(signed) + {x}, order);
    DeniedOnceIff(less, signed, order, x);
  }

  lemma NotEmpty(order: seq<string>, names: set<string>, origin: string, records: seq<RR>)
    requires Enumerates(order, names) && names == OwnerNames(records, origin)
    ensures |order| > 0
  {
    assert origin in names;
  }

  lemma AllWithin(order: seq<string>, names: set<string>, x: string)
    requires Enumerates(order, names)
    ensures G.Within(order, names + {x})
  {
    forall i | 0 <= i < |order| ensures order[i] in names + {x} {
      assert order[i] in order;
    }
  }

  lemma SomeFormFails(less: (string, string) -> bool, records: seq<RR>, origin: string, keys: KeyPair,
                      window: Window, x: string) returns (signed: seq<RR>)
    requires SignableZone(records, origin, keys) && AlwaysSigns(keys)
    requires x !in OwnerNames(records, origin) && G.StrictTotalOrder(less, OwnerNames(records, origin) + {x})
    requires |OwnerNames(records, origin)| > 2
    ensures IsSigned(records, origin, keys, window, signed) && |Denials(less, signed, x)| != 1
  {
    hide SignableZone, AlwaysSigns, IsSigned, Denials, NextName, NamesOf, G.StrictTotalOrder, G.Descents, G.Turned;
    var names := OwnerNames(records, origin);
    var order := SetIsEnumerated(names);
    EnumerationSize(order, names);
    AllWithin(order, names, x);
    CircleSteps(order);
    G.DescentsBothWays(less, names + {x}, order);
    if G.Descents(less, G.Circle(order)) == 1 {
      G.TurnedIsPermutation(order);
      RearrangedEnumerates(order, G.Turned(order), names);
      EnumerationSize(G.Turned(order), names);
      order := G.Turned(order);
    }
    signed := EveryOrderIsPossible(records, origin, keys, window, order);
    NamesOfForm(records, origin, keys, window, signed);
    DeniedOnceIff(less, signed, order, x);
  }

  lemma CircleSteps(order: seq<string>)
    requires Distinct(order) && |order| > 1
    ensures G.Steps(G.Circle(order))
  {
  }

  /** Three owner names are enough: the sort may leave their chain with two descents, and then every absent name is
      denied twice. */
  lemma UnsortedZoneDeniesTwice(less: (string, string) -> bool, records: seq<RR>, origin: string, keys: KeyPair,
                                window: Window, a: string, b: string, c: string) returns (signed: seq<RR>)
    requires SignableZone(records, origin, keys) && AlwaysSigns(keys)
    requires NamesOf(Base(records, origin)) + {origin} == {a, b, c}
    requires G.StrictTotalOrder(less, {a, b, c}) && less(a, b) && less(b, c)
    ensures IsSigned(records, origin, keys, window, signed) && NamesOf(signed) == {a, b, c}
    ensures forall x :: x !in {a, b, c} && G.StrictTotalOrder(less, {a, b, c, x}) ==>
      |Denials(less, signed, x)| == 2
  {
    hide NamesOf, SignableZone, AlwaysSigns, IsSigned, NextName, Denials, G.Descents;
    var order := [b, a, c];
    assert less(a, c);
    assert Enumerates(order, {a, b, c});
    signed := EveryOrderIsPossible(records, origin, keys, window, order);
    assert forall n :: n in NamesOf(signed) <==> n in order;
    G.UnsortedCircle(less, a, b, c);
    forall x | x !in {a, b, c} && G.StrictTotalOrder(less, {a, b, c, x}) ensures |Denials(less, signed, x)| == 2 {
      assert NamesOf(signed) + {x} == {a, b, c, x};
      DeniedOnceIff(less, signed, order, x);
    }
  }

  function Host(name: string): RR {
    RR(name, TYPE_A, CLASS_INET, 60, A(Address("192.0.2.1")))
  }

  lemma PlainChar(c: char)
    requires 'a' <= c <= 'd'
    ensures SplitEscaped([c], false) == [[c]] && LabelOctets([c]) == [c as int] && TrailingBackslashes([c]) == 0
  {
    assert [c] + "" == [c] && [""][1..] == [] && Prepend(c, [""]) == [[c]];
    assert [c][1..] == "" && SplitEscaped("", false) == [""];
    assert Encoded(c) == [c as int] && Folded([c as int]) == [c as int] && LabelOctets("") == [];
  }

  lemma WireLabelsOfApex()
    ensures WireLabels("a.") == [[97]] && IsOwnerName("a.") && CanonicalName("a.") == "a."
  {
    hide SplitEscaped, LabelOctets;
    PlainChar('a');
    assert "a."[..1] == "a" == ['a'];
    assert Labels("a.") == ["a"];
  }

  lemma WireLabelsOfHost(c: char)
    requires 'b' <= c <= 'd'
    ensures var n := [c] + ".a.";
      WireLabels(n) == [[97], [c as int]] && IsOwnerName(n) && CanonicalName(n) == n
  {
    hide SplitEscaped, LabelOctets;
    PlainChar('a');
    PlainChar(c);
    var n, m := [c] + ".a.", [c] + "." + "a";
    assert n[..3] == m && m[2] == 'a' && TrailingBackslashes(m) == 0;
    assert !EscapeAfter([c], false) by { EscapeAfterIsParity([c]); }
    SplitEscapedOfConcat([c], ['a'], false);
    assert ['a'] == "a" && Labels(n) == [[c], ['a']];
  }

  /** Such a zone, in the canonical order: hosts at a., b.a. and c.a., and the absent name d.a. */
  lemma UnsortedZoneExists(keys: KeyPair, window: Window) returns (signed: seq<RR>)
    requires KeysOwnedBy(keys, "a.") && AlwaysSigns(keys)
    ensures IsSigned([Host("a."), Host("b.a."), Host("c.a.")], "a.", keys, window, signed)
    ensures G.StrictTotalOrder(CanonicalLess, NamesOf(signed) + {"d.a."}) && "d.a." !in NamesOf(signed)
    ensures |Denials(CanonicalLess, signed, "d.a.")| == 2
  {
    hide Denials, IsSigned, AlwaysSigns, KeysOwnedBy, WireLabels, Base, NamesOf;
    var a, b, c, x := "a.", "b.a.", "c.a.", "d.a.";
    var records := [Host(a), Host(b), Host(c)];
    HostsAreSignable(keys);
    HostsAreOrdered();
    signed := UnsortedZoneDeniesTwice(CanonicalLess, records, a, keys, window, a, b, c);
    assert NamesOf(signed) + {x} == {a, b, c, x};
  }

  lemma HostsAreOrdered()
    ensures var names := {"a.", "b.a.", "c.a.", "d.a."};
      && G.StrictTotalOrder(CanonicalLess, names) && G.StrictTotalOrder(CanonicalLess, {"a.", "b.a.", "c.a."})
      && CanonicalLess("a.", "b.a.") && CanonicalLess("b.a.", "c.a.") && "d.a." !in {"a.", "b.a.", "c.a."}
  {
    hide WireLabels, G.StrictTotalOrder;
    WireLabelsOfApex();
    WireLabelsOfHost('b');
    WireLabelsOfHost('c');
    WireLabelsOfHost('d');
    assert ['b'] + ".a." == "b.a." && ['c'] + ".a." == "c.a." && ['d'] + ".a." == "d.a.";
    assert WireLabels("b.a.")[1] != WireLabels("c.a.")[1] && WireLabels("b.a.")[1] != WireLabels("d.a.")[1];
    assert WireLabels("c.a.")[1] != WireLabels("d.a.")[1];
    CanonicalOrderIsTotalIff({"a.", "b.a.", "c.a.", "d.a."});
    CanonicalOrderIsTotalIff({"a.", "b.a.", "c.a."});
    assert "d.a."[0] == 'd' && |"a."| == 2;
    assert [[97], [98]][1..] == [[98]] && [[97]][1..] == [] && [[97], [99]][1..] == [[99]];
  }

  lemma HostsAreSignable(keys: KeyPair)
    requires KeysOwnedBy(keys, "a.")
    ensures var records := [Host("a."), Host("b.a."), Host("c.a.")];
      SignableZone(records, "a.", keys) && NamesOf(Base(records, "a.")) + {"a."} == {"a.", "b.a.", "c.a."}
  {
    hide WireLabels, CanonicalName, IsOwnerName, Base, KeysOwnedBy;
    WireLabelsOfApex();
    WireLabelsOfHost('b');
    WireLabelsOfHost('c');
    assert ['b'] + ".a." == "b.a." && ['c'] + ".a." == "c.a.";
    HostsAreBase();
    var records := [Host("a."), Host("b.a."), Host("c.a.")];
    assert records[0] in records && records[1] in records && records[2] in records;
  }

  lemma HostsAreBase()
    ensures var records := [Host("a."), Host("b.a."), Host("c.a.")];
      Base(records, "a.") == records
  {
    hide CanonicalName;
    var records := [Host("a."), Host("b.a."), Host("c.a.")];
    FilterAll(records, (rr: RR) => !IsSigningType(rr.rrtype));
    FilterAll(records, (rr: RR) => !IsApexSoa(rr, "a."));
    FilterNone(records, (rr: RR) => IsApexSoa(rr, "a."));
  }

}
