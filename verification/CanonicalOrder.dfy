/** The canonical order of names (section 6.1 of RFC 4034): labels are compared from the right, each as the
    sequence of its octets with letters in lower case, and what is absent comes first. */
module CanonicalOrder {
  import opened Names
  import opened Records
  import opened ZoneNames
  import opened NsecGaps

  function LowerOctet(o: nat): nat {
    if 65 <= o <= 90 then o + 32 else o
  }

  /** The octets of a code point in UTF-8. */
  function Encoded(c: char): seq<nat> {
    var n := c as int;
    if n < 0x80 then [n]
    else if n < 0x800 then [0xC0 + n / 0x40, 0x80 + n % 0x40]
    else if n < 0x1_0000 then [0xE0 + n / 0x1000, 0x80 + n / 0x40 % 0x40, 0x80 + n % 0x40]
    else [0xF0 + n / 0x4_0000, 0x80 + n / 0x1000 % 0x40, 0x80 + n / 0x40 % 0x40, 0x80 + n % 0x40]
  }

  lemma EncodedLength(c: char)
    ensures |Encoded(c)| == Octets(c) && forall o <- Encoded(c) :: o < 256
  {
  }

  /** The octets a label stands for: \DDD is the octet with that number, any other \ is dropped. */
  function LabelOctets(text: string): seq<nat> {
    if text == "" then []
    else if text[0] == '\\' && |text| >= 4 && AllDigits(text[1..4]) then
      [LowerOctet(DigitsValue(text[1..4]) % 256)] + LabelOctets(text[4..])
    else if text[0] == '\\' && |text| >= 2 then Folded(Encoded(text[1])) + LabelOctets(text[2..])
    else Folded(Encoded(text[0])) + LabelOctets(text[1..])
  }

  function Folded(octets: seq<nat>): seq<nat> {
    seq(|octets|, i requires 0 <= i < |octets| => LowerOctet(octets[i]))
  }

  /** The labels of a name, most significant first, each as its octets. */
  function WireLabels(name: string): seq<seq<nat>> {
    var labels := Labels(name);
    seq(|labels|, i requires 0 <= i < |labels| => LabelOctets(labels[|labels| - 1 - i]))
  }

  predicate OctetsBefore(a: seq<nat>, b: seq<nat>) {
    b != [] && (a == [] || a[0] < b[0] || (a[0] == b[0] && OctetsBefore(a[1..], b[1..])))
  }

  predicate LabelsBefore(a: seq<seq<nat>>, b: seq<seq<nat>>) {
    b != [] && (a == [] || OctetsBefore(a[0], b[0]) || (a[0] == b[0] && LabelsBefore(a[1..], b[1..])))
  }

  predicate CanonicalLess(a: string, b: string) {
    LabelsBefore(WireLabels(a), WireLabels(b))
  }

  // ---------------------------------------------------------------- it is an order

  lemma {:induction false} OctetsBeforeIsStrict(a: seq<nat>, b: seq<nat>, c: seq<nat>)
    ensures OctetsBefore(a, b) ==> !OctetsBefore(b, a) && a != b
    ensures OctetsBefore(a, b) && OctetsBefore(b, c) ==> OctetsBefore(a, c)
    ensures a != b ==> OctetsBefore(a, b) || OctetsBefore(b, a)
  {
    if a != [] && b != [] {
      assert a == [a[0]] + a[1..] && b == [b[0]] + b[1..];
      OctetsBeforeIsStrict(a[1..], b[1..], if c == [] then [] else c[1..]);
    }
  }

  lemma {:induction false} LabelsBeforeIsStrict(a: seq<seq<nat>>, b: seq<seq<nat>>, c: seq<seq<nat>>)
    ensures LabelsBefore(a, b) ==> !LabelsBefore(b, a) && a != b
    ensures LabelsBefore(a, b) && LabelsBefore(b, c) ==> LabelsBefore(a, c)
    ensures a != b ==> LabelsBefore(a, b) || LabelsBefore(b, a)
  {
    hide OctetsBefore;
    if a != [] && b != [] {
      assert a == [a[0]] + a[1..] && b == [b[0]] + b[1..];
      LabelsBeforeIsStrict(a[1..], b[1..], if c == [] then [] else c[1..]);
      OctetsBeforeIsStrict(a[0], b[0], if c == [] then [] else c[0]);
    }
  }

  /** Different texts, different names. */
  ghost predicate OneTextEach(names: set<string>) {
    forall a <- names, b <- names :: WireLabels(a) == WireLabels(b) ==> a == b
  }

  /** The canonical order orders a set of texts strictly exactly when no two of them are the same name, written
      with and without an escape. */
  lemma CanonicalOrderIsTotalIff(names: set<string>)
    ensures StrictTotalOrder(CanonicalLess, names) <==> OneTextEach(names)
  {
    hide WireLabels;
    if OneTextEach(names) {
      CanonicalOrderIsTotal(names);
    }
    if StrictTotalOrder(CanonicalLess, names) {
      forall a, b | a in names && b in names && WireLabels(a) == WireLabels(b) ensures a == b {
        LabelsBeforeIsStrict(WireLabels(a), WireLabels(b), []);
        LabelsBeforeIsStrict(WireLabels(b), WireLabels(a), []);
        assert !CanonicalLess(a, b) && !CanonicalLess(b, a);
      }
    }
  }

  lemma CanonicalOrderIsTotal(names: set<string>)
    requires OneTextEach(names)
    ensures StrictTotalOrder(CanonicalLess, names)
  {
    hide WireLabels, LabelsBefore;
    forall a, b, c | a in names && b in names && c in names
      ensures CanonicalLess(a, b) ==> !CanonicalLess(b, a)
      ensures CanonicalLess(a, b) && CanonicalLess(b, c) ==> CanonicalLess(a, c)
      ensures a != b ==> CanonicalLess(a, b) || CanonicalLess(b, a)
    {
      LabelsBeforeIsStrict(WireLabels(a), WireLabels(b), WireLabels(c));
    }
  }

  // ---------------------------------------------------------------- the order, place by place

  /** The first place where two sequences of octets differ decides; the end of one counts as less than anything. */
  lemma {:induction false} OctetsBeforeIff(a: seq<nat>, b: seq<nat>)
    ensures OctetsBefore(a, b) <==> exists k: nat :: OctetsDecidedAt(a, b, k)
  {
    if b != [] && a != [] {
      assert a == [a[0]] + a[1..] && b == [b[0]] + b[1..];
      OctetsBeforeIff(a[1..], b[1..]);
      if OctetsBefore(a, b) {
        if a[0] < b[0] {
          assert OctetsDecidedAt(a, b, 0);
        } else {
          var k: nat :| OctetsDecidedAt(a[1..], b[1..], k);
          assert a[..k + 1] == [a[0]] + a[1..][..k] && b[..k + 1] == [b[0]] + b[1..][..k];
          assert OctetsDecidedAt(a, b, k + 1);
        }
      }
      if k: nat :| OctetsDecidedAt(a, b, k) {
        if k > 0 {
          assert a[..k][0] == b[..k][0] && a[1..][..k - 1] == a[..k][1..] && b[1..][..k - 1] == b[..k][1..];
          assert OctetsDecidedAt(a[1..], b[1..], k - 1);
        }
      }
    } else if b != [] {
      assert OctetsDecidedAt(a, b, 0);
    }
  }

  predicate OctetsDecidedAt(a: seq<nat>, b: seq<nat>, k: nat) {
    && k <= |a| && k < |b| && a[..k] == b[..k] && (k < |a| ==> a[k] < b[k])
  }

  /** The number of labels that two names have in common at their ends decides: what is in front of them is absent in
      the lesser name, or is a lesser label there. */
  predicate LabelsDecidedAt(a: seq<string>, b: seq<string>, k: nat) {
    && k <= |a| && k < |b|
    && (forall i :: 0 <= i < k ==> LabelOctets(FromRight(a, i)) == LabelOctets(FromRight(b, i)))
    && (k < |a| ==> OctetsBefore(LabelOctets(FromRight(a, k)), LabelOctets(FromRight(b, k))))
  }

  function FromRight<T>(s: seq<T>, i: nat): T
    requires i < |s|
  {
    s[|s| - 1 - i]
  }

  predicate WireDecidedAt(a: seq<seq<nat>>, b: seq<seq<nat>>, k: nat) {
    && k <= |a| && k < |b| && a[..k] == b[..k] && (k < |a| ==> OctetsBefore(a[k], b[k]))
  }

  lemma {:induction false} LabelsBeforeIff(a: seq<seq<nat>>, b: seq<seq<nat>>)
    ensures LabelsBefore(a, b) <==> exists k: nat :: WireDecidedAt(a, b, k)
  {
    hide OctetsBefore;
    if b != [] && a != [] {
      assert a == [a[0]] + a[1..] && b == [b[0]] + b[1..];
      LabelsBeforeIff(a[1..], b[1..]);
      if LabelsBefore(a, b) {
        if OctetsBefore(a[0], b[0]) {
          assert WireDecidedAt(a, b, 0);
        } else {
          var k: nat :| WireDecidedAt(a[1..], b[1..], k);
          assert a[..k + 1] == [a[0]] + a[1..][..k] && b[..k + 1] == [b[0]] + b[1..][..k];
          assert WireDecidedAt(a, b, k + 1);
        }
      }
      if k: nat :| WireDecidedAt(a, b, k) {
        if k > 0 {
          assert a[..k][0] == b[..k][0] && a[1..][..k - 1] == a[..k][1..] && b[1..][..k - 1] == b[..k][1..];
          assert WireDecidedAt(a[1..], b[1..], k - 1);
        }
      }
    } else if b != [] {
      assert WireDecidedAt(a, b, 0);
    }
  }

  lemma SamePlace<T>(x: seq<T>, y: seq<T>, k: nat, i: nat)
    requires k <= |x| && k <= |y| && x[..k] == y[..k] && i < k
    ensures x[i] == y[i]
  {
    assert x[..k][i] == x[i] && y[..k][i] == y[i];
  }

  /** x are the octets of the labels, from the right. */
  predicate OctetsOf(x: seq<seq<nat>>, labels: seq<string>) {
    |x| == |labels| && forall i :: 0 <= i < |x| ==> x[i] == LabelOctets(FromRight(labels, i))
  }

  lemma PlacesAgree(x: seq<seq<nat>>, y: seq<seq<nat>>, a: seq<string>, b: seq<string>, k: nat)
    requires OctetsOf(x, a) && OctetsOf(y, b)
    ensures WireDecidedAt(x, y, k) <==> LabelsDecidedAt(a, b, k)
  {
    hide LabelOctets, OctetsBefore, FromRight;
    if WireDecidedAt(x, y, k) {
      forall i: nat | i < k ensures LabelOctets(FromRight(a, i)) == LabelOctets(FromRight(b, i)) {
        SamePlace(x, y, k, i);
      }
    }
    if LabelsDecidedAt(a, b, k) {
      assert forall i :: 0 <= i < k ==> x[i] == LabelOctets(FromRight(a, i)) == y[i];
    }
  }

  lemma WireIsFromRight(name: string)
    ensures OctetsOf(WireLabels(name), Labels(name))
  {
    hide Labels, LabelOctets;
  }

  /** Of two names given by their labels the lesser one is found from the right. */
  lemma CanonicalLessIff(a: seq<string>, b: seq<string>)
    requires a != [] && b != []
    requires forall i :: 0 <= i < |a| ==> a[i] != "" && Closed(a[i], false)
    requires forall i :: 0 <= i < |b| ==> b[i] != "" && Closed(b[i], false)
    ensures CanonicalLess(Fqdn(JoinDots(a)), Fqdn(JoinDots(b))) <==> exists k: nat :: LabelsDecidedAt(a, b, k)
  {
    hide Labels, Fqdn, JoinDots, LabelsBefore, LabelsDecidedAt, WireDecidedAt, Closed, WireLabels, IsFqdn, OctetsOf;
    LabelsOfJoin(a);
    LabelsOfJoin(b);
    var m, n := Fqdn(JoinDots(a)), Fqdn(JoinDots(b));
    WireIsFromRight(m);
    WireIsFromRight(n);
    LabelsBeforeIff(WireLabels(m), WireLabels(n));
    forall k: nat ensures WireDecidedAt(WireLabels(m), WireLabels(n), k) <==> LabelsDecidedAt(a, b, k) {
      PlacesAgree(WireLabels(m), WireLabels(n), a, b, k);
    }
  }

  /** Octets of labels as the example of section 6.1 of RFC 4034 uses them: case does not matter, and an escaped number
      is an octet. */
  lemma OctetForms()
    ensures LabelOctets("Z") == LabelOctets("z") == [122] && LabelOctets("*") == [42]
    ensures LabelOctets("\\001") == [1] && LabelOctets("\\200") == [200] && LabelOctets("\\.") == [46]
  {
    assert Folded(Encoded('Z')) == [122] == Folded(Encoded('z')) && Folded(Encoded('*')) == [42];
    assert Folded(Encoded('.')) == [46];
    assert "Z"[1..] == "" && "z"[1..] == "" && "*"[1..] == "" && "\\."[2..] == "" && "\\001"[4..] == "";
    assert "\\200"[4..] == "" && "\\001"[1..4] == "001" && "\\200"[1..4] == "200";
    Triple('0', '0', '1');
    Triple('2', '0', '0');
  }

  lemma Triple(a: char, b: char, c: char)
    requires IsDigit(a) && IsDigit(b) && IsDigit(c)
    ensures AllDigits([a, b, c])
    ensures DigitsValue([a, b, c]) == (a as int - 48) * 100 + (b as int - 48) * 10 + (c as int - 48)
  {
    assert [a, b, c][..2] == [a, b] && [a, b][..1] == [a] && [a][..0] == [];
    assert DigitsValue([a]) == a as int - 48 && DigitsValue([a, b]) == 10 * DigitsValue([a]) + (b as int - 48);
    assert DigitsValue([a, b, c]) == 10 * DigitsValue([a, b]) + (c as int - 48);
  }
}
