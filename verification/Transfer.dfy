/** Zone transfers: the records of a zone, sorted, between two copies of its SOA, in frames of at most a
    hundred records. */
module Transfer {
  import opened Names
  import opened Records
  import opened ZoneData
  import opened ZoneTree

  const RECORDS_PER_FRAME := 100

  datatype Frame = Records(answer: seq<RR>) | NotAuthoritative

  // ---------------------------------------------------------------- sorted zone records

  predicate TextLess(a: string, b: string) {
    b != "" && (a == "" || a[0] < b[0] || (a[0] == b[0] && TextLess(a[1..], b[1..])))
  }

  lemma TextLessIsAsymmetric(a: string, b: string)
    ensures !(TextLess(a, b) && TextLess(b, a))
  {
  }

  /** By owner text, then type, then printed data. */
  predicate Before(a: RR, b: RR) {
    if a.name != b.name then TextLess(a.name, b.name)
    else if a.rrtype != b.rrtype then a.rrtype < b.rrtype
    else TextLess(DataValue(a.data), DataValue(b.data))
  }

  /** The first character in which two texts differ decides, and a text comes after its own beginnings. */
  lemma {:induction false} TextLessIff(a: string, b: string)
    ensures TextLess(a, b) <==> exists k: nat :: TextDecidedAt(a, b, k)
  {
    if a != "" && b != "" {
      assert a == [a[0]] + a[1..] && b == [b[0]] + b[1..];
      TextLessIff(a[1..], b[1..]);
      if TextLess(a, b) {
        if a[0] < b[0] {
          assert TextDecidedAt(a, b, 0);
        } else {
          var k: nat :| TextDecidedAt(a[1..], b[1..], k);
          assert a[..k + 1] == [a[0]] + a[1..][..k] && b[..k + 1] == [b[0]] + b[1..][..k];
          assert TextDecidedAt(a, b, k + 1);
        }
      }
      if k: nat :| TextDecidedAt(a, b, k) {
        if k > 0 {
          assert a[..k][0] == b[..k][0] && a[1..][..k - 1] == a[..k][1..] && b[1..][..k - 1] == b[..k][1..];
          assert TextDecidedAt(a[1..], b[1..], k - 1);
        }
      }
    } else if b != "" {
      assert TextDecidedAt(a, b, 0);
    }
  }

  predicate TextDecidedAt(a: string, b: string, k: nat) {
    && k <= |a| && k < |b| && a[..k] == b[..k] && (k < |a| ==> a[k] as int < b[k] as int)
  }

  /** Owner first, then type, then printed data. */
  lemma BeforeMeans(a: RR, b: RR)
    ensures TextLess(a.name, b.name) ==> Before(a, b)
    ensures a.name == b.name && a.rrtype < b.rrtype ==> Before(a, b)
    ensures a.name == b.name && a.rrtype == b.rrtype ==>
      (Before(a, b) <==> TextLess(DataValue(a.data), DataValue(b.data)))
  {
    hide DataValue;
    TextLessIsAsymmetric(a.name, b.name);
  }

  predicate Sorted(rrs: seq<RR>) {
    forall i :: 0 < i < |rrs| ==> !Before(rrs[i], rrs[i - 1])
  }

  /** Library sorting with the comparator Before. */
  method SortRecords(rrs: seq<RR>) returns (sorted: seq<RR>)
    ensures multiset(sorted) == multiset(rrs) && Sorted(sorted)
  {
    hide Before;
    sorted := [];
    for i := 0 to |rrs|
      invariant multiset(sorted) == multiset(rrs[..i]) && Sorted(sorted)
    {
      assert rrs[..i + 1] == rrs[..i] + [rrs[i]];
      sorted := InsertSorted(sorted, rrs[i]);
    }
    assert rrs[..|rrs|] == rrs;
  }

  method InsertSorted(rrs: seq<RR>, rr: RR) returns (sorted: seq<RR>)
    requires Sorted(rrs)
    ensures multiset(sorted) == multiset(rrs) + multiset{rr} && Sorted(sorted)
  {
    hide Before, Sorted;
    var i := 0;
    while i < |rrs| && !Before(rr, rrs[i])
      invariant 0 <= i <= |rrs| && (i > 0 ==> !Before(rr, rrs[i - 1]))
    {
      i := i + 1;
    }
    if i < |rrs| {
      BeforeIsAsymmetric(rr, rrs[i]);
    }
    InsertKeepsSorted(rrs, i, rr);
    assert rrs == rrs[..i] + rrs[i..];
    sorted := rrs[..i] + [rr] + rrs[i..];
  }

  lemma InsertKeepsSorted(rrs: seq<RR>, i: nat, rr: RR)
    requires Sorted(rrs) && i <= |rrs| && (i > 0 ==> !Before(rr, rrs[i - 1])) && (i < |rrs| ==> !Before(rrs[i], rr))
    ensures Sorted(rrs[..i] + [rr] + rrs[i..])
  {
    hide Before;
  }

  lemma BeforeIsAsymmetric(a: RR, b: RR)
    ensures !(Before(a, b) && Before(b, a))
  {
    TextLessIsAsymmetric(a.name, b.name);
    TextLessIsAsymmetric(DataValue(a.data), DataValue(b.data));
  }

  lemma TextOrder(a: string, b: string, c: string)
    ensures !TextLess(b, a) && !TextLess(c, b) ==> !TextLess(c, a)
    ensures !TextLess(a, b) && !TextLess(b, a) ==> a == b
  {
    if a != "" && b != "" {
      TextOrder(a[1..], b[1..], if c == "" then "" else c[1..]);
    }
  }

  lemma RecordOrder(a: RR, b: RR, c: RR)
    requires !Before(b, a) && !Before(c, b)
    ensures !Before(c, a)
  {
    hide DataValue, TextLess;
    TextOrder(a.name, b.name, c.name);
    TextOrder(b.name, c.name, a.name);
    TextOrder(DataValue(a.data), DataValue(b.data), DataValue(c.data));
  }

  /** No record of a sorted list comes before an earlier one, however far apart they are. */
  lemma {:induction false} SortedThroughout(rrs: seq<RR>, i: nat, j: nat)
    requires Sorted(rrs) && i < j < |rrs|
    ensures !Before(rrs[j], rrs[i])
    decreases j
  {
    hide Before;
    if i < j - 1 {
      SortedThroughout(rrs, i, j - 1);
      RecordOrder(rrs[i], rrs[j - 1], rrs[j]);
    }
  }

  /** The records of the zone, each as often as the tree holds it, in sorted order. */
  ghost predicate IsZoneListing(z: Zone, origin: string, rrs: seq<RR>) {
    Sorted(rrs) && exists collected :: Collected(z, origin, collected) && multiset(rrs) == multiset(collected)
  }

  method ZoneRecords(tree: Tree, rawOrigin: string) returns (rrs: seq<RR>)
    requires tree.Valid()
    ensures IsZoneListing(tree.Contents(), NormalizeName(rawOrigin), rrs)
  {
    hide Collected, Sorted, Tree.Valid;
    var collected := CollectZoneRecords(tree, NormalizeName(rawOrigin));
    rrs := SortRecords(collected);
  }

  // ---------------------------------------------------------------- the SOA

  predicate ApexSoa(rr: RR, origin: string) {
    rr.rrtype == TYPE_SOA && NormalizeName(rr.name) == NormalizeName(origin)
  }

  /** The first SOA of the origin or, failing that, the first SOA. */
  predicate IsSoaOf(rrs: seq<RR>, origin: string, i: nat) {
    && i < |rrs| && rrs[i].rrtype == TYPE_SOA
    && (if ApexSoa(rrs[i], origin) then forall j :: 0 <= j < i ==> !ApexSoa(rrs[j], origin)
        else
          && (forall j :: 0 <= j < |rrs| ==> !ApexSoa(rrs[j], origin))
          && (forall j :: 0 <= j < i ==> rrs[j].rrtype != TYPE_SOA))
  }

  /** So the transfer begins with the first record of type 6 that the origin owns or, failing that, the first one. */
  lemma SoaOfMeans(rrs: seq<RR>, origin: string, i: nat)
    requires IsSoaOf(rrs, origin, i)
    ensures i < |rrs| && rrs[i].rrtype == 6
    ensures NormalizeName(rrs[i].name) == NormalizeName(origin) ==>
      forall j :: 0 <= j < i && rrs[j].rrtype == 6 ==> NormalizeName(rrs[j].name) != NormalizeName(origin)
    ensures NormalizeName(rrs[i].name) != NormalizeName(origin) ==>
      (forall rr <- rrs :: rr.rrtype == 6 ==> NormalizeName(rr.name) != NormalizeName(origin))
      && (forall j :: 0 <= j < i ==> rrs[j].rrtype != 6)
  {
    hide NormalizeName;
  }

  method FindSoaRecord(rrs: seq<RR>, origin: string) returns (found: bool, i: nat)
    ensures found <==> exists rr <- rrs :: rr.rrtype == TYPE_SOA
    ensures found ==> IsSoaOf(rrs, origin, i)
  {
    hide NormalizeName;
    i := 0;
    while i < |rrs|
      invariant 0 <= i <= |rrs| && forall j :: 0 <= j < i ==> !ApexSoa(rrs[j], origin)
    {
      if ApexSoa(rrs[i], origin) {
        return true, i;
      }
      i := i + 1;
    }
    i := 0;
    while i < |rrs|
      invariant 0 <= i <= |rrs| && forall j :: 0 <= j < i ==> rrs[j].rrtype != TYPE_SOA
    {
      if rrs[i].rrtype == TYPE_SOA {
        return true, i;
      }
      i := i + 1;
    }
    return false, 0;
  }

  function Others(rrs: seq<RR>, soa: RR): seq<RR> {
    Filter(rrs, (rr: RR) => !IsDuplicate(rr, soa))
  }

  // ---------------------------------------------------------------- frames

  function Batches(rrs: seq<RR>): seq<Frame> {
    if |rrs| == 0 then []
    else if |rrs| <= RECORDS_PER_FRAME then [Records(rrs)]
    else [Records(rrs[..RECORDS_PER_FRAME])] + Batches(rrs[RECORDS_PER_FRAME..])
  }

  /** The whole transfer. */
  function Frames(soa: RR, others: seq<RR>): seq<Frame> {
    [Records([soa])] + Batches(others) + [Records([soa])]
  }

  function Concatenated(frames: seq<Frame>): seq<RR> {
    if |frames| == 0 then [] else (if frames[0].Records? then frames[0].answer else []) + Concatenated(frames[1..])
  }

  lemma {:induction false} BatchesConserve(rrs: seq<RR>)
    ensures Concatenated(Batches(rrs)) == rrs
    ensures |Batches(rrs)| == (|rrs| + RECORDS_PER_FRAME - 1) / RECORDS_PER_FRAME
    ensures forall f <- Batches(rrs) :: f.Records? && 1 <= |f.answer| <= RECORDS_PER_FRAME
  {
    if |rrs| > RECORDS_PER_FRAME {
      BatchesConserve(rrs[RECORDS_PER_FRAME..]);
      assert Batches(rrs)[1..] == Batches(rrs[RECORDS_PER_FRAME..]);
    } else if |rrs| > 0 {
      assert Batches(rrs)[1..] == [];
    }
  }

  lemma ConcatenatedOfConcat(a: seq<Frame>, b: seq<Frame>)
    ensures Concatenated(a + b) == Concatenated(a) + Concatenated(b)
  {
    if |a| == 0 {
      assert a + b == b;
    } else {
      assert (a + b)[1..] == a[1..] + b;
      ConcatenatedOfConcat(a[1..], b);
    }
  }

  /** The frames conserve the records: SOA, the others in order, SOA; their number and sizes are exact. */
  lemma FramesConserve(soa: RR, others: seq<RR>)
    ensures Concatenated(Frames(soa, others)) == [soa] + others + [soa]
    ensures |Frames(soa, others)| == 2 + (|others| + RECORDS_PER_FRAME - 1) / RECORDS_PER_FRAME
    ensures forall f <- Batches(others) :: f.Records? && 1 <= |f.answer| <= RECORDS_PER_FRAME
  {
    hide Batches;
    BatchesConserve(others);
    ConcatenatedOfConcat([Records([soa])] + Batches(others), [Records([soa])]);
    ConcatenatedOfConcat([Records([soa])], Batches(others));
    assert [Records([soa])][1..] == [];
  }

  /** Writes the transfer frame by frame; writes(k) tells whether the k-th write succeeds. */
  method StreamZone(rrs: seq<RR>, origin: string, writes: nat -> bool) returns (written: seq<Frame>, ok: bool)
    ensures (forall rr <- rrs :: rr.rrtype != TYPE_SOA) ==>
      written == Attempted([NotAuthoritative], writes) && ok == writes(0)
    ensures (exists rr <- rrs :: rr.rrtype == TYPE_SOA) ==>
      exists i :: 0 <= i < |rrs| && IsSoaOf(rrs, origin, i) &&
        written == Attempted(Frames(rrs[i], Others(rrs, rrs[i])), writes)
        && ok == (|written| == |Frames(rrs[i], Others(rrs, rrs[i]))|)
  {
    hide IsDuplicate, ApexSoa, IsSoaOf;
    var found, i := FindSoaRecord(rrs, origin);
    if !found {
      written := [];
      return (if writes(0) then [NotAuthoritative] else []), writes(0);
    }
    assert i < |rrs| by {
      SoaIsListed(rrs, origin, i);
    }
    var soa := rrs[i];
    var others := OthersOf(rrs, soa);
    written, ok := WriteFrames(soa, others, writes);
  }

  lemma SoaIsListed(rrs: seq<RR>, origin: string, i: nat)
    requires IsSoaOf(rrs, origin, i)
    ensures i < |rrs|
  {
  }

  method OthersOf(rrs: seq<RR>, soa: RR) returns (others: seq<RR>)
    ensures others == Others(rrs, soa)
  {
    hide IsDuplicate;
    others := [];
    for i := 0 to |rrs|
      invariant others == Others(rrs[..i], soa)
    {
      FilterStep(rrs, i, (rr: RR) => !IsDuplicate(rr, soa));
      if !IsDuplicate(rrs[i], soa) {
        others := others + [rrs[i]];
      }
    }
    assert rrs[..|rrs|] == rrs;
  }

  /** The frames up to the first write that fails; a failed write leaves a proper prefix. */
  function Attempted(frames: seq<Frame>, writes: nat -> bool): (r: seq<Frame>)
    ensures r <= frames
    ensures forall k :: 0 <= k < |r| ==> writes(k)
    ensures r != frames ==> !writes(|r|)
  {
    AttemptedFrom(frames, 0, writes)
  }

  function AttemptedFrom(frames: seq<Frame>, k: nat, writes: nat -> bool): (r: seq<Frame>)
    ensures r <= frames
    ensures forall j :: k <= j < k + |r| ==> writes(j)
    ensures r != frames ==> !writes(k + |r|)
  {
    if |frames| == 0 || !writes(k) then [] else [frames[0]] + AttemptedFrom(frames[1..], k + 1, writes)
  }

  /** Everything before the first failure is written. */
  lemma AttemptedIsMaximal(frames: seq<Frame>, writes: nat -> bool, n: nat)
    requires n <= |frames| && (forall k :: 0 <= k < n ==> writes(k)) && (n < |frames| ==> !writes(n))
    ensures Attempted(frames, writes) == frames[..n]
  {
    AttemptedFromIsMaximal(frames, 0, writes, n);
  }

  lemma {:induction false} AttemptedFromIsMaximal(frames: seq<Frame>, k: nat, writes: nat -> bool, n: nat)
    requires n <= |frames| && (forall j :: k <= j < k + n ==> writes(j)) && (n < |frames| ==> !writes(k + n))
    ensures AttemptedFrom(frames, k, writes) == frames[..n]
  {
    if n > 0 {
      AttemptedFromIsMaximal(frames[1..], k + 1, writes, n - 1);
      assert frames[..n] == [frames[0]] + frames[1..][..n - 1];
    }
  }

  lemma StopsHere(frames: seq<Frame>, written: seq<Frame>, rest: seq<Frame>, writes: nat -> bool)
    requires frames == written + rest && rest != [] && forall k :: 0 <= k < |written| ==> writes(k)
    requires !writes(|written|)
    ensures Attempted(frames, writes) == written && |written| < |frames|
  {
    hide Attempted;
    AttemptedIsMaximal(frames, writes, |written|);
    assert frames[..|written|] == written;
  }

  lemma AllWritten(frames: seq<Frame>, writes: nat -> bool)
    requires forall k :: 0 <= k < |frames| ==> writes(k)
    ensures Attempted(frames, writes) == frames
  {
    hide Attempted;
    AttemptedIsMaximal(frames, writes, |frames|);
    assert frames[..|frames|] == frames;
  }

  method WriteFrames(soa: RR, others: seq<RR>, writes: nat -> bool) returns (written: seq<Frame>, ok: bool)
    ensures written == Attempted(Frames(soa, others), writes) && ok == (|written| == |Frames(soa, others)|)
  {
    hide Batches, Attempted;
    var first, last := Records([soa]), Records([soa]);
    ghost var frames := Frames(soa, others);
    assert frames == [] + ([first] + Batches(others) + [last]);
    if !writes(0) {
      StopsHere(frames, [], frames, writes);
      return [], false;
    }
    written := [first];
    var start := 0;
    ghost var left := others;
    while start < |others|
      invariant left == if start < |others| then others[start..] else []
      invariant frames == written + (Batches(left) + [last])
      invariant |written| >= 1 && forall k :: 0 <= k < |written| ==> writes(k)
    {
      var end := if start + RECORDS_PER_FRAME > |others| then |others| else start + RECORDS_PER_FRAME;
      var batch := others[start..end];
      NextBatch(others, start, end);
      if !writes(|written|) {
        StopsHere(frames, written, Batches(left) + [last], writes);
        return written, false;
      }
      MoveOne(written, Records(batch), Batches(others[end..]), last);
      written := written + [Records(batch)];
      start, left := start + RECORDS_PER_FRAME, others[end..];
    }
    NoBatches();
    if !writes(|written|) {
      StopsHere(frames, written, Batches(left) + [last], writes);
      return written, false;
    }
    assert frames == written + [last];
    AllWritten(frames, writes);
    return written + [last], true;
  }

  lemma NoBatches()
    ensures Batches([]) == []
  {
  }

  lemma MoveOne(a: seq<Frame>, f: Frame, b: seq<Frame>, last: Frame)
    ensures a + (([f] + b) + [last]) == (a + [f]) + (b + [last])
  {
  }

  lemma NextBatch(others: seq<RR>, start: nat, end: nat)
    requires start < |others|
    requires end == (if start + RECORDS_PER_FRAME > |others| then |others| else start + RECORDS_PER_FRAME)
    ensures Batches(others[start..]) == [Records(others[start..end])] + Batches(others[end..])
  {
    var rest := others[start..];
    if |rest| <= RECORDS_PER_FRAME {
      assert others[start..end] == rest && others[end..] == [];
    } else {
      assert rest[..RECORDS_PER_FRAME] == others[start..end] && rest[RECORDS_PER_FRAME..] == others[end..];
    }
  }

  // ---------------------------------------------------------------- conservation of the zone

  lemma CollectedCounts(z: Zone, origin: string, collected: seq<RR>, x: RR)
    requires Collected(z, origin, collected)
    ensures multiset(collected)[x] ==
      if IsNameInZone(NormalizeName(x.name), origin) then multiset(RRset(z, NormalizeName(x.name), x.rrtype))[x] else 0
  {
    hide NormalizeName, IsNameInZone;
    var n := NormalizeName(x.name);
    FilterCounts(collected, (rr: RR) => NormalizeName(rr.name) == n && rr.rrtype == x.rrtype, x);
    assert At(collected, n, x.rrtype) == if IsNameInZone(n, origin) then RRset(z, n, x.rrtype) else [];
  }

  /** Between the two SOAs a full transfer carries every record of the zone that is no duplicate of the SOA,
      exactly as often as the zone holds it, and nothing else. */
  lemma TransferCarriesZone(z: Zone, origin: string, rrs: seq<RR>, soa: RR, x: RR)
    requires IsZoneListing(z, origin, rrs)
    ensures multiset(Concatenated(Batches(Others(rrs, soa))))[x] ==
      if !IsDuplicate(x, soa) && IsNameInZone(NormalizeName(x.name), origin)
      then multiset(RRset(z, NormalizeName(x.name), x.rrtype))[x] else 0
  {
    hide NormalizeName, IsNameInZone, IsDuplicate, Batches, Collected, Sorted;
    BatchesConserve(Others(rrs, soa));
    var collected :| Collected(z, origin, collected) && multiset(rrs) == multiset(collected);
    FilterCounts(rrs, (rr: RR) => !IsDuplicate(rr, soa), x);
    CollectedCounts(z, origin, collected, x);
  }
}
