/** The response cache. Entries hold records whose TTL fields can be written; the cache keeps private copies
    and hands out copies, so neither a caller nor a later hit can change what is stored. The library table
    underneath may drop an entry at any time. The timed map the cache refines is a value, and its runs are
    studied on their own. */
module ResponseCache {
  import opened Wrappers
  import opened Records
  import opened Filters

  type Key = string

  const SECOND := 1_000_000_000

  /** A record on the heap. */
  class Cell {
    var rr: RR

    constructor (rr: RR)
      ensures this.rr == rr
    {
      this.rr := rr;
    }
  }

  /** A message whose records are on the heap. */
  datatype CellMessage = CellMessage(rcode: nat, answer: seq<Cell>, authority: seq<Cell>, extra: seq<Cell>)

  datatype Entry = Entry(msg: CellMessage, storedAt: nat, minTtl: Word32)

  /** What an entry amounts to. */
  datatype Timed = Timed(message: Message, storedAt: nat, minTtl: Word32)

  function Cells(m: CellMessage): set<Cell> {
    set c | c in m.answer + m.authority + m.extra
  }

  function Contents(cells: seq<Cell>): (rrs: seq<RR>)
    reads cells
    ensures |rrs| == |cells| && forall i :: 0 <= i < |cells| ==> rrs[i] == cells[i].rr
  {
    seq(|cells|, i requires 0 <= i < |cells| reads cells => cells[i].rr)
  }

  function Value(m: CellMessage): Message
    reads Cells(m)
  {
    Message(m.rcode, Contents(m.answer), Contents(m.authority), Contents(m.extra))
  }

  // ---------------------------------------------------------------- lifetimes

  function SectionMin(rrs: seq<RR>): Word32 {
    if |rrs| == 0 then 0 else if |rrs| == 1 then rrs[0].ttl
    else
      var before := SectionMin(rrs[..|rrs| - 1]);
      if rrs[|rrs| - 1].ttl < before then rrs[|rrs| - 1].ttl else before
  }

  method SectionMinTtl(rrs: seq<RR>) returns (min: Word32)
    ensures min == SectionMin(rrs)
  {
    if |rrs| == 0 {
      return 0;
    }
    min := rrs[0].ttl;
    for i := 1 to |rrs|
      invariant min == SectionMin(rrs[..i])
    {
      assert rrs[..i + 1][..i] == rrs[..i];
      if rrs[i].ttl < min {
        min := rrs[i].ttl;
      }
    }
    assert rrs[..|rrs|] == rrs;
  }

  /** The least TTL of a section with records, and one of its records has it. */
  lemma {:induction false} SectionMinIsLeast(rrs: seq<RR>)
    requires |rrs| > 0
    ensures forall rr <- rrs :: SectionMin(rrs) <= rr.ttl
    ensures exists rr <- rrs :: SectionMin(rrs) == rr.ttl
  {
    if |rrs| > 1 {
      var init, last := rrs[..|rrs| - 1], rrs[|rrs| - 1];
      SectionMinIsLeast(init);
      assert forall rr <- rrs :: rr in init || rr == last;
      assert forall rr <- init :: rr in rrs;
      assert last in rrs;
    } else {
      assert rrs[0] in rrs;
    }
  }

  function MinResponse(m: Message): Word32 {
    var a, n := SectionMin(m.answer), SectionMin(m.authority);
    if n > 0 && (a == 0 || n < a) then n else a
  }

  method MinResponseTtl(m: Message) returns (min: Word32)
    ensures min == MinResponse(m)
  {
    min := SectionMinTtl(m.answer);
    var nsMin := SectionMinTtl(m.authority);
    if nsMin > 0 && (min == 0 || nsMin < min) {
      min := nsMin;
    }
  }

  function Negative(m: Message): Word32 {
    SoaLife(m.authority)
  }

  /** The life of a negative answer: the lesser of TTL and minimum field of the first SOA. */
  function SoaLife(rrs: seq<RR>): Word32 {
    if |rrs| == 0 then 0
    else if rrs[0].data.SOA? then (if rrs[0].data.soa.minttl < rrs[0].ttl then rrs[0].data.soa.minttl else rrs[0].ttl)
    else SoaLife(rrs[1..])
  }

  method NegativeCacheTtl(m: Message) returns (life: Word32)
    ensures life == Negative(m)
  {
    for i := 0 to |m.authority|
      invariant Negative(m) == SoaLife(m.authority[i..])
    {
      var rr := m.authority[i];
      assert m.authority[i..][1..] == m.authority[i + 1..];
      if rr.data.SOA? {
        return if rr.data.soa.minttl < rr.ttl then rr.data.soa.minttl else rr.ttl;
      }
    }
    return 0;
  }

  predicate FirstSoaAt(rrs: seq<RR>, i: nat)
    requires i < |rrs|
  {
    rrs[i].data.SOA? && forall j :: 0 <= j < i ==> !rrs[j].data.SOA?
  }

  /** The life of a denial is the lesser of TTL and minimum field of the first SOA in the authority (section 5 of
      RFC 2308). */
  lemma {:induction false} SoaLifeAt(rrs: seq<RR>, i: nat)
    requires i < |rrs| && FirstSoaAt(rrs, i)
    ensures SoaLife(rrs) <= rrs[i].ttl && SoaLife(rrs) <= rrs[i].data.soa.minttl
    ensures SoaLife(rrs) == rrs[i].ttl || SoaLife(rrs) == rrs[i].data.soa.minttl
    decreases i
  {
    if i > 0 {
      assert !rrs[0].data.SOA?;
      var rest := rrs[1..];
      assert forall j :: 0 <= j < i - 1 ==> rest[j] == rrs[j + 1];
      SoaLifeAt(rest, i - 1);
    }
  }

  /** And zero without an SOA. */
  lemma {:induction false} NoSoaNoLife(rrs: seq<RR>)
    requires forall i :: 0 <= i < |rrs| ==> !rrs[i].data.SOA?
    ensures SoaLife(rrs) == 0
  {
    if |rrs| > 0 {
      NoSoaNoLife(rrs[1..]);
    }
  }

  predicate IsNegative(m: Message) {
    m.rcode == RCODE_NAME_ERROR || (m.rcode == RCODE_SUCCESS && m.answer == [])
  }

  /** The seconds for which a response is stored; zero when it is not stored. */
  function StoreTtl(m: Message): Word32 {
    if IsNegative(m) then Negative(m) else MinResponse(m)
  }

  method Lifetime(m: Message) returns (minTtl: Word32)
    ensures minTtl == StoreTtl(m)
  {
    hide MinResponse, Negative;
    minTtl := MinResponseTtl(m);
    if IsNegative(m) {
      minTtl := NegativeCacheTtl(m);
    }
  }

  predicate HasZero(rrs: seq<RR>) {
    exists rr <- rrs :: rr.ttl == 0
  }

  /** No TTL is smaller, and some record has it. */
  predicate IsLeast(life: Word32, rrs: seq<RR>) {
    (forall rr <- rrs :: life <= rr.ttl) && exists rr <- rrs :: rr.ttl == life
  }

  lemma SectionLeast(rrs: seq<RR>)
    ensures rrs != [] ==> IsLeast(SectionMin(rrs), rrs)
    ensures SectionMin(rrs) == 0 <==> rrs == [] || HasZero(rrs)
  {
    if rrs != [] {
      SectionMinIsLeast(rrs);
    }
  }

  /** For a response that is not negative, the stored life is the least TTL of answer and authority exactly unless
      both have records and exactly one of them holds a zero; then it is the least TTL of the other one. */
  lemma LifeIsLeastIff(m: Message)
    requires !IsNegative(m) && m.answer + m.authority != []
    ensures IsLeast(StoreTtl(m), m.answer + m.authority)
       <==> !(m.answer != [] && m.authority != [] && HasZero(m.answer) != HasZero(m.authority))
    ensures HasZero(m.answer) ==> StoreTtl(m) == SectionMin(m.authority)
    ensures HasZero(m.authority) ==> StoreTtl(m) == SectionMin(m.answer)
  {
    hide SectionMin;
    var all := m.answer + m.authority;
    SectionLeast(m.answer);
    SectionLeast(m.authority);
    assert forall rr :: rr in all <==> rr in m.answer || rr in m.authority;
    if m.answer == [] || m.authority == [] {
      assert all == m.answer || all == m.authority;
    }
  }

  /** It is stored exactly if a section has records and none of them with a zero. */
  lemma StoredIff(m: Message)
    requires !IsNegative(m)
    ensures StoreTtl(m) > 0
       <==> (m.answer != [] && !HasZero(m.answer)) || (m.authority != [] && !HasZero(m.authority))
  {
    hide SectionMin, HasZero;
    SectionLeast(m.answer);
    SectionLeast(m.authority);
  }

  // ---------------------------------------------------------------- ageing

  predicate Outlives(rrs: seq<RR>, elapsed: nat) {
    forall i :: 0 <= i < |rrs| ==> rrs[i].ttl > elapsed
  }

  function Older(rr: RR, elapsed: nat): RR
    requires elapsed <= rr.ttl
  {
    rr.(ttl := rr.ttl - elapsed)
  }

  function AgedSection(rrs: seq<RR>, elapsed: nat): seq<RR>
    requires Outlives(rrs, elapsed)
  {
    seq(|rrs|, i requires 0 <= i < |rrs| => Older(rrs[i], elapsed))
  }

  predicate AllOutlive(m: Message, elapsed: nat) {
    Outlives(m.answer, elapsed) && Outlives(m.authority, elapsed) && Outlives(m.extra, elapsed)
  }

  function Aged(m: Message, elapsed: nat): Message
    requires AllOutlive(m, elapsed)
  {
    Message(m.rcode, AgedSection(m.answer, elapsed), AgedSection(m.authority, elapsed), AgedSection(m.extra, elapsed))
  }

  /** The three sections share no record. */
  predicate Apart(m: CellMessage) {
    Distinct(m.answer + m.authority + m.extra)
  }

  /** Lowers the TTLs in place, one section after the other, up to the first record that has run out. */
  method AdjustRecords(cells: seq<Cell>, elapsed: nat) returns (ok: bool)
    requires Distinct(cells)
    modifies cells
    ensures ok <==> Outlives(old(Contents(cells)), elapsed)
    ensures ok ==> Contents(cells) == AgedSection(old(Contents(cells)), elapsed)
  {
    for i := 0 to |cells|
      invariant forall j :: 0 <= j < i ==>
        old(cells[j].rr).ttl > elapsed && cells[j].rr == Older(old(cells[j].rr), elapsed)
      invariant forall j :: i <= j < |cells| ==> cells[j].rr == old(cells[j].rr)
    {
      if cells[i].rr.ttl <= elapsed {
        assert old(Contents(cells))[i].ttl <= elapsed;
        return false;
      }
      cells[i].rr := Older(cells[i].rr, elapsed);
    }
    assert Contents(cells) == AgedSection(old(Contents(cells)), elapsed);
    return true;
  }

  method AdjustRecordTtls(m: CellMessage, elapsed: nat) returns (ok: bool)
    requires Apart(m)
    modifies Cells(m)
    ensures ok <==> AllOutlive(old(Value(m)), elapsed)
    ensures ok ==> Value(m) == Aged(old(Value(m)), elapsed)
  {
    hide Outlives, AgedSection, Value, Contents;
    ghost var v := Value(m);
    var all := m.answer + m.authority + m.extra;
    AllContents(m);
    assert Contents(all) == AllRecords(v);
    AllRecordsAge(v, elapsed);
    ok := AdjustRecords(all, elapsed);
    AllContents(m);
    if ok {
      assert AllRecords(Value(m)) == AgedSection(AllRecords(v), elapsed);
      SameSections(Value(m), Aged(v, elapsed), m);
    }
  }

  lemma AllContents(m: CellMessage)
    ensures Contents(m.answer + m.authority + m.extra) == AllRecords(Value(m))
    ensures SizedLike(Value(m), m)
  {
  }

  /** The message has as many records in each section as m. */
  predicate SizedLike(v: Message, m: CellMessage) {
    && v.rcode == m.rcode && |v.answer| == |m.answer| && |v.authority| == |m.authority| && |v.extra| == |m.extra|
  }

  predicate SameSizes(v: Message, w: Message) {
    |v.answer| == |w.answer| && |v.authority| == |w.authority| && |v.extra| == |w.extra|
  }

  lemma AllRecordsAge(v: Message, elapsed: nat)
    ensures Outlives(AllRecords(v), elapsed) <==> AllOutlive(v, elapsed)
    ensures AllOutlive(v, elapsed) ==> AllRecords(Aged(v, elapsed)) == AgedSection(AllRecords(v), elapsed)
    ensures AllOutlive(v, elapsed) ==> SameSizes(v, Aged(v, elapsed))
  {
    var all := AllRecords(v);
    var x, y := |v.answer|, |v.answer| + |v.authority|;
    assert forall i :: 0 <= i < |v.answer| ==> all[i] == v.answer[i];
    assert forall i :: 0 <= i < |v.authority| ==> all[x + i] == v.authority[i];
    assert forall i :: 0 <= i < |v.extra| ==> all[y + i] == v.extra[i];
  }

  lemma SameSections(v: Message, w: Message, m: CellMessage)
    requires SizedLike(v, m) && SizedLike(w, m) && AllRecords(v) == AllRecords(w)
    ensures v == w
  {
    var x, y := |m.answer|, |m.answer| + |m.authority|;
    assert v.answer == AllRecords(v)[..x] && w.answer == AllRecords(w)[..x];
    assert v.authority == AllRecords(v)[x..y] && w.authority == AllRecords(w)[x..y];
    assert v.extra == AllRecords(v)[y..] && w.extra == AllRecords(w)[y..];
  }

  // ---------------------------------------------------------------- copies

  method CloneRecords(cells: seq<Cell>) returns (out: seq<Cell>)
    ensures Contents(out) == Contents(cells) && Distinct(out)
    ensures forall c <- out :: fresh(c)
  {
    out := [];
    for i := 0 to |cells|
      invariant |out| == i && Distinct(out) && forall c <- out :: fresh(c)
      invariant forall j :: 0 <= j < i ==> out[j].rr == cells[j].rr
    {
      var c := new Cell(cells[i].rr);
      out := out + [c];
    }
    assert Contents(out) == Contents(cells);
  }

  method CloneMessage(m: CellMessage) returns (copied: CellMessage)
    ensures Value(copied) == old(Value(m)) && Apart(copied) && fresh(Cells(copied))
  {
    var a := CloneRecords(m.answer);
    var n := CloneRecords(m.authority);
    var e := CloneRecords(m.extra);
    copied := CellMessage(m.rcode, a, n, e);
    DistinctConcat(a, n);
    DistinctConcat(a + n, e);
    assert Contents(a) == Contents(m.answer) && Contents(n) == Contents(m.authority);
    assert Contents(e) == Contents(m.extra);
  }

  lemma DistinctConcat(a: seq<Cell>, b: seq<Cell>)
    requires Distinct(a) && Distinct(b) && forall x <- a :: x !in b
    ensures Distinct(a + b)
  {
    forall i, j | 0 <= i < j < |a + b| ensures (a + b)[i] != (a + b)[j] {
      if i < |a| <= j {
        assert a[i] in a && b[j - |a|] in b;
      }
    }
  }

  // ---------------------------------------------------------------- the cache

  class Cache {
    var entries: map<Key, Entry>
    ghost var Repr: set<object>

    constructor ()
      ensures Valid() && fresh(Repr) && Table() == map[]
    {
      entries := map[];
      Repr := {this};
    }

    ghost predicate Valid()
      reads this, Repr
      ensures Valid() ==> this in Repr
    {
      && this in Repr
      && forall k <- entries :: Cells(entries[k].msg) <= Repr
    }

    ghost function Table(): map<Key, Timed>
      requires Valid()
      reads this, Repr
    {
      map k | k in entries :: Timed(Value(entries[k].msg), entries[k].storedAt, entries[k].minTtl)
    }

    /** The library drops an entry. */
    method Drop(key: Key)
      requires Valid()
      modifies this
      ensures Valid() && Repr == old(Repr) && Table() == old(Table()) - {key}
    {
      entries := entries - {key};
    }

    /** Stores a private copy, unless the response may not be kept. */
    method Set(key: Key, resp: CellMessage, now: nat)
      requires Valid()
      modifies this
      ensures Valid() && fresh(Repr - old(Repr)) && old(Repr) <= Repr
      ensures Table() == Stored(old(Table()), key, old(Value(resp)), now)
    {
      hide StoreTtl, Contents, Apart;
      var minTtl := Lifetime(Value(resp));
      assert Table() == old(Table());
      if minTtl == 0 {
        return;
      }
      var copied := CloneMessage(resp);
      assert Table() == old(Table());
      Put(key, Entry(copied, now, minTtl));
    }

    method Put(key: Key, entry: Entry)
      requires Valid()
      modifies this
      ensures Valid() && Repr == old(Repr) + Cells(entry.msg)
      ensures Table() == old(Table())[key := Timed(Value(entry.msg), entry.storedAt, entry.minTtl)]
    {
      hide Value, Cells;
      entries := entries[key := entry];
      Repr := Repr + Cells(entry.msg);
      assert Table().Keys == old(Table()).Keys + {key};
    }

    /** The copy that is served has every TTL lowered by the whole seconds since it was stored; an entry
        that has run out is deleted. */
    method Get(key: Key, now: nat) returns (hit: Option<CellMessage>)
      requires Valid() && (key in Table() ==> Table()[key].storedAt <= now)
      modifies this
      ensures Valid() && Repr == old(Repr)
      ensures hit.Some? <==> Serves(old(Table()), key, now)
      ensures hit.Some? ==> fresh(Cells(hit.value)) && Apart(hit.value) && Table() == old(Table())
      ensures hit.Some? ==> Value(hit.value) == Served(old(Table()), key, now)
      ensures hit.None? ==> Table() == old(Table()) || Table() == old(Table()) - {key}
    {
      hide Apart, Outlives, AgedSection;
      if key !in entries || LibraryExpired(entries[key].storedAt, entries[key].minTtl, now) {
        return None;
      }
      var entry := entries[key];
      ghost var timed := Table()[key];
      var elapsed := (now - entry.storedAt) / SECOND;
      if elapsed >= entry.minTtl {
        Drop(key);
        return None;
      }
      var resp := CloneMessage(entry.msg);
      var ok := AdjustRecordTtls(resp, elapsed);
      assert Table() == old(Table());
      if !ok {
        Drop(key);
        return None;
      }
      return Some(resp);
    }
  }

  // ---------------------------------------------------------------- the timed map

  /** The library no longer returns an item once its time to live is over. */
  predicate LibraryExpired(storedAt: nat, minTtl: nat, now: nat) {
    now > storedAt + minTtl * SECOND
  }

  function Stored(table: map<Key, Timed>, key: Key, m: Message, now: nat): map<Key, Timed> {
    if StoreTtl(m) == 0 then table else table[key := Timed(m, now, StoreTtl(m))]
  }

  function Elapsed(t: Timed, now: nat): nat {
    if t.storedAt <= now then (now - t.storedAt) / SECOND else 0
  }

  predicate Serves(table: map<Key, Timed>, key: Key, now: nat) {
    && key in table && Elapsed(table[key], now) < table[key].minTtl
    && AllOutlive(table[key].message, Elapsed(table[key], now))
  }

  function Served(table: map<Key, Timed>, key: Key, now: nat): Message
    requires Serves(table, key, now)
  {
    Aged(table[key].message, Elapsed(table[key], now))
  }

  // ---------------------------------------------------------------- runs

  /** What happens to the cache; a look-up that misses is followed by an eviction when it deleted the entry. */
  datatype Event = Store(key: Key, message: Message) | LookUp(key: Key) | Evict(key: Key) | Tick(nanoseconds: nat)

  datatype State = State(table: map<Key, Timed>, now: nat)

  function Apply(s: State, e: Event): State {
    match e
    case Store(key, message) => s.(table := Stored(s.table, key, message, s.now))
    case LookUp(_) => s
    case Evict(key) => s.(table := s.table - {key})
    case Tick(nanoseconds) => s.(now := s.now + nanoseconds)
  }

  function After(events: seq<Event>): State {
    if |events| == 0 then State(map[], 0) else Apply(After(events[..|events| - 1]), events[|events| - 1])
  }

  /** The event stores a response under the key that may be kept. */
  predicate Keeps(e: Event, key: Key) {
    e.Store? && e.key == key && StoreTtl(e.message) > 0
  }

  predicate LastStored(events: seq<Event>, key: Key, i: nat) {
    i < |events| && Keeps(events[i], key) && forall j :: i < j < |events| ==> !Keeps(events[j], key)
  }

  predicate Tracks(events: seq<Event>, key: Key, i: nat, t: Timed) {
    LastStored(events, key, i) && t == Timed(events[i].message, After(events[..i]).now, StoreTtl(events[i].message))
  }

  lemma {:induction false} TimeAdvances(events: seq<Event>, i: nat)
    requires i <= |events|
    ensures After(events[..i]).now <= After(events).now
    decreases |events|
  {
    if i < |events| {
      var init := events[..|events| - 1];
      TimeAdvances(init, i);
      assert init[..i] == events[..i];
    } else {
      assert events[..i] == events;
    }
  }

  /** An entry of the table is what the last kept response for its key left there. */
  lemma {:induction false} TableTracksStores(events: seq<Event>, key: Key)
    requires key in After(events).table
    ensures exists i: nat :: Tracks(events, key, i, After(events).table[key])
  {
    hide StoreTtl;
    var n := |events| - 1;
    var init, last := events[..n], events[n];
    if Keeps(last, key) {
      assert Tracks(events, key, n, After(events).table[key]);
    } else {
      assert key in After(init).table && After(init).table[key] == After(events).table[key];
      TableTracksStores(init, key);
      var i: nat :| Tracks(init, key, i, After(init).table[key]);
      assert init[..i] == events[..i];
      assert Tracks(events, key, i, After(events).table[key]);
    }
  }

  /** A served record against the stored one: its TTL is lower by the whole seconds passed and at least one, and
      it ends less than a second after the stored record would. */
  predicate ServedInTime(stored: RR, served: RR, storedAt: nat, now: nat) {
    && storedAt <= now && stored.ttl >= (now - storedAt) / SECOND + 1
    && served == stored.(ttl := stored.ttl - (now - storedAt) / SECOND) && served.ttl >= 1
    && now + served.ttl * SECOND < storedAt + stored.ttl * SECOND + SECOND
  }

  predicate SectionInTime(stored: seq<RR>, served: seq<RR>, storedAt: nat, now: nat) {
    |stored| == |served| && forall j :: 0 <= j < |stored| ==> ServedInTime(stored[j], served[j], storedAt, now)
  }

  lemma AgedInTime(stored: seq<RR>, storedAt: nat, now: nat)
    requires storedAt <= now && Outlives(stored, (now - storedAt) / SECOND)
    ensures SectionInTime(stored, AgedSection(stored, (now - storedAt) / SECOND), storedAt, now)
  {
  }

  predicate Fresh(stored: Message, served: Message, storedAt: nat, now: nat) {
    && stored.rcode == served.rcode && SectionInTime(stored.answer, served.answer, storedAt, now)
    && SectionInTime(stored.authority, served.authority, storedAt, now)
    && SectionInTime(stored.extra, served.extra, storedAt, now)
  }

  /** In every run a hit is the response last kept under the key, and every record of it is in time. */
  lemma HitIsLastStored(events: seq<Event>, key: Key)
    requires var s := After(events); Serves(s.table, key, s.now)
    ensures var s := After(events);
      exists i: nat :: LastStored(events, key, i) &&
        Fresh(events[i].message, Served(s.table, key, s.now), After(events[..i]).now, s.now)
  {
    hide StoreTtl, Outlives, AgedSection, SectionInTime, After;
    var s := After(events);
    TableTracksStores(events, key);
    var i: nat :| Tracks(events, key, i, s.table[key]);
    TimeAdvances(events, i);
    var m, at := events[i].message, After(events[..i]).now;
    AgedInTime(m.answer, at, s.now);
    AgedInTime(m.authority, at, s.now);
    AgedInTime(m.extra, at, s.now);
    assert Fresh(m, Served(s.table, key, s.now), at, s.now);
  }

  /** A response with a zero TTL in any section is never served, even where it was stored. */
  lemma ZeroTtlIsNeverServed(table: map<Key, Timed>, key: Key, now: nat, rr: RR)
    requires key in table && rr in AllRecords(table[key].message) && rr.ttl == 0
    ensures !Serves(table, key, now)
  {
    var m := table[key].message;
    if rr in m.answer {
      var i :| 0 <= i < |m.answer| && m.answer[i] == rr;
    } else if rr in m.authority {
      var i :| 0 <= i < |m.authority| && m.authority[i] == rr;
    } else {
      var i :| 0 <= i < |m.extra| && m.extra[i] == rr;
    }
  }

  /** Responses stored in vain: not negative, with a life, and with a zero TTL that keeps them from being served. That
      takes a section of answer and authority with records and no zero, and a zero in the other one or in the extra
      section. */
  lemma StoredInVainIff(m: Message)
    requires !IsNegative(m)
    ensures StoreTtl(m) > 0 && HasZero(AllRecords(m))
       <==> || (m.answer != [] && !HasZero(m.answer) && (HasZero(m.authority) || HasZero(m.extra)))
            || (m.authority != [] && !HasZero(m.authority) && (HasZero(m.answer) || HasZero(m.extra)))
  {
    hide SectionMin, StoreTtl;
    StoredIff(m);
    assert forall rr :: rr in AllRecords(m) <==> rr in m.answer || rr in m.authority || rr in m.extra;
  }

  /** The life of a stored response by its fields. A denial, that is a name error (3) or a success (0) with nothing in
      the answer, lives as its first SOA says, without one not at all. */
  lemma DenialLife(m: Message, i: nat)
    requires m.rcode == 3 || (m.rcode == 0 && |m.answer| == 0)
    ensures i < |m.authority| && FirstSoaAt(m.authority, i) ==>
      var rr := m.authority[i];
      StoreTtl(m) == if rr.ttl < rr.data.soa.minttl then rr.ttl else rr.data.soa.minttl
    ensures (forall j :: 0 <= j < |m.authority| ==> !m.authority[j].data.SOA?) ==> StoreTtl(m) == 0
  {
    hide SoaLife;
    if i < |m.authority| && FirstSoaAt(m.authority, i) {
      SoaLifeAt(m.authority, i);
    }
    if forall j :: 0 <= j < |m.authority| ==> !m.authority[j].data.SOA? {
      NoSoaNoLife(m.authority);
    }
  }

  /** Any other response is stored if answer or authority has records and none with a zero, for the TTL of one of these
      records; a record with a lower TTL stands in a section with a zero. */
  lemma OtherLife(m: Message)
    requires m.rcode != 3 && (m.rcode != 0 || |m.answer| > 0)
    ensures StoreTtl(m) > 0
       <==> (m.answer != [] && !HasZero(m.answer)) || (m.authority != [] && !HasZero(m.authority))
    ensures StoreTtl(m) > 0 ==> exists rr <- m.answer + m.authority :: rr.ttl == StoreTtl(m)
    ensures forall rr <- m.answer :: rr.ttl < StoreTtl(m) ==> HasZero(m.answer)
    ensures forall rr <- m.authority :: rr.ttl < StoreTtl(m) ==> HasZero(m.authority)
  {
    hide SectionMin, HasZero;
    StoredIff(m);
    SectionLeast(m.answer);
    SectionLeast(m.authority);
    assert forall rr :: rr in m.answer + m.authority <==> rr in m.answer || rr in m.authority;
  }

  /** Nothing evicted the key after the i-th event. */
  predicate StaysAfter(events: seq<Event>, key: Key, i: nat) {
    forall j :: i < j < |events| ==> events[j] != Evict(key)
  }

  lemma {:induction false} LastStoredStays(events: seq<Event>, key: Key, i: nat)
    requires LastStored(events, key, i) && StaysAfter(events, key, i)
    ensures key in After(events).table && Tracks(events, key, i, After(events).table[key])
    decreases |events|
  {
    hide StoreTtl;
    var n := |events| - 1;
    var init, last := events[..n], events[n];
    if i < n {
      assert LastStored(init, key, i) && StaysAfter(init, key, i);
      LastStoredStays(init, key, i);
      assert init[..i] == events[..i];
      assert !Keeps(last, key) && last != Evict(key);
    }
  }

  /** Unless it was evicted, the response last kept under the key is a hit exactly while the whole seconds since are
      fewer than its life and than the TTL of each of its records. */
  lemma HitIff(events: seq<Event>, key: Key, i: nat)
    requires LastStored(events, key, i) && StaysAfter(events, key, i)
    ensures var s := After(events);
      var (m, elapsed) := (events[i].message, (s.now - After(events[..i]).now) / SECOND);
      Serves(s.table, key, s.now)
      <==> elapsed < StoreTtl(m) && forall rr <- m.answer + m.authority + m.extra :: rr.ttl > elapsed
  {
    hide StoreTtl, After, Outlives;
    var s := After(events);
    LastStoredStays(events, key, i);
    TimeAdvances(events, i);
    var m, elapsed := events[i].message, (s.now - After(events[..i]).now) / SECOND;
    OutlivesAll(m.answer, m.authority, m.extra, elapsed);
  }

  lemma OutlivesAll(a: seq<RR>, b: seq<RR>, c: seq<RR>, elapsed: nat)
    ensures Outlives(a, elapsed) && Outlives(b, elapsed) && Outlives(c, elapsed)
       <==> forall rr <- a + b + c :: rr.ttl > elapsed
  {
    OutlivesIff(a, elapsed);
    OutlivesIff(b, elapsed);
    OutlivesIff(c, elapsed);
    hide Outlives;
    assert forall rr :: rr in a + b + c <==> rr in a || rr in b || rr in c;
  }

  lemma OutlivesIff(rrs: seq<RR>, elapsed: nat)
    ensures Outlives(rrs, elapsed) <==> forall rr <- rrs :: rr.ttl > elapsed
  {
  }
}
