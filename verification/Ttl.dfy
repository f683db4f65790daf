/** TTLs in the notation of zone files: a plain number of seconds, or numbers with units, summed up in an
    accumulator of 64 bits. */
module Ttl {
  import opened Arithmetic
  import opened Wrappers
  import opened Names
  import opened Records

  const MAX_TTL := 0xFFFF_FFFF

  /** The number of digits at the front. */
  function DigitRun(s: string): (n: nat)
    ensures n <= |s| && AllDigits(s[..n]) && (n < |s| ==> !IsDigit(s[n]))
  {
    if s == "" || !IsDigit(s[0]) then 0
    else
      var n := DigitRun(s[1..]);
      assert s[..n + 1] == [s[0]] + s[1..][..n];
      n + 1
  }

  function UnitSeconds(c: char): nat {
    if c == 's' then 1 else if c == 'm' then 60 else if c == 'h' then 3600 else if c == 'd' then 86400
    else if c == 'w' then 604800 else 0
  }

  /** The units, in seconds; other letters are none. */
  lemma Units()
    ensures UnitSeconds('s') == 1 && UnitSeconds('m') == 60 && UnitSeconds('h') == 60 * UnitSeconds('m')
    ensures UnitSeconds('d') == 24 * UnitSeconds('h') && UnitSeconds('w') == 7 * UnitSeconds('d')
    ensures forall c :: UnitSeconds(c) > 0 <==> c in "smhdw"
  {
  }

  /** A decimal number of at most 32 bits. */
  function ParseUint32(s: string): Option<nat>
    requires AllDigits(s)
  {
    if s != "" && DigitsValue(s) <= MAX_TTL then Some(DigitsValue(s)) else None
  }

  /** The seconds of each number-and-unit component, if the text consists of such components. */
  function Components(s: string): Option<seq<nat>> {
    if s == "" then Some([])
    else
      var i := DigitRun(s);
      if i == 0 || ParseUint32(s[..i]).None? || i == |s| || UnitSeconds(s[i]) == 0 then None
      else
        match Components(s[i + 1..])
        case None => None
        case Some(rest) => Some([DigitsValue(s[..i]) * UnitSeconds(s[i])] + rest)
  }

  function Sum(parts: seq<nat>): nat {
    if |parts| == 0 then 0 else parts[0] + Sum(parts[1..])
  }

  predicate InRange(n: nat) {
    1 <= n <= MAX_TTL
  }

  /** What the parser computes: the sum modulo 2^64, and the text for the zone file. */
  function Parsed(raw: string): Option<(nat, string)> {
    var text := TrimSpace(raw);
    if text == "" then None
    else if AllDigits(text) then (if InRange(DigitsValue(text)) then Some((DigitsValue(text), text)) else None)
    else
      match Components(text)
      case None => None
      case Some(parts) => if InRange(Sum(parts) % UINT64) then Some((Sum(parts) % UINT64, Lower(text))) else None
  }

  method ParseBindTtl(raw: string) returns (result: Option<(Word32, string)>)
    ensures result == Parsed(raw)
  {
    hide TrimSpace, DigitsValue, Components, UnitSeconds, DigitRun;
    var text := TrimSpace(raw);
    if text == "" {
      return None;
    }
    if AllDigits(text) {
      var n := ParseUint32(text);
      return if n.None? || n.value == 0 then None else Some((n.value, text));
    }
    var total, rest := 0, text;
    ghost var exact: nat := 0;
    while rest != ""
      invariant total == exact % UINT64
      invariant Continues(exact, Components(text), Components(rest))
      decreases |rest|
    {
      var i := CountDigits(rest);
      if i == 0 {
        BadComponent(rest);
        return None;
      }
      var n := ParseUint32(rest[..i]);
      if n.None? || i >= |rest| || UnitSeconds(rest[i]) == 0 {
        BadComponent(rest);
        return None;
      }
      var added := n.value * UnitSeconds(rest[i]);
      NextComponent(rest, i);
      ModOfSum(exact, added);
      exact := exact + added;
      total := (total + added) % UINT64;
      rest := rest[i + 1..];
    }
    NoComponents();
    return if total == 0 || total > MAX_TTL then None else Some((total, Lower(text)));
  }

  method CountDigits(rest: string) returns (i: nat)
    ensures i == DigitRun(rest)
  {
    i := 0;
    assert rest[0..] == rest;
    while i < |rest| && IsDigit(rest[i])
      invariant i <= |rest| && DigitRun(rest) == i + DigitRun(rest[i..])
    {
      assert rest[i..][1..] == rest[i + 1..];
      i := i + 1;
    }
  }

  /** The whole is well-formed when the rest is, and its sum is what was read and the sum of the rest. */
  predicate Continues(read: nat, whole: Option<seq<nat>>, rest: Option<seq<nat>>) {
    && (whole.Some? <==> rest.Some?)
    && (whole.Some? ==> Sum(whole.value) == read + Sum(rest.value))
  }

  lemma BadComponent(rest: string)
    requires rest != ""
    requires var i := DigitRun(rest); i == 0 || ParseUint32(rest[..i]).None? || i == |rest| || UnitSeconds(rest[i]) == 0
    ensures Components(rest).None?
  {
  }

  lemma NoComponents()
    ensures Components("") == Some([]) && Sum([]) == 0
  {
  }

  lemma NextComponent(rest: string, i: nat)
    requires rest != "" && i == DigitRun(rest) && 0 < i < |rest| && UnitSeconds(rest[i]) != 0
    requires ParseUint32(rest[..i]).Some?
    ensures Continues(DigitsValue(rest[..i]) * UnitSeconds(rest[i]), Components(rest), Components(rest[i + 1..]))
  {
    hide DigitsValue;
    if Components(rest).Some? {
      assert Components(rest).value[1..] == Components(rest[i + 1..]).value;
    }
  }

  lemma ModOfSum(a: nat, b: nat)
    ensures (a + b) % UINT64 == (a % UINT64 + b) % UINT64
  {
  }

  // ---------------------------------------------------------------- exactness

  /** The meaning of a TTL text, in unbounded arithmetic. */
  function Exact(raw: string): Option<nat> {
    var text := TrimSpace(raw);
    if text == "" then None
    else if AllDigits(text) then (if InRange(DigitsValue(text)) then Some(DigitsValue(text)) else None)
    else
      match Components(text)
      case None => None
      case Some(parts) => if InRange(Sum(parts)) then Some(Sum(parts)) else None
  }

  const MAX_COMPONENT := MAX_TTL * 604800

  lemma ComponentsAreBounded(s: string)
    requires Components(s).Some?
    ensures forall i :: 0 <= i < |Components(s).value| ==> Components(s).value[i] <= MAX_COMPONENT
  {
    hide DigitsValue;
    if s != "" {
      var i := DigitRun(s);
      ComponentsAreBounded(s[i + 1..]);
    }
  }

  lemma SumIsBounded(parts: seq<nat>, max: nat)
    requires forall i :: 0 <= i < |parts| ==> parts[i] <= max
    ensures Sum(parts) <= |parts| * max
  {
    if |parts| > 0 {
      SumIsBounded(parts[1..], max);
      assert |parts| * max == |parts[1..]| * max + max;
    }
  }

  function SecondsOf(raw: string): nat {
    var parts := Components(TrimSpace(raw));
    if parts.None? then 0 else Sum(parts.value)
  }

  function Value(r: Option<(nat, string)>): Option<nat> {
    if r.None? then None else Some(r.value.0)
  }

  /** The parser is right exactly unless the sum reaches 2^64 and its remainder looks like a TTL. */
  lemma ParserIsExactIff(raw: string)
    ensures Value(Parsed(raw)) == Exact(raw)
       <==> AllDigits(TrimSpace(raw)) || SecondsOf(raw) < UINT64 || !InRange(SecondsOf(raw) % UINT64)
  {
    hide TrimSpace, DigitsValue, Components;
    var text := TrimSpace(raw);
    if text != "" && !AllDigits(text) && Components(text).Some? {
      WrapsOrNot(Sum(Components(text).value));
    }
  }

  lemma WrapsOrNot(n: nat)
    ensures n < UINT64 ==> n % UINT64 == n
    ensures n >= UINT64 ==> !InRange(n)
  {
  }

  /** Up to 7101 components the sum cannot wrap, so the parser is right. */
  lemma FewComponentsAreExact(raw: string)
    requires var parts := Components(TrimSpace(raw)); parts.None? || |parts.value| <= 7101
    ensures Value(Parsed(raw)) == Exact(raw)
  {
    hide TrimSpace, DigitsValue, Components;
    ParserIsExactIff(raw);
    var parts := Components(TrimSpace(raw));
    if parts.Some? {
      ComponentsAreBounded(TrimSpace(raw));
      SumIsBounded(parts.value, MAX_COMPONENT);
    }
  }

  lemma {:induction false} RunIsDigits(digits: string, rest: string)
    requires AllDigits(digits) && (rest == "" || !IsDigit(rest[0]))
    ensures DigitRun(digits + rest) == |digits|
  {
    if digits == "" {
      assert digits + rest == rest;
    } else {
      assert (digits + rest)[1..] == digits[1..] + rest;
      RunIsDigits(digits[1..], rest);
    }
  }

  lemma OneComponent(digits: string, unit: char, rest: string)
    requires digits != "" && AllDigits(digits) && DigitsValue(digits) <= MAX_TTL && UnitSeconds(unit) != 0
    requires Components(rest).Some?
    ensures Components(digits + [unit] + rest)
         == Some([DigitsValue(digits) * UnitSeconds(unit)] + Components(rest).value)
  {
    hide DigitsValue;
    var s := digits + [unit] + rest;
    RunIsDigits(digits, [unit] + rest);
    assert s == digits + ([unit] + rest);
    assert s[..|digits|] == digits && s[|digits| + 1..] == rest;
  }

  /** The printed numbers of a list, each with the unit of weeks, in front of a text. */
  function Weeks(n: nat, rest: string): string {
    if n == 0 then rest else Decimal(MAX_TTL) + "w" + Weeks(n - 1, rest)
  }

  lemma {:induction false} WeeksAdd(n: nat, rest: string)
    requires Components(rest).Some?
    ensures Components(Weeks(n, rest)).Some?
    ensures |Components(Weeks(n, rest)).value| == n + |Components(rest).value|
    ensures Sum(Components(Weeks(n, rest)).value) == n * MAX_COMPONENT + Sum(Components(rest).value)
  {
    hide DigitsValue, Components, Decimal;
    if n > 0 {
      WeeksAdd(n - 1, rest);
      DecimalIsRead(MAX_TTL);
      OneComponent(Decimal(MAX_TTL), 'w', Weeks(n - 1, rest));
      var tail := Components(Weeks(n - 1, rest)).value;
      assert ([MAX_TTL * 604800] + tail)[1..] == tail;
    }
  }

  /** What the shortest overflowing text is accepted as. */
  const WRAPPED := 579_584

  /** 7102 components whose sum is 2^64 + WRAPPED. */
  function Overflowing(): string {
    Weeks(7101, Decimal(2006143149) + "w" + "")
  }

  lemma OverflowingSum()
    ensures Components(Overflowing()).Some? && |Components(Overflowing()).value| == 7102
    ensures Sum(Components(Overflowing()).value) == UINT64 + WRAPPED
  {
    hide DigitsValue, Components, Decimal, Weeks;
    NoComponents();
    DecimalIsRead(2006143149);
    OneComponent(Decimal(2006143149), 'w', "");
    assert [2006143149 * 604800] + [] == [2006143149 * 604800] && [2006143149 * 604800][1..] == [];
    WeeksAdd(7101, Decimal(2006143149) + "w" + "");
  }

  lemma {:induction false} WeeksEnds(n: nat, rest: string)
    requires rest != "" && IsDigit(rest[0])
    ensures var w := Weeks(n, rest); w != "" && IsDigit(w[0]) && w[|w| - 1] == rest[|rest| - 1]
  {
    hide Decimal;
    if n > 0 {
      WeeksEnds(n - 1, rest);
      DecimalIsRead(MAX_TTL);
    }
  }

  lemma DigitsAndUnit(text: string)
    requires text != "" && IsDigit(text[0]) && text[|text| - 1] == 'w'
    ensures TrimSpace(text) == text && !AllDigits(text)
  {
    TrimSpaceIsTrimmed(text);
    assert !IsDigit(text[|text| - 1]);
  }

  /** The limit is tight: a text of 7102 components, one more, means more than 2^64 seconds and is accepted as
      less than a week. */
  lemma OverflowIsAccepted()
    ensures Components(TrimSpace(Overflowing())).Some? && |Components(TrimSpace(Overflowing())).value| == 7102
    ensures Exact(Overflowing()).None? && Value(Parsed(Overflowing())) == Some(WRAPPED)
  {
    hide TrimSpace, DigitsValue, Components, Weeks, Decimal, AllDigits;
    DecimalIsRead(2006143149);
    DecimalStarts(2006143149);
    WeeksEnds(7101, Decimal(2006143149) + "w" + "");
    DigitsAndUnit(Overflowing());
    OverflowingSum();
  }

  lemma DecimalStarts(n: nat)
    ensures IsDigit(Decimal(n)[0])
  {
  }
}
