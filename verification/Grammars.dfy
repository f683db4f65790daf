/** The readers of TXT values and TTLs accept just the texts of a grammar: quoted strings with blanks around them, and
    numbers with units. */
module Grammars {
  import opened Wrappers
  import opened Names
  import opened CaseFolding
  import opened Records
  import opened TextForms
  import opened Ttl

  // ---------------------------------------------------------------- quoted strings

  predicate IsSpecial(c: char) {
    c == '"' || c == '\\'
  }

  /** The body of a quoted string spells the chunk: every character stands for itself, quotes and backslashes with a
      backslash in front and any other one with or without. */
  predicate Spells(body: string, chunk: string) {
    if chunk == "" then body == ""
    else
      || (body != "" && body[0] == chunk[0] && !IsSpecial(body[0]) && Spells(body[1..], chunk[1..]))
      || (|body| >= 2 && body[0] == '\\' && body[1] == chunk[0] && Spells(body[2..], chunk[1..]))
  }

  predicate Blank(s: string) {
    forall i :: 0 <= i < |s| ==> IsSpace(s[i])
  }

  /** The text is the chunks as quoted strings, one after the other, and blanks between and around them. */
  ghost predicate SpellsAll(text: string, chunks: seq<string>)
    decreases |chunks|
  {
    if |chunks| == 0 then Blank(text)
    else exists front, body, rest :: Begins(text, front, body, rest, chunks[0]) && SpellsAll(rest, chunks[1..])
  }

  predicate Begins(text: string, front: string, body: string, rest: string, chunk: string) {
    text == front + "\"" + body + "\"" + rest && Blank(front) && Spells(body, chunk)
  }

  lemma {:induction false} SpelledIsRead(body: string, chunk: string, rest: string)
    requires Spells(body, chunk)
    ensures ReadChunk(body + "\"" + rest, false) == Some((chunk, rest))
  {
    var text := body + "\"" + rest;
    if chunk == "" {
      assert text[1..] == rest;
    } else if body[0] == chunk[0] && !IsSpecial(body[0]) && Spells(body[1..], chunk[1..]) {
      assert text[1..] == body[1..] + "\"" + rest;
      SpelledIsRead(body[1..], chunk[1..], rest);
      assert chunk == [chunk[0]] + chunk[1..];
    } else {
      assert text[1..][1..] == body[2..] + "\"" + rest;
      SpelledIsRead(body[2..], chunk[1..], rest);
      assert text[1..][0] == chunk[0] && chunk == [chunk[0]] + chunk[1..];
    }
  }

  lemma {:induction false} ReadIsSpelled(text: string) returns (body: string)
    requires ReadChunk(text, false).Some?
    ensures var (chunk, rest) := ReadChunk(text, false).value;
      text == body + "\"" + rest && Spells(body, chunk)
    decreases |text|
  {
    var (chunk, rest) := ReadChunk(text, false).value;
    if text[0] == '"' {
      body := "";
    } else if text[0] == '\\' {
      var inner := ReadIsSpelled(text[2..]);
      assert text[1..][1..] == text[2..];
      body := text[..2] + inner;
      assert body[2..] == inner && chunk[1..] == ReadChunk(text[2..], false).value.0;
      assert text == text[..2] + text[2..];
    } else {
      var inner := ReadIsSpelled(text[1..]);
      body := [text[0]] + inner;
      assert body[1..] == inner && chunk[1..] == ReadChunk(text[1..], false).value.0;
      assert text == [text[0]] + text[1..];
    }
  }

  /** Blanks at the end do not matter. */
  lemma {:induction false} BlankBehind(s: string, b: string, chunks: seq<string>)
    requires Blank(b)
    ensures SpellsAll(s, chunks) <==> SpellsAll(s + b, chunks)
    decreases |chunks|
  {
    if |chunks| == 0 {
      BlankConcat(s, b);
    } else {
      if SpellsAll(s, chunks) {
        var front, body, rest :| Begins(s, front, body, rest, chunks[0]) && SpellsAll(rest, chunks[1..]);
        assert s + b == front + "\"" + body + "\"" + (rest + b);
        BlankBehind(rest, b, chunks[1..]);
        assert Begins(s + b, front, body, rest + b, chunks[0]);
      }
      if SpellsAll(s + b, chunks) {
        var front, body, rest :| Begins(s + b, front, body, rest, chunks[0]) && SpellsAll(rest, chunks[1..]);
        var head := front + "\"" + body + "\"";
        QuoteIsInside(s, b, head, rest);
        var m := |s| - |head|;
        assert s[|head|..] + b == rest && s == head + s[|head|..];
        BlankBehind(s[|head|..], b, chunks[1..]);
        assert Begins(s, front, body, s[|head|..], chunks[0]);
      }
    }
  }

  lemma BlankConcat(s: string, b: string)
    requires Blank(b)
    ensures Blank(s) <==> Blank(s + b)
  {
    if Blank(s + b) {
      forall i | 0 <= i < |s| ensures IsSpace(s[i]) {
        assert (s + b)[i] == s[i];
      }
    }
  }

  lemma FirstPart(s: string, b: string, k: nat)
    requires k < |s + b|
    ensures (s + b)[k] == if k < |s| then s[k] else b[k - |s|]
  {
  }

  lemma QuoteIsInside(s: string, b: string, head: string, rest: string)
    requires Blank(b) && s + b == head + rest && head != "" && head[|head| - 1] == '"'
    ensures |head| <= |s| && s[..|head|] == head && s[|head|..] + b == rest
  {
    var k := |head| - 1;
    assert (s + b)[k] == (head + rest)[k] == '"';
    FirstPart(s, b, k);
    assert (s + b)[..|head|] == (head + rest)[..|head|] == head;
    assert (s + b)[|head|..] == (head + rest)[|head|..] == rest;
  }

  /** Nor do they in front. */
  lemma BlankBefore(b: string, s: string, chunks: seq<string>)
    requires Blank(b)
    ensures SpellsAll(s, chunks) <==> SpellsAll(b + s, chunks)
  {
    hide Begins, Blank;
    if |chunks| == 0 {
      BlankInFront(b, s);
    } else {
      if SpellsAll(s, chunks) {
        var front, body, rest :| Begins(s, front, body, rest, chunks[0]) && SpellsAll(rest, chunks[1..]);
        BeginsLater(b, s, front, body, rest, chunks[0]);
      }
      if SpellsAll(b + s, chunks) {
        var front, body, rest :| Begins(b + s, front, body, rest, chunks[0]) && SpellsAll(rest, chunks[1..]);
        BeginsSooner(b, s, front, body, rest, chunks[0]);
      }
    }
  }

  lemma BeginsLater(b: string, s: string, front: string, body: string, rest: string, chunk: string)
    requires Blank(b) && Begins(s, front, body, rest, chunk)
    ensures Begins(b + s, b + front, body, rest, chunk)
  {
    hide Spells, IsSpace;
    assert b + s == (b + front) + "\"" + body + "\"" + rest;
  }

  lemma BeginsSooner(b: string, s: string, front: string, body: string, rest: string, chunk: string)
    requires Blank(b) && Begins(b + s, front, body, rest, chunk)
    ensures |b| <= |front| && Begins(s, front[|b|..], body, rest, chunk)
  {
    hide Spells;
    var tail := "\"" + body + "\"" + rest;
    assert b + s == front + tail;
    QuoteIsBehind(b, s, front, tail);
    assert s == front[|b|..] + "\"" + body + "\"" + rest;
  }

  lemma BlankInFront(b: string, s: string)
    requires Blank(b)
    ensures Blank(s) <==> Blank(b + s)
  {
    if Blank(b + s) {
      forall i | 0 <= i < |s| ensures IsSpace(s[i]) {
        assert (b + s)[|b| + i] == s[i];
      }
    }
  }

  lemma QuoteIsBehind(b: string, s: string, front: string, tail: string)
    requires Blank(b) && b + s == front + tail && tail != "" && tail[0] == '"'
    ensures |b| <= |front| && s == front[|b|..] + tail
  {
    var k := |front|;
    assert (b + s)[k] == (front + tail)[k] == '"';
    FirstPart(b, s, k);
    assert (b + s)[|b|..] == (front + tail)[|b|..];
  }

  lemma NothingSpelled(chunks: seq<string>)
    ensures SpellsAll("", chunks) <==> chunks == []
  {
  }

  /** A text that does not begin with a blank begins with the first string. */
  lemma NoFront(t: string, front: string, body: string, rest: string, chunk: string)
    requires t != "" && !IsSpace(t[0]) && Begins(t, front, body, rest, chunk)
    ensures front == "" && t[0] == '"' && t[1..] == body + "\"" + rest
    ensures ReadChunk(t[1..], false) == Some((chunk, rest))
  {
    hide IsSpace, Spells;
    FirstPart(front, "\"" + body + "\"" + rest, 0);
    assert t == front + ("\"" + body + "\"" + rest);
    assert t == "\"" + (body + "\"" + rest);
    SpelledIsRead(body, chunk, rest);
  }

  /** Unless its beginning is read as the first chunk, a text spells no chunks. */
  lemma NotSpelled(t: string, chunks: seq<string>)
    requires t != "" && !IsSpace(t[0]) && (t[0] != '"' || ReadChunk(t[1..], false).None?)
    ensures !SpellsAll(t, chunks)
  {
    hide IsSpace, Begins, ReadChunk;
    if |chunks| > 0 && SpellsAll(t, chunks) {
      var front, body, rest :| Begins(t, front, body, rest, chunks[0]) && SpellsAll(rest, chunks[1..]);
      NoFront(t, front, body, rest, chunks[0]);
    }
  }

  lemma OneSpelled(t: string, chunk: string, after: string, chunks: seq<string>)
    requires t != "" && t[0] == '"' && ReadChunk(t[1..], false) == Some((chunk, after))
    ensures SpellsAll(t, chunks) <==> |chunks| > 0 && chunks[0] == chunk && SpellsAll(after, chunks[1..])
  {
    hide Begins, ReadChunk, Spells;
    if |chunks| > 0 && SpellsAll(t, chunks) {
      var front, body, rest :| Begins(t, front, body, rest, chunks[0]) && SpellsAll(rest, chunks[1..]);
      NoFront(t, front, body, rest, chunks[0]);
    }
    if |chunks| > 0 && chunks[0] == chunk && SpellsAll(after, chunks[1..]) {
      var body := ReadIsSpelled(t[1..]);
      QuotedBegins(t, body, after, chunk);
    }
  }

  lemma QuotedBegins(t: string, body: string, after: string, chunk: string)
    requires t != "" && t[0] == '"' && t[1..] == body + "\"" + after && Spells(body, chunk)
    ensures Begins(t, "", body, after, chunk)
  {
    assert t == "\"" + t[1..] && "" + "\"" + body + "\"" + after == "\"" + (body + "\"" + after);
  }

  /** One string after the other. */
  lemma ReadStep(t: string, chunks: seq<string>)
    requires t != "" && t[0] == '"'
    ensures var r := ReadChunk(t[1..], false);
      ReadChunks(t) == Some(chunks)
      <==> r.Some? && |chunks| > 0 && chunks[0] == r.value.0 && ReadChunks(TrimSpace(r.value.1)) == Some(chunks[1..])
  {
    hide TrimSpace, ReadChunk;
    var r := ReadChunk(t[1..], false);
    if r.Some? {
      TrimIsShorter(r.value.1);
      if |chunks| > 0 {
        assert chunks == [chunks[0]] + chunks[1..];
      }
      if ReadChunks(TrimSpace(r.value.1)).Some? {
        assert ([r.value.0] + ReadChunks(TrimSpace(r.value.1)).value)[1..] == ReadChunks(TrimSpace(r.value.1)).value;
      }
    }
  }

  /** A value is read as these chunks exactly if it spells them. */
  lemma {:induction false} ReadsIffSpelled(text: string, chunks: seq<string>)
    ensures ReadChunks(TrimSpace(text)) == Some(chunks) <==> SpellsAll(text, chunks)
    decreases |text|
  {
    hide TrimSpace, IsSpace, SpellsAll, ReadChunk, ReadChunks;
    var i, j := TrimSpaceCuts(text);
    var t := text[i..j];
    assert text == text[..i] + t + text[j..];
    BlankEnds(text, i, j);
    BlankBefore(text[..i], t, chunks);
    BlankBehind(text[..i] + t, text[j..], chunks);
    if t == "" {
      NothingSpelled(chunks);
      NothingRead();
    } else if t[0] != '"' || ReadChunk(t[1..], false).None? {
      NotSpelled(t, chunks);
      NotRead(t);
    } else {
      var (chunk, after) := ReadChunk(t[1..], false).value;
      ReadStep(t, chunks);
      OneSpelled(t, chunk, after, chunks);
      if |chunks| > 0 {
        ReadsIffSpelled(after, chunks[1..]);
      }
    }
  }

  lemma BlankEnds(text: string, i: nat, j: nat)
    requires i <= j <= |text|
    requires (forall k :: 0 <= k < i ==> IsSpace(text[k])) && (forall k :: j <= k < |text| ==> IsSpace(text[k]))
    ensures Blank(text[..i]) && Blank(text[j..])
  {
    hide IsSpace;
  }

  lemma NothingRead()
    ensures ReadChunks("") == Some([])
  {
  }

  lemma NotRead(t: string)
    requires t != "" && (t[0] != '"' || ReadChunk(t[1..], false).None?)
    ensures ReadChunks(t) == None
  {
    hide ReadChunk;
  }

  /** So the reader of TXT values takes exactly the quoted lists of valid chunks, at least one, and the single valid
      chunks that do not begin with a quote. */
  lemma TxtValueIff(raw: string, chunks: seq<string>)
    ensures ParseTxt(raw) == Some(chunks)
       <==> var value := TrimSpace(raw);
            && value != "" && chunks != [] && (forall chunk <- chunks :: ValidChunk(chunk))
            && if value[0] == '"' then SpellsAll(raw, chunks) else chunks == [value]
  {
    hide TrimSpace, ReadChunks, SpellsAll, ValidChunk;
    ReadsIffSpelled(raw, chunks);
    TrimSpaceIsTrimmed(raw);
    TrimSpaceIsTrimmed(TrimSpace(raw));
    assert AllValid(chunks) <==> forall chunk <- chunks :: ValidChunk(chunk);
  }

  // ---------------------------------------------------------------- numbers with units

  datatype Component = Component(digits: string, unit: char)

  predicate WellFormed(c: Component) {
    c.digits != "" && AllDigits(c.digits) && DigitsValue(c.digits) <= MAX_TTL && c.unit in "smhdw"
  }

  function Written(cs: seq<Component>): string {
    if |cs| == 0 then "" else cs[0].digits + [cs[0].unit] + Written(cs[1..])
  }

  predicate AllWellFormed(cs: seq<Component>) {
    forall i :: 0 <= i < |cs| ==> WellFormed(cs[i])
  }

  /** The seconds that the components mean together. */
  function Worth(cs: seq<Component>): nat
    requires AllWellFormed(cs)
  {
    if |cs| == 0 then 0
    else
      assert WellFormed(cs[0]);
      DigitsValue(cs[0].digits) * UnitSeconds(cs[0].unit) + Worth(cs[1..])
  }

  lemma {:induction false} WrittenIsRead(cs: seq<Component>)
    requires AllWellFormed(cs)
    ensures Components(Written(cs)).Some? && Sum(Components(Written(cs)).value) == Worth(cs)
  {
    hide DigitsValue, UnitSeconds, Components, Sum;
    NoComponents();
    if |cs| > 0 {
      assert WellFormed(cs[0]);
      WrittenIsRead(cs[1..]);
      FirstIsRead(cs[0], Written(cs[1..]));
      SumOfFront(DigitsValue(cs[0].digits) * UnitSeconds(cs[0].unit), Components(Written(cs[1..])).value);
    }
  }

  lemma FirstIsRead(c: Component, rest: string)
    requires WellFormed(c) && Components(rest).Some?
    ensures Components(c.digits + [c.unit] + rest)
         == Some([DigitsValue(c.digits) * UnitSeconds(c.unit)] + Components(rest).value)
  {
    hide DigitsValue, UnitSeconds, Components;
    Units();
    OneComponent(c.digits, c.unit, rest);
  }

  lemma SumOfFront(n: nat, parts: seq<nat>)
    ensures Sum([n] + parts) == n + Sum(parts)
  {
    assert ([n] + parts)[1..] == parts;
  }

  lemma FrontIsComponent(s: string)
    requires s != "" && Components(s).Some?
    ensures var i := DigitRun(s);
      i < |s| && WellFormed(Component(s[..i], s[i])) && Components(s[i + 1..]).Some?
  {
    hide DigitsValue, UnitSeconds;
    Units();
  }

  lemma {:induction false} ReadIsWritten(s: string) returns (cs: seq<Component>)
    requires Components(s).Some?
    ensures AllWellFormed(cs) && s == Written(cs)
  {
    hide DigitsValue, UnitSeconds, Components, WellFormed;
    if s == "" {
      cs := [];
    } else {
      FrontIsComponent(s);
      var i := DigitRun(s);
      var rest := ReadIsWritten(s[i + 1..]);
      cs := [Component(s[..i], s[i])] + rest;
      assert cs[1..] == rest && s == s[..i] + [s[i]] + s[i + 1..];
    }
  }

  ghost predicate Means(text: string, n: nat) {
    exists cs :: AllWellFormed(cs) && Written(cs) == text && Worth(cs) == n
  }

  /** What a TTL means: a plain number, or components of at most 32 bits each, each a number and one of the five unit
      letters, whose sum, like the number, is from 1 to 2^32 - 1. */
  lemma TtlMeans(raw: string, n: nat)
    ensures Exact(raw) == Some(n)
       <==> var text := TrimSpace(raw);
            && text != "" && 1 <= n <= 0xFFFF_FFFF
            && if AllDigits(text) then DigitsValue(text) == n else Means(text, n)
  {
    hide TrimSpace, DigitsValue, Components, Written, Worth;
    var text := TrimSpace(raw);
    if Components(text).Some? {
      var cs := ReadIsWritten(text);
      WrittenIsRead(cs);
    }
    if cs :| AllWellFormed(cs) && Written(cs) == text && Worth(cs) == n {
      WrittenIsRead(cs);
    }
  }
}
