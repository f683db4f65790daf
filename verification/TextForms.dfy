/** Text forms that must survive printing and reading: the chunks of a TXT record, and owner names written
    relative to the zone origin. Texts are sequences of code points; chunk lengths are in UTF-8 octets. */
module TextForms {
  import opened Wrappers
  import opened Names
  import opened ZoneNames

  // ---------------------------------------------------------------- TXT chunks

  predicate ValidChunk(s: string) {
    s != "" && ByteLength(s) <= 255
  }

  /** A chunk of ASCII characters may have 1 to 255 of them (section 3.3 of RFC 1035). */
  lemma ChunkLength(s: string)
    requires forall i :: 0 <= i < |s| ==> s[i] as int < 128
    ensures ValidChunk(s) <==> 1 <= |s| <= 255
  {
    AsciiLength(s);
  }

  function EscapeChunk(s: string): string {
    if s == "" then ""
    else if s[0] == '\\' || s[0] == '"' then ['\\', s[0]] + EscapeChunk(s[1..])
    else [s[0]] + EscapeChunk(s[1..])
  }

  function Quoted(chunk: string): string {
    "\"" + EscapeChunk(chunk) + "\""
  }

  function FormatTxt(chunks: seq<string>): string {
    if |chunks| == 0 then "" else if |chunks| == 1 then Quoted(chunks[0])
    else Quoted(chunks[0]) + " " + FormatTxt(chunks[1..])
  }

  /** The text up to the closing quote, unescaped, and what follows the quote. */
  function ReadChunk(text: string, escaped: bool): (r: Option<(string, string)>)
    ensures r.Some? ==> |r.value.1| < |text|
  {
    if text == "" then None
    else if !escaped && text[0] == '\\' then ReadChunk(text[1..], true)
    else if !escaped && text[0] == '"' then Some(("", text[1..]))
    else
      match ReadChunk(text[1..], false)
      case None => None
      case Some((chunk, after)) => Some(([text[0]] + chunk, after))
  }

  lemma TrimIsShorter(s: string)
    ensures |TrimSpace(s)| <= |s|
    ensures |TrimSpace(s)| == |s| <==> Trimmed(s)
    ensures Trimmed(s) ==> TrimSpace(s) == s
  {
    TrimSpaceIsTrimmed(s);
    TrimLeftLength(s);
    TrimRightLength(TrimLeft(s));
  }

  lemma TrimLeftLength(s: string)
    ensures |TrimLeft(s)| <= |s| && (|TrimLeft(s)| == |s| ==> TrimLeft(s) == s)
  {
  }

  lemma TrimRightLength(s: string)
    ensures |TrimRight(s)| <= |s| && (|TrimRight(s)| == |s| ==> TrimRight(s) == s)
  {
  }

  /** The chunks of a text of quoted strings, blanks between them ignored. */
  function ReadChunks(text: string): Option<seq<string>>
    decreases |text|
  {
    if text == "" then Some([])
    else if text[0] != '"' then None
    else
      match ReadChunk(text[1..], false)
      case None => None
      case Some((chunk, after)) =>
        TrimIsShorter(after);
        match ReadChunks(TrimSpace(after))
        case None => None
        case Some(chunks) => Some([chunk] + chunks)
  }

  function Behind(chunks: seq<string>, rest: Option<seq<string>>): Option<seq<string>> {
    if rest.None? then None else Some(chunks + rest.value)
  }

  /** Scans one quoted string after the other; the inner loop reads one of them character by character. */
  method SplitQuotedTxt(value: string) returns (result: Option<seq<string>>)
    ensures result == ReadChunks(TrimSpace(value))
  {
    hide TrimSpace;
    var chunks: seq<string> := [];
    var rest := TrimSpace(value);
    BehindNothing(ReadChunks(rest));
    while rest != ""
      invariant ReadChunks(TrimSpace(value)) == Behind(chunks, ReadChunks(rest))
      decreases |rest|
    {
      if rest[0] != '"' {
        return None;
      }
      var read := ScanChunk(rest[1..]);
      if read.None? {
        return None;
      }
      var (chunk, after) := read.value;
      TrimIsShorter(after);
      BehindOne(chunks, chunk, ReadChunks(TrimSpace(after)));
      chunks := chunks + [chunk];
      rest := TrimSpace(after);
    }
    assert chunks + [] == chunks;
    return Some(chunks);
  }

  lemma BehindNothing(rest: Option<seq<string>>)
    ensures Behind([], rest) == rest
  {
    if rest.Some? {
      assert [] + rest.value == rest.value;
    }
  }

  lemma BehindOne(chunks: seq<string>, chunk: string, rest: Option<seq<string>>)
    ensures Behind(chunks, if rest.None? then None else Some([chunk] + rest.value)) == Behind(chunks + [chunk], rest)
  {
    if rest.Some? {
      assert chunks + ([chunk] + rest.value) == (chunks + [chunk]) + rest.value;
    }
  }

  function WithFront(front: string, r: Option<(string, string)>): Option<(string, string)> {
    match r
    case None => None
    case Some((chunk, after)) => Some((front + chunk, after))
  }

  method ScanChunk(rest: string) returns (read: Option<(string, string)>)
    ensures read == ReadChunk(rest, false)
  {
    var chunk, escaped := "", false;
    assert rest[0..] == rest;
    FrontEmpty(ReadChunk(rest, false));
    for i := 0 to |rest|
      invariant ReadChunk(rest, false) == WithFront(chunk, ReadChunk(rest[i..], escaped))
    {
      assert rest[i..][1..] == rest[i + 1..];
      if escaped {
        FrontGrows(chunk, rest[i], ReadChunk(rest[i + 1..], false));
        chunk, escaped := chunk + [rest[i]], false;
      } else if rest[i] == '\\' {
        escaped := true;
      } else if rest[i] == '"' {
        assert chunk + "" == chunk;
        return Some((chunk, rest[i + 1..]));
      } else {
        FrontGrows(chunk, rest[i], ReadChunk(rest[i + 1..], false));
        chunk := chunk + [rest[i]];
      }
    }
    return None;
  }

  lemma FrontEmpty(r: Option<(string, string)>)
    ensures WithFront("", r) == r
  {
    if r.Some? {
      assert "" + r.value.0 == r.value.0;
    }
  }

  lemma FrontGrows(front: string, c: char, r: Option<(string, string)>)
    ensures WithFront(front, WithFront([c], r)) == WithFront(front + [c], r)
  {
    if r.Some? {
      assert front + ([c] + r.value.0) == (front + [c]) + r.value.0;
    }
  }

  predicate AllValid(chunks: seq<string>) {
    forall i :: 0 <= i < |chunks| ==> ValidChunk(chunks[i])
  }

  /** A value that starts with a quote is a list of quoted chunks; any other is one chunk. */
  function ParseTxt(raw: string): Option<seq<string>> {
    var value := TrimSpace(raw);
    if value == "" then None
    else if value[0] == '"' then
      match ReadChunks(value)
      case None => None
      case Some(chunks) => if chunks != [] && AllValid(chunks) then Some(chunks) else None
    else if ValidChunk(value) then Some([value]) else None
  }

  /** A value without a quote in front is one chunk, blanks inside included. */
  lemma BareValue(value: string)
    requires Trimmed(value) && value != "" && value[0] != '"'
    ensures ParseTxt(value) == if ByteLength(value) <= 255 then Some([value]) else None
  {
    TrimSpaceIsTrimmed(value);
  }

  method ParseTxtValue(raw: string) returns (result: Option<seq<string>>)
    ensures result == ParseTxt(raw)
  {
    hide TrimSpace, ReadChunks, ValidChunk;
    var value := TrimSpace(raw);
    if value == "" {
      return None;
    }
    if value[0] != '"' {
      return if ValidChunk(value) then Some([value]) else None;
    }
    TrimSpaceIsTrimmed(raw);
    TrimSpaceIsTrimmed(value);
    var chunks := SplitQuotedTxt(value);
    if chunks.None? || |chunks.value| == 0 {
      return None;
    }
    for i := 0 to |chunks.value|
      invariant forall j :: 0 <= j < i ==> ValidChunk(chunks.value[j])
    {
      if !ValidChunk(chunks.value[i]) {
        return None;
      }
    }
    return chunks;
  }

  lemma {:induction false} ReadsEscaped(chunk: string, after: string)
    ensures ReadChunk(EscapeChunk(chunk) + "\"" + after, false) == Some((chunk, after))
  {
    var text := EscapeChunk(chunk) + "\"" + after;
    if chunk == "" {
      assert text[1..] == after;
    } else {
      var c, rest := chunk[0], EscapeChunk(chunk[1..]) + "\"" + after;
      ReadsEscaped(chunk[1..], after);
      assert [c] + chunk[1..] == chunk;
      if c == '\\' || c == '"' {
        assert text == ['\\', c] + rest;
        assert text[1..] == [c] + rest && text[1..][1..] == rest;
        assert ReadChunk(text[1..], true) == Some(([c] + chunk[1..], after));
      } else {
        assert text == [c] + rest;
        assert text[1..] == rest;
      }
    }
  }

  lemma FormatIsTrimmed(chunks: seq<string>)
    requires |chunks| > 0
    ensures var t := FormatTxt(chunks); t != "" && t[0] == '"' && t[|t| - 1] == '"' && Trimmed(t)
  {
    if |chunks| > 1 {
      FormatIsTrimmed(chunks[1..]);
    }
  }

  lemma TrimOfSpaced(text: string)
    requires Trimmed(text) && text != ""
    ensures TrimSpace(" " + text) == text
  {
    assert (" " + text)[1..] == text;
    TrimSpaceIsTrimmed(text);
  }

  /** The printed chunks are read back, whatever they contain. */
  lemma {:induction false} ReadsFormatted(chunks: seq<string>)
    requires |chunks| > 0
    ensures ReadChunks(FormatTxt(chunks)) == Some(chunks)
  {
    hide TrimSpace;
    var text := FormatTxt(chunks);
    if |chunks| == 1 {
      assert text[1..] == EscapeChunk(chunks[0]) + "\"" + "";
      ReadsEscaped(chunks[0], "");
      TrimSpaceIsTrimmed("");
      assert [chunks[0]] + [] == chunks;
    } else {
      var rest := FormatTxt(chunks[1..]);
      assert text[1..] == EscapeChunk(chunks[0]) + "\"" + (" " + rest);
      ReadsEscaped(chunks[0], " " + rest);
      FormatIsTrimmed(chunks[1..]);
      TrimOfSpaced(rest);
      ReadsFormatted(chunks[1..]);
      assert [chunks[0]] + chunks[1..] == chunks;
    }
  }

  /** Reading undoes printing exactly for the non-empty lists of valid chunks; their quotes, backslashes and
      blanks do not matter. */
  lemma TxtRoundTrip(chunks: seq<string>)
    ensures ParseTxt(FormatTxt(chunks)) == Some(chunks) <==> chunks != [] && AllValid(chunks)
  {
    hide TrimSpace, ReadChunks, ValidChunk;
    TrimSpaceIsTrimmed("");
    if chunks != [] {
      FormatIsTrimmed(chunks);
      TrimSpaceIsTrimmed(FormatTxt(chunks));
      ReadsFormatted(chunks);
    }
  }

  /** Whatever was read is read again from its printed form. */
  lemma TxtPrintedFormIsStable(raw: string)
    requires ParseTxt(raw).Some?
    ensures ParseTxt(FormatTxt(ParseTxt(raw).value)) == ParseTxt(raw)
  {
    hide TrimSpace, ReadChunks, ValidChunk, FormatTxt;
    TxtRoundTrip(ParseTxt(raw).value);
  }

  // ---------------------------------------------------------------- owner names

  function Apex(origin: string): string {
    TrimSuffix(NormalizeName(origin), ".")
  }

  function ZoneSuffix(origin: string): string {
    "." + Apex(origin) + "."
  }

  function RelativeOwnerName(name: string, origin: string): string {
    var n := NormalizeName(name);
    if n == NormalizeName(origin) then "@" else TrimSuffix(n, ZoneSuffix(origin))
  }

  /** Nothing for the root origin. */
  function QualifyRecordName(origin: string, raw: string): Option<string> {
    var o := NormalizeName(origin);
    var name := TrimSpace(raw);
    if o == "." then None
    else if name == "" || name == "@" then Some(o)
    else if EndsInDot(name) then Some(NormalizeName(name))
    else Some(NormalizeName(name + "." + Apex(origin)))
  }

  /** No blank and no dot at the end. */
  predicate EndsPlain(s: string) {
    s != "" && !IsSpace(s[|s| - 1]) && s[|s| - 1] != '.'
  }

  /** The names whose relative form leads back to them: those outside the zone, the origin itself, and below it
      those whose relative part is not "@" and ends, like the origin, in neither blank nor dot. */
  predicate Restorable(name: string, origin: string) {
    var n := NormalizeName(name);
    || n == NormalizeName(origin)
    || !HasSuffix(n, ZoneSuffix(origin))
    || (var r := TrimSuffix(n, ZoneSuffix(origin)); r != "@" && EndsPlain(r) && EndsPlain(Apex(origin)))
  }

  lemma NormalizedLength(s: string)
    ensures |NormalizeName(s)| <= |s| + 1
    ensures EndsInDot(TrimSpace(s)) ==> |NormalizeName(s)| <= |s|
    ensures !Trimmed(s) ==> |NormalizeName(s)| <= |s|
  {
    TrimIsShorter(s);
    if TrimSpace(s) != "" {
      assert Lower(TrimSpace(s))[|TrimSpace(s)| - 1] == LowerChar(TrimSpace(s)[|TrimSpace(s)| - 1]);
    }
  }

  /** A normalised name below the origin: its relative part in front of the zone suffix. */
  lemma BelowSplits(name: string, origin: string)
    requires HasSuffix(NormalizeName(name), ZoneSuffix(origin))
    ensures NormalizeName(name) == TrimSuffix(NormalizeName(name), ZoneSuffix(origin)) + ZoneSuffix(origin)
  {
    hide NormalizeName;
  }

  lemma LowerOfDotted(r: string, apex: string)
    requires Lower(r + "." + apex + ".") == r + "." + apex + "."
    ensures Lower(r + "." + apex) == r + "." + apex
  {
    var t := r + "." + apex;
    forall i | 0 <= i < |t| ensures LowerChar(t[i]) == t[i] {
      assert Lower(t + ".")[i] == LowerChar((t + ".")[i]) && (t + ".")[i] == t[i];
    }
  }

  lemma BelowIsRestored(r: string, apex: string)
    requires Normal(r + "." + apex + ".") && EndsPlain(r) && EndsPlain(apex)
    ensures Trimmed(r) && !EndsInDot(r) && NormalizeName(r + "." + apex) == r + "." + apex + "."
  {
    var t := r + "." + apex;
    assert (t + ".")[0] == r[0];
    LowerOfDotted(r, apex);
    TrimSpaceIsTrimmed(t);
  }

  /** A relative part or an origin that does not end plainly makes the text that is qualified too short. */
  lemma BelowIsLost(name: string, origin: string)
    requires NormalizeName(origin) != "." && NormalizeName(name) != NormalizeName(origin)
    requires HasSuffix(NormalizeName(name), ZoneSuffix(origin))
    requires !Restorable(name, origin)
    ensures QualifyRecordName(origin, RelativeOwnerName(name, origin)) != Some(NormalizeName(name))
  {
    hide NormalizeName, TrimSpace, IsSpace, HasSuffix;
    var n, o, apex := NormalizeName(name), NormalizeName(origin), Apex(origin);
    var r := TrimSuffix(n, ZoneSuffix(origin));
    BelowSplits(name, origin);
    OriginIsApexDot(origin);
    assert |n| == |r| + |apex| + 2 && |o| == |apex| + 1;
    TrimIsShorter(r);
    var t := TrimSpace(r);
    NormalizedLength(t);
    TrimSpaceIsTrimmed(r);
    TrimSpaceIsTrimmed(t);
    var q := t + "." + apex;
    NormalizedLength(q);
    if t == r && t != "" && t != "@" && !EndsInDot(t) {
      assert EndsPlain(r) by { PlainEnd(r); }
      ApexEndsBadly(q, apex);
    }
  }

  lemma PlainEnd(r: string)
    requires r != "" && Trimmed(r) && !EndsInDot(r)
    ensures EndsPlain(r)
  {
  }

  lemma OriginIsApexDot(origin: string)
    ensures NormalizeName(origin) == Apex(origin) + "."
    ensures NormalizeName(origin) != "." ==> Apex(origin) != ""
  {
    var o := NormalizeName(origin);
    assert HasSuffix(o, ".");
  }

  lemma ApexEndsBadly(q: string, apex: string)
    requires apex != "" && !EndsPlain(apex) && HasSuffix(q, apex)
    ensures !Trimmed(q) || (EndsInDot(q) && TrimSpace(q) == q)
  {
    assert q[|q| - 1] == apex[|apex| - 1];
    TrimSpaceIsTrimmed(q);
  }

  /** Qualifying the relative form of a name gives the name back exactly for the restorable names. */
  lemma OwnerRoundTrip(name: string, origin: string)
    requires NormalizeName(origin) != "."
    ensures QualifyRecordName(origin, RelativeOwnerName(name, origin)) == Some(NormalizeName(name))
       <==> Restorable(name, origin)
  {
    hide NormalizeName, TrimSpace, IsSpace, HasSuffix;
    var n := NormalizeName(name);
    NormalizeIsNormal(name);
    if n == NormalizeName(origin) {
      AtIsTrimmed();
    } else if !HasSuffix(n, ZoneSuffix(origin)) {
      TrimSpaceIsTrimmed(n);
    } else if Restorable(name, origin) {
      var r := TrimSuffix(n, ZoneSuffix(origin));
      BelowSplits(name, origin);
      assert n == r + "." + Apex(origin) + ".";
      BelowIsRestored(r, Apex(origin));
      TrimSpaceIsTrimmed(r);
    } else {
      BelowIsLost(name, origin);
    }
  }

  lemma AtIsTrimmed()
    ensures TrimSpace("@") == "@"
  {
    TrimSpaceIsTrimmed("@");
  }

  /** The two forms: the origin is written "@", a name below it as its front part, and read back as such; a name
      outside the zone is written in full. */
  lemma OwnerForms(r: string, apex: string)
    requires Normal(r + "." + apex + ".") && EndsPlain(r) && EndsPlain(apex) && Normal(apex + ".")
    ensures RelativeOwnerName(apex + ".", apex + ".") == "@"
    ensures QualifyRecordName(apex + ".", "@") == Some(apex + ".")
    ensures RelativeOwnerName(r + "." + apex + ".", apex + ".") == r
    ensures r != "@" ==> QualifyRecordName(apex + ".", r) == Some(r + "." + apex + ".")
  {
    hide TrimSpace, Lower, IsSpace, NormalizeName, Normal;
    var o, n := apex + ".", r + "." + apex + ".";
    NormalizeIsNormal(o);
    NormalizeIsNormal(n);
    AtIsTrimmed();
    assert o[..|apex|] == apex && o[|apex|..] == ".";
    assert Apex(o) == apex && o != "." && n != o;
    assert n == r + ZoneSuffix(o) && n[..|r|] == r && n[|r|..] == ZoneSuffix(o);
    BelowIsRestored(r, apex);
    TrimSpaceIsTrimmed(r);
  }

  lemma ForeignForm(name: string, origin: string)
    requires Normal(name) && Normal(origin) && name != origin && !HasSuffix(name, "." + TrimSuffix(origin, ".") + ".")
    ensures RelativeOwnerName(name, origin) == name
    ensures origin != "." ==> QualifyRecordName(origin, name) == Some(name)
  {
    hide TrimSpace, Lower, NormalizeName, IsSpace;
    NormalizeIsNormal(name);
    NormalizeIsNormal(origin);
    TrimSpaceIsTrimmed(name);
  }
}
