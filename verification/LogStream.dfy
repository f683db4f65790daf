/** Log lines: a stream writer that cuts written chunks into lines, and a ring that keeps the latest of
    them. */
module LogStream {
  import opened Arithmetic

  type Byte = n: nat | n < 256
  type Bytes = seq<Byte>

  const NEWLINE: Byte := 10

  // ---------------------------------------------------------------- lines of a stream

  /** The position of the first newline, or the length. */
  function LineEnd(s: Bytes): (n: nat)
    ensures n <= |s| && NEWLINE !in s[..n] && (n < |s| ==> s[n] == NEWLINE)
  {
    if s == [] || s[0] == NEWLINE then 0
    else
      var n := LineEnd(s[1..]);
      assert s[..n + 1] == [s[0]] + s[1..][..n];
      n + 1
  }

  /** The non-empty newline-terminated lines, in order. */
  function Lines(s: Bytes): seq<Bytes>
    decreases |s|
  {
    var n := LineEnd(s);
    if n == |s| then [] else (if n == 0 then [] else [s[..n]]) + Lines(s[n + 1..])
  }

  /** What follows the last newline. */
  function Leftover(s: Bytes): Bytes
    decreases |s|
  {
    var n := LineEnd(s);
    if n == |s| then s else Leftover(s[n + 1..])
  }

  lemma {:induction false} LineEndOfConcat(s: Bytes, t: Bytes)
    ensures NEWLINE in s ==> LineEnd(s + t) == LineEnd(s) < |s|
    ensures NEWLINE !in s ==> LineEnd(s + t) == |s| + LineEnd(t)
  {
    if s == [] {
      assert s + t == t;
    } else {
      assert (s + t)[1..] == s[1..] + t;
      LineEndOfConcat(s[1..], t);
    }
  }

  /** Text may be cut anywhere: the lines of the whole are the lines of the first part and the lines of what it
      left over with the second part. */
  lemma {:induction false} LinesOfConcat(s: Bytes, t: Bytes)
    ensures Lines(s + t) == Lines(s) + Lines(Leftover(s) + t)
    ensures Leftover(s + t) == Leftover(Leftover(s) + t)
    decreases |s|
  {
    hide LineEnd, Lines, Leftover;
    LineEndOfConcat(s, t);
    LinesUnfold(s);
    var n := LineEnd(s);
    if n < |s| {
      assert s[n] in s;
      LinesUnfold(s + t);
      var rest, first := s[n + 1..], FirstLine(s);
      assert (s + t)[n + 1..] == rest + t && (s + t)[..n] == s[..n];
      LinesOfConcat(rest, t);
      Associates(first, Lines(rest), Lines(Leftover(rest) + t));
    } else {
      Associates([], [], Lines(s + t));
    }
  }

  function FirstLine(s: Bytes): seq<Bytes> {
    if LineEnd(s) == 0 then [] else [s[..LineEnd(s)]]
  }

  lemma LinesUnfold(s: Bytes)
    ensures LineEnd(s) == |s| ==> Lines(s) == [] && Leftover(s) == s
    ensures LineEnd(s) < |s| ==> Lines(s) == FirstLine(s) + Lines(s[LineEnd(s) + 1..])
    ensures LineEnd(s) < |s| ==> Leftover(s) == Leftover(s[LineEnd(s) + 1..])
  {
    hide LineEnd, Lines, Leftover, FirstLine;
    if LineEnd(s) < |s| {
      LinesStep(s);
    } else {
      LinesStop(s);
    }
  }

  lemma LinesStep(s: Bytes)
    requires LineEnd(s) < |s|
    ensures Lines(s) == FirstLine(s) + Lines(s[LineEnd(s) + 1..]) && Leftover(s) == Leftover(s[LineEnd(s) + 1..])
  {
    hide LineEnd;
  }

  lemma LinesStop(s: Bytes)
    requires LineEnd(s) == |s|
    ensures Lines(s) == [] && Leftover(s) == s
  {
    hide LineEnd;
  }

  /** One line, one terminator (the octet 10), and nothing for an empty line; with LinesOfConcat this determines the
      lines of every stream. */
  lemma OneLine(line: Bytes)
    requires 10 !in line
    ensures Lines(line + [10]) == (if line == [] then [] else [line]) && Leftover(line + [10]) == []
    ensures Lines(line) == [] && Leftover(line) == line
  {
    LineEndOfConcat(line, [10]);
    LineEndOfConcat(line, []);
    assert line + [] == line && (line + [10])[..|line|] == line && (line + [10])[|line| + 1..] == [];
  }

  lemma Associates(a: seq<Bytes>, b: seq<Bytes>, c: seq<Bytes>)
    ensures (a + b) + c == a + (b + c) && [] + c == c
  {
  }

  // ---------------------------------------------------------------- the ring

  const DEFAULT_CAPACITY := 500

  class Ring {
    var lines: array<Bytes>
    var head: nat
    var size: nat
    ghost var history: seq<Bytes>

    /** The slot that was written d appends ago. */
    ghost function Slot(d: nat): int
      reads this
    {
      if d <= head then head - d else head - d + lines.Length
    }

    ghost predicate Valid()
      reads this, lines
    {
      && head < lines.Length && size <= lines.Length
      && size == (if |history| < lines.Length then |history| else lines.Length)
      && forall d :: 1 <= d <= size ==> lines[Slot(d)] == history[|history| - d]
    }

    /** The latest lines, at most as many as the ring holds. */
    ghost function Kept(): seq<Bytes>
      requires Valid()
      reads this, lines
    {
      history[|history| - size..]
    }

    constructor (capacity: int)
      ensures Valid() && fresh(lines) && history == []
      ensures lines.Length == if capacity <= 0 then DEFAULT_CAPACITY else capacity
    {
      lines := new Bytes[if capacity <= 0 then DEFAULT_CAPACITY else capacity](_ => []);
      head, size, history := 0, 0, [];
    }

    method Append(line: Bytes)
      requires Valid()
      modifies this, lines
      ensures Valid() && lines == old(lines) && history == old(history) + [line]
    {
      SmallMod(head + 1, lines.Length);
      lines[head] := line;
      head := (head + 1) % lines.Length;
      if size < lines.Length {
        size := size + 1;
      }
      history := history + [line];
      forall d | 1 <= d <= size ensures lines[Slot(d)] == history[|history| - d] {
        if d > 1 {
          assert Slot(d) == old(Slot(d - 1));
        }
      }
    }

    /** The kept lines in chronological order. */
    method Snapshot() returns (out: seq<Bytes>)
      requires Valid()
      ensures out == Kept()
      ensures |out| == if |history| < lines.Length then |history| else lines.Length
    {
      if size == 0 {
        assert Kept() == [];
        return [];
      }
      var start: int := head - size;
      if start < 0 {
        start := start + lines.Length;
      }
      out := [];
      for i := 0 to size
        invariant out == history[|history| - size..|history| - size + i]
      {
        WrappedSlot(head, size, lines.Length, i);
        NextOf(history, |history| - size, i);
        var k := (start + i) % lines.Length;
        assert k == Slot(size - i);
        out := out + [lines[k]];
      }
      assert out == Kept() && |out| == size;
    }
  }

  /** The slot of the i-th kept line, counted from the oldest one. */
  lemma WrappedSlot(head: nat, size: nat, length: nat, i: nat)
    requires head < length && i < size <= length
    ensures var start := if head < size then head - size + length else head - size;
      && (start + i) % length == (if size - i <= head then head - (size - i) else head - (size - i) + length)
      && 0 <= (start + i) % length < length
  {
    SmallMod((if head < size then head - size + length else head - size) + i, length);
  }

  lemma NextOf(s: seq<Bytes>, from: nat, i: nat)
    requires from + i < |s|
    ensures s[from..from + i + 1] == s[from..from + i] + [s[from + i]]
  {
  }

  // ---------------------------------------------------------------- the stream writer

  /** Buffers what is not yet a whole line; the ring and the live feed get each line as soon as it ends. */
  class StreamWriter {
    const ring: Ring
    var partial: Bytes
    var published: seq<Bytes>
    ghost var stream: Bytes

    /** Everything written so far is accounted for: its lines went out in order, its rest is buffered. */
    ghost predicate Valid()
      reads this, ring, ring.lines
    {
      ring.Valid() && published == Lines(stream) && partial == Leftover(stream) && ring.history == Lines(stream)
    }

    constructor (ring: Ring)
      requires ring.Valid() && ring.history == []
      ensures Valid() && this.ring == ring && stream == []
    {
      this.ring := ring;
      partial, published, stream := [], [], [];
    }

    method Dispatch(line: Bytes)
      requires ring.Valid()
      modifies this, ring, ring.lines
      ensures ring.Valid() && ring.lines == old(ring.lines)
      ensures ring.history == old(ring.history) + [line] && published == old(published) + [line]
      ensures partial == old(partial) && stream == old(stream)
    {
      ring.Append(line);
      published := published + [line];
    }

    /** However the stream is cut into writes, the lines dispatched are the lines of the whole. */
    method Write(p: Bytes)
      requires Valid()
      modifies this, ring, ring.lines
      ensures Valid() && stream == old(stream) + p && ring.lines == old(ring.lines)
    {
      hide LineEnd, Lines, Leftover, Ring.Valid;
      var data := partial + p;
      LinesOfConcat(stream, p);
      stream := stream + p;
      partial := [];
      ghost var goal := Lines(stream);
      assert Lines(old(stream)) + Lines(data) == goal;
      while NEWLINE in data
        invariant ring.Valid() && ring.lines == old(ring.lines) && stream == old(stream) + p
        invariant published + Lines(data) == goal && ring.history == published && Leftover(data) == Leftover(stream)
        decreases |data|
      {
        var idx := IndexByte(data);
        var line := data[..idx];
        LinesUnfold(data);
        Associates(published, FirstLine(data), Lines(data[idx + 1..]));
        if line != [] {
          Dispatch(line);
        } else {
          assert published + FirstLine(data) == published;
        }
        data := data[idx + 1..];
      }
      LinesUnfold(data);
      NoNewline(data);
      assert published + [] == published;
      partial := data;
    }
  }

  /** The library's search for the first newline. */
  method IndexByte(data: Bytes) returns (idx: nat)
    requires NEWLINE in data
    ensures idx == LineEnd(data) < |data|
  {
    idx := LineEnd(data);
  }

  lemma NoNewline(data: Bytes)
    requires NEWLINE !in data
    ensures LineEnd(data) == |data|
  {
    if data != [] {
      NoNewline(data[1..]);
    }
  }

  // ---------------------------------------------------------------- whole runs

  function Whole(chunks: seq<Bytes>): Bytes {
    if |chunks| == 0 then [] else Whole(chunks[..|chunks| - 1]) + chunks[|chunks| - 1]
  }

  /** For every way of cutting a stream into writes: the ring shows the latest of the lines of the whole stream,
      the feed had all of them, and the buffer holds what follows the last newline. */
  method WriteAll(chunks: seq<Bytes>, capacity: int) returns (shown: seq<Bytes>, fed: seq<Bytes>, rest: Bytes)
    ensures fed == Lines(Whole(chunks)) && rest == Leftover(Whole(chunks))
    ensures var room := if capacity <= 0 then DEFAULT_CAPACITY else capacity;
      shown == if |fed| < room then fed else fed[|fed| - room..]
  {
    hide Lines, Leftover, Ring.Valid, StreamWriter.Valid;
    var ring := new Ring(capacity);
    var w := new StreamWriter(ring);
    for i := 0 to |chunks|
      invariant w.Valid() && w.ring == ring && w.stream == Whole(chunks[..i])
      invariant fresh(w) && fresh(ring) && fresh(ring.lines)
      invariant ring.lines.Length == if capacity <= 0 then DEFAULT_CAPACITY else capacity
    {
      assert chunks[..i + 1][..i] == chunks[..i];
      w.Write(chunks[i]);
    }
    assert chunks[..|chunks|] == chunks;
    shown, fed, rest := ShowState(w);
  }

  method ShowState(w: StreamWriter) returns (shown: seq<Bytes>, fed: seq<Bytes>, rest: Bytes)
    requires w.Valid()
    ensures fed == Lines(w.stream) && rest == Leftover(w.stream)
    ensures shown == if |fed| < w.ring.lines.Length then fed else fed[|fed| - w.ring.lines.Length..]
  {
    shown := w.ring.Snapshot();
    fed, rest := w.published, w.partial;
  }
}
