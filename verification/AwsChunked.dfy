/** The aws-chunked decoder: a resumable Read over a buffered source. */
module AwsChunked {
  import opened ByteStrings
  import opened Types
  import Hex

  const CR: Byte := 13
  const LF: Byte := 10
  const SEMICOLON: Byte := 59

  /** How the underlying stream ends: cleanly, or with a read error. */
  datatype End = Clean | Failed

  datatype ReadError =
    | EOF
    | SourceError
    | HeaderError(cause: End)   // wrapped, so that io.Copy does not take it for an end of file
    | InvalidSize
    | ExpectedCRLF

  function Raw(end: End): ReadError
  {
    if end.Clean? then EOF else SourceError
  }

  // --- lines ----------------------------------------------------------------------------------------

  /** The length of the first line with its newline, or 0 if there is no newline. */
  function LineLength(s: Bytes): (n: nat)
    ensures n <= |s|
    ensures n > 0 ==> s[n - 1] == LF && LF !in s[..n - 1]
    ensures n == 0 ==> LF !in s
  {
    if s == [] then 0
    else if s[0] == LF then 1
    else
      var r := LineLength(s[1..]);
      assert s == [s[0]] + s[1..];
      if r == 0 then 0
      else
        assert s[..r] == [s[0]] + s[1..][..r - 1];
        r + 1
  }

  /** strings.TrimRight(s, "\r\n") */
  function TrimNewlines(s: Bytes): Bytes
  {
    if s != [] && (s[|s| - 1] == CR || s[|s| - 1] == LF) then TrimNewlines(s[..|s| - 1]) else s
  }

  predicate IsSpace(c: Byte)
  {
    c == 32 || 9 <= c <= 13
  }

  function TrimSpace(s: Bytes): Bytes
  {
    if s == [] then s
    else if IsSpace(s[0]) then TrimSpace(s[1..])
    else if IsSpace(s[|s| - 1]) then TrimSpace(s[..|s| - 1])
    else s
  }

  /** The size that a header line announces. */
  function ParseSize(line: Bytes): Option<int>
  {
    var header := TrimNewlines(line);
    var i := Index(header, [SEMICOLON]);
    Hex.ParseInt64(TrimSpace(if i >= 0 then header[..i] else header))
  }

  // --- what is left to read in a state -----------------------------------------------------------------

  datatype Outcome = Outcome(payload: Bytes, err: ReadError)

  datatype Skipped = Rest(input: Bytes) | Stopped(err: ReadError)

  function Prepend(p: Bytes, o: Outcome): Outcome
  {
    Outcome(p + o.payload, o.err)
  }

  /** Two bytes, each a carriage return or a newline. */
  function SkipCRLF(s: Bytes, end: End, n: nat := 2): Skipped
    decreases n
  {
    if n == 0 then Rest(s)
    else if s == [] then Stopped(Raw(end))
    else if s[0] != CR && s[0] != LF then Stopped(ExpectedCRLF)
    else SkipCRLF(s[1..], end, n - 1)
  }

  /** Trailer lines up to a blank one or the end of the file. */
  function SkipTrailers(s: Bytes, end: End): Skipped
    decreases |s|
  {
    var n := LineLength(s);
    if n == 0 then
      if end.Clean? || TrimNewlines(s) == [] then Rest([]) else Stopped(SourceError)
    else if TrimNewlines(s[..n]) == [] then Rest(s[n..])
    else SkipTrailers(s[n..], end)
  }

  /** All that Reads will yet deliver from this state, and the error they end with. */
  function Remainder(input: Bytes, remaining: int, done: bool, end: End): Outcome
    decreases |input|
  {
    if done then Outcome([], EOF)
    else if remaining > 0 then
      if |input| < remaining then Outcome(input, Raw(end))
      else
        match SkipCRLF(input[remaining..], end)
        case Stopped(err) => Outcome(input[..remaining], err)
        case Rest(rest) =>
          SkipCRLFShortens(input[remaining..], end, 2);
          Prepend(input[..remaining], Remainder(rest, 0, false, end))
    else
      var n := LineLength(input);
      if n == 0 then Outcome([], HeaderError(end))
      else
        var size := ParseSize(input[..n]);
        if size.None? then Outcome([], InvalidSize)
        else if size.value == 0 then
          match SkipTrailers(input[n..], end)
          case Stopped(err) => Outcome([], err)
          case Rest(_) => Outcome([], EOF)
        else Remainder(input[n..], size.value, false, end)
  }

  lemma {:induction false} SkipCRLFShortens(s: Bytes, end: End, n: nat)
    ensures SkipCRLF(s, end, n).Rest? ==> n <= |s| && SkipCRLF(s, end, n).input == s[n..]
    decreases n
  {
    if n > 0 && s != [] {
      SkipCRLFShortens(s[1..], end, n - 1);
    }
  }

  lemma {:induction false} AtChunk(input: Bytes, remaining: int, end: End)
    requires remaining > 0
    ensures var o := Remainder(input, remaining, false, end);
            if |input| < remaining then o == Outcome(input, Raw(end))
            else
              match SkipCRLF(input[remaining..], end)
              case Stopped(err) => o == Outcome(input[..remaining], err)
              case Rest(rest) =>
                remaining + 2 <= |input| && rest == input[remaining + 2..] &&
                o == Prepend(input[..remaining], Remainder(rest, 0, false, end))
  {
    if |input| >= remaining {
      SkipCRLFShortens(input[remaining..], end, 2);
    }
  }

  /** Taking some bytes of a chunk leaves the rest to be delivered; the last ones take the line end along. */
  lemma {:induction false} TakeFromChunk(p: Bytes, rest: Bytes, remaining: int, end: End)
    requires 0 < remaining && |p| <= remaining
    ensures rest == [] ==> Remainder(p + rest, remaining, false, end) == Outcome(p, Raw(end))
    ensures |p| < remaining ==>
              Remainder(p + rest, remaining, false, end) == Prepend(p, Remainder(rest, remaining - |p|, false, end))
    ensures |p| == remaining ==>
              Remainder(p + rest, remaining, false, end) ==
              match SkipCRLF(rest, end)
              case Stopped(err) => Outcome(p, err)
              case Rest(r) => Prepend(p, Remainder(r, 0, false, end))
  {
    hide Remainder, SkipCRLF;
    var input := p + rest;
    AtChunk(input, remaining, end);
    if |p| < remaining {
      AtChunk(rest, remaining - |p|, end);
    } else {
      NothingToSkip(end);
    }
    if |input| >= remaining {
      assert input[remaining..] == rest[remaining - |p|..];
      assert input[..remaining] == p + rest[..remaining - |p|];
      if SkipCRLF(input[remaining..], end).Rest? {
        assert input[remaining + 2..] == rest[remaining - |p| + 2..];
        var o := Remainder(input[remaining + 2..], 0, false, end);
        assert input[..remaining] + o.payload == p + (rest[..remaining - |p|] + o.payload);
      }
    } else {
      assert rest == [] ==> input == p;
    }
  }

  lemma NothingToSkip(end: End)
    ensures SkipCRLF([], end) == Stopped(Raw(end))
  {
  }

  lemma {:induction false} AtHeader(input: Bytes, remaining: int, end: End)
    requires remaining <= 0
    ensures var o, n := Remainder(input, remaining, false, end), LineLength(input);
            if n == 0 then o == Outcome([], HeaderError(end))
            else
              var size := ParseSize(input[..n]);
              if size.None? then o == Outcome([], InvalidSize)
              else if size.value != 0 then o == Remainder(input[n..], size.value, false, end)
              else
                var skipped := SkipTrailers(input[n..], end);
                o == Outcome([], if skipped.Rest? then EOF else skipped.err)
  {
  }

  lemma AtEnd(input: Bytes, remaining: int, end: End)
    ensures Remainder(input, remaining, true, end) == Outcome([], EOF)
  {
  }

  // --- the reader -------------------------------------------------------------------------------------------

  /** bufio.Reader over a request body. */
  class Source {
    var input: Bytes
    const end: End

    constructor (input: Bytes, end: End)
      ensures this.input == input && this.end == end
    {
      this.input, this.end := input, end;
    }

    /** Fills some of a buffer of n bytes: `wish` bytes if that is possible. The error may come with the last bytes. */
    method Read(n: nat, wish: nat, early: bool) returns (p: Bytes, err: Option<ReadError>)
      modifies this`input
      ensures old(input) == p + input && |p| <= n
      ensures n > 0 && old(input) != [] ==> p != []
      ensures err.Some? ==> input == [] && err.value == Raw(end)
      ensures n > 0 && old(input) == [] ==> err.Some?
    {
      var most := if n < |input| then n else |input|;
      var k := if 1 <= wish <= most then wish else most;
      p := input[..k];
      err := if (input == [] && n > 0) || (early && k == |input|) then Some(Raw(end)) else None;
      input := input[k..];
    }

    /** The first line, or all there is and the error. */
    method ReadString() returns (line: Bytes, err: Option<End>)
      modifies this`input
      ensures var n := LineLength(old(input));
              if n > 0 then line == old(input)[..n] && input == old(input)[n..] && err.None?
              else line == old(input) && input == [] && err == Some(end)
    {
      var n := LineLength(input);
      if n > 0 {
        line, err := input[..n], None;
        input := input[n..];
      } else {
        line, err := input, Some(end);
        input := [];
      }
    }

    method ReadByte() returns (b: Byte, err: Option<ReadError>)
      modifies this`input
      ensures if old(input) == [] then err == Some(Raw(end)) && input == []
              else err.None? && b == old(input)[0] && input == old(input)[1..]
    {
      if input == [] {
        return 0, Some(Raw(end));
      }
      b, err := input[0], None;
      input := input[1..];
    }
  }

  class AwsChunkedReader {
    const br: Source
    var remaining: int
    var done: bool

    constructor (br: Source)
      ensures this.br == br && remaining == 0 && !done
    {
      this.br, remaining, done := br, 0, false;
    }

    function Left(): Outcome
      reads this, br
    {
      Remainder(br.input, remaining, done, br.end)
    }

    method DiscardCRLF() returns (err: Option<ReadError>)
      modifies br`input
      ensures match SkipCRLF(old(br.input), br.end)
              case Stopped(e) => err == Some(e)
              case Rest(rest) => err.None? && br.input == rest
      ensures |br.input| <= |old(br.input)|
    {
      var i := 0;
      while i < 2
        invariant 0 <= i <= 2 && |br.input| <= |old(br.input)|
        invariant SkipCRLF(old(br.input), br.end) == SkipCRLF(br.input, br.end, 2 - i)
      {
        var b, e := br.ReadByte();
        if e.Some? {
          return e;
        }
        if b != CR && b != LF {
          return Some(ExpectedCRLF);
        }
        i := i + 1;
      }
      return None;
    }

    /** Consumes the trailers behind the zero chunk. */
    method DiscardTrailers() returns (err: Option<ReadError>)
      modifies br`input
      ensures match SkipTrailers(old(br.input), br.end)
              case Stopped(e) => err == Some(e)
              case Rest(rest) => err.None? && br.input == rest
      ensures |br.input| <= |old(br.input)|
    {
      while true
        invariant |br.input| <= |old(br.input)|
        invariant SkipTrailers(old(br.input), br.end) == SkipTrailers(br.input, br.end)
        decreases |br.input|
      {
        var line, e := br.ReadString();
        if e == Some(Clean) || TrimNewlines(line) == [] {
          return None;
        }
        if e.Some? {
          return Some(SourceError);
        }
      }
    }

    /** Read into a buffer of n bytes: what comes out now and what is left make up what was left before. */
    method Read(n: nat, wish: nat, early: bool) returns (p: Bytes, err: Option<ReadError>)
      modifies this, br`input
      ensures |p| <= n && |br.input| + |p| <= |old(br.input)|
      ensures old(Left()) == if err.Some? then Outcome(p, err.value) else Prepend(p, Left())
      ensures n > 0 && err.None? ==> p != []
    {
      hide Remainder, SkipCRLF, SkipTrailers, ParseSize, LineLength, TrimNewlines;
      while true
        invariant old(Left()) == Left()
        invariant |br.input| <= |old(br.input)|
        decreases |br.input|, remaining <= 0
      {
        if done {
          AtEnd(br.input, remaining, br.end);
          return [], Some(EOF);
        }
        if remaining > 0 {
          var room := if n > remaining then remaining else n;
          var e;
          p, e := br.Read(room, wish, early);
          TakeFromChunk(p, br.input, remaining, br.end);
          remaining := remaining - |p|;
          if remaining == 0 {
            var e2 := DiscardCRLF();
            if e.None? {
              e := e2;
            }
          }
          return p, e;
        }
        AtHeader(br.input, remaining, br.end);
        var header, herr := br.ReadString();
        if herr.Some? {
          return [], Some(HeaderError(herr.value));
        }
        var size := ParseSize(header);
        if size.None? {
          return [], Some(InvalidSize);
        }
        if size.value == 0 {
          var terr := DiscardTrailers();
          if terr.Some? {
            return [], terr;
          }
          done := true;
          return [], Some(EOF);
        }
        remaining := size.value;
      }
    }
  }

  /** io.Copy from the decoder, with a buffer of any size on each turn and any short reads underneath. */
  method CopyAll(c: AwsChunkedReader, buffer: nat -> nat, wish: nat -> nat, early: nat -> bool)
    returns (payload: Bytes, err: ReadError)
    requires forall i :: buffer(i) > 0
    modifies c, c.br`input
    ensures old(c.Left()) == Outcome(payload, err)
  {
    payload := [];
    var i := 0;
    while true
      invariant old(c.Left()) == Prepend(payload, c.Left())
      decreases |c.br.input|
    {
      hide Remainder;
      ghost var left := c.Left();
      var p, e := c.Read(buffer(i), wish(i), early(i));
      Associate(payload, p, if e.Some? then Outcome([], e.value) else c.Left());
      payload := payload + p;
      if e.Some? {
        return payload, e.value;
      }
      i := i + 1;
    }
  }

  lemma Associate(a: Bytes, b: Bytes, o: Outcome)
    ensures Prepend(a, Prepend(b, o)) == Prepend(a + b, o)
    ensures Prepend(a, Outcome(b, o.err)) == Outcome(a + b, o.err)
  {
    assert a + (b + o.payload) == a + b + o.payload;
  }

  // --- the encoder of the protocol, and the round trip ---------------------------------------------------

  /** A chunk of payload and what follows its size on the size line (";chunk-signature=..." or nothing). */
  datatype Chunk = Chunk(data: Bytes, extension: Bytes)

  predicate GoodExtension(e: Bytes)
  {
    LF !in e && (e != [] ==> e[0] == SEMICOLON)
  }

  predicate GoodChunk(c: Chunk)
  {
    0 < |c.data| <= 0x7fff_ffff_ffff_ffff && GoodExtension(c.extension)
  }

  predicate GoodTrailer(t: Bytes)
  {
    LF !in t && exists i :: 0 <= i < |t| && t[i] != CR
  }

  const NEW_LINE: Bytes := [CR, LF]

  function SizeLine(n: nat, extension: Bytes): Bytes
  {
    Hex.Print(n) + extension + NEW_LINE
  }

  function EncodeTrailers(ts: seq<Bytes>): Bytes
  {
    if ts == [] then NEW_LINE else ts[0] + NEW_LINE + EncodeTrailers(ts[1..])
  }

  function EncodeChunk(c: Chunk): Bytes
  {
    SizeLine(|c.data|, c.extension) + c.data + NEW_LINE
  }

  function Encode(cs: seq<Chunk>, lastExtension: Bytes, trailers: seq<Bytes>): Bytes
  {
    if cs == [] then SizeLine(0, lastExtension) + EncodeTrailers(trailers)
    else EncodeChunk(cs[0]) + Encode(cs[1..], lastExtension, trailers)
  }

  function Payload(cs: seq<Chunk>): Bytes
  {
    if cs == [] then [] else cs[0].data + Payload(cs[1..])
  }

  predicate Good(cs: seq<Chunk>, lastExtension: Bytes, trailers: seq<Bytes>)
  {
    (forall i :: 0 <= i < |cs| ==> GoodChunk(cs[i])) && GoodExtension(lastExtension) &&
    (forall i :: 0 <= i < |trailers| ==> GoodTrailer(trailers[i]))
  }

  lemma {:induction false} FirstNewline(s: Bytes, k: nat)
    requires k < |s| && s[k] == LF && LF !in s[..k]
    ensures LineLength(s) == k + 1
    decreases s
  {
    if k > 0 {
      assert s[..k][0] == s[0];
      assert s[1..][..k - 1] == s[..k][1..];
      FirstNewline(s[1..], k - 1);
    }
  }

  lemma FirstLine(line: Bytes, rest: Bytes)
    requires LF !in line
    ensures LineLength(line + [LF] + rest) == |line| + 1
    ensures (line + [LF] + rest)[..|line| + 1] == line + [LF]
    ensures (line + [LF] + rest)[|line| + 1..] == rest
  {
    var s := line + [LF] + rest;
    assert s[..|line|] == line;
    FirstNewline(s, |line|);
  }

  /** Trimming stops at the last byte that is not part of a line end. */
  lemma {:induction false} TrimKeepsFront(s: Bytes, tail: Bytes)
    requires s != [] && s[|s| - 1] != CR && s[|s| - 1] != LF
    ensures HasPrefix(TrimNewlines(s + tail), s)
    ensures (forall i :: 0 <= i < |tail| ==> tail[i] == CR || tail[i] == LF) ==> TrimNewlines(s + tail) == s
    decreases |tail|
  {
    if tail == [] {
      assert s + tail == s;
      assert s[..|s|] == s;
    } else {
      assert (s + tail)[..|s + tail| - 1] == s + tail[..|tail| - 1];
      TrimKeepsFront(s, tail[..|tail| - 1]);
    }
  }

  lemma PrintedSize(n: nat)
    ensures var s := Hex.Print(n);
            s != [] && SEMICOLON !in s && CR !in s && LF !in s && TrimSpace(s) == s
  {
    Hex.PrintIsDigits(n);
    var s := Hex.Print(n);
    assert forall i :: 0 <= i < |s| ==> Hex.ValueOf(s[i]).Some?;
  }

  lemma SemicolonAt(s: Bytes, rest: Bytes)
    requires SEMICOLON !in s
    ensures Index(s + [SEMICOLON] + rest, [SEMICOLON]) == |s|
    ensures Index(s, [SEMICOLON]) == -1
  {
    var t := s + [SEMICOLON] + rest;
    assert OccursAt(t, [SEMICOLON], |s|);
    forall j | 0 <= j < |s| ensures !OccursAt(t, [SEMICOLON], j) && !OccursAt(s, [SEMICOLON], j) {
      assert t[j..j + 1] == [s[j]] == s[j..j + 1];
    }
  }

  /** A printed size line announces that size, whatever its extension. */
  lemma SizeLineParses(n: nat, extension: Bytes)
    requires n <= 0x7fff_ffff_ffff_ffff && GoodExtension(extension)
    ensures ParseSize(SizeLine(n, extension)) == Some(n)
  {
    hide Hex.Print, Hex.ParseInt64, TrimNewlines, TrimSpace, Index;
    var s := Hex.Print(n);
    var line := SizeLine(n, extension);
    PrintedSize(n);
    Hex.ParseOfPrint(n);
    if extension == [] {
      assert line == s + NEW_LINE;
      TrimKeepsFront(s, NEW_LINE);
      SemicolonAt(s, []);
    } else {
      var front := s + [SEMICOLON];
      assert extension == [SEMICOLON] + extension[1..];
      assert line == front + (extension[1..] + NEW_LINE);
      TrimKeepsFront(front, extension[1..] + NEW_LINE);
      var header := TrimNewlines(line);
      assert header == front + header[|front|..];
      SemicolonAt(s, header[|front|..]);
      assert header[..|s|] == s;
    }
  }

  lemma {:induction false} TrimSpaceKeeps(before: Bytes, s: Bytes, behind: Bytes)
    requires s != [] && !IsSpace(s[0]) && !IsSpace(s[|s| - 1])
    requires forall i :: 0 <= i < |before| ==> IsSpace(before[i])
    requires forall i :: 0 <= i < |behind| ==> IsSpace(behind[i])
    ensures TrimSpace(before + s + behind) == s
    decreases |before| + |behind|
  {
    var t := before + s + behind;
    if before != [] {
      assert t[1..] == before[1..] + s + behind;
      TrimSpaceKeeps(before[1..], s, behind);
    } else if behind != [] {
      assert t[0] == s[0] && t[..|t| - 1] == before + s + behind[..|behind| - 1];
      TrimSpaceKeeps(before, s, behind[..|behind| - 1]);
    } else {
      assert t == s;
    }
  }

  /** Spaces and tabs around a size do not matter. */
  lemma {:induction false} SpacedSizeParses(before: Bytes, n: nat, behind: Bytes)
    requires n <= 0x7fff_ffff_ffff_ffff
    requires forall i :: 0 <= i < |before| ==> before[i] in {9, 32}
    requires forall i :: 0 <= i < |behind| ==> behind[i] in {9, 32}
    ensures ParseSize(before + Hex.Print(n) + behind + NEW_LINE) == Some(n)
  {
    hide Hex.Print, Hex.ParseInt64, TrimNewlines, TrimSpace, Index;
    var s := Hex.Print(n);
    var header := before + s + behind;
    PrintedSize(n);
    PrintedHasNoSpace(n);
    Hex.ParseOfPrint(n);
    assert header[|header| - 1] == if behind == [] then s[|s| - 1] else behind[|behind| - 1];
    TrimKeepsFront(header, NEW_LINE);
    assert SEMICOLON !in header;
    SemicolonAt(header, []);
    TrimSpaceKeeps(before, s, behind);
  }

  lemma PrintedHasNoSpace(n: nat)
    ensures var s := Hex.Print(n); s != [] && !IsSpace(s[0]) && !IsSpace(s[|s| - 1])
  {
    Hex.PrintIsDigits(n);
    var s := Hex.Print(n);
    assert Hex.ValueOf(s[0]).Some? && Hex.ValueOf(s[|s| - 1]).Some?;
  }

  lemma SizeLineIsFirst(n: nat, extension: Bytes, rest: Bytes)
    requires GoodExtension(extension)
    ensures var line := SizeLine(n, extension);
            LineLength(line + rest) == |line| && (line + rest)[..|line|] == line && (line + rest)[|line|..] == rest &&
            LF !in line[..|line| - 1]
  {
    hide Hex.Print, LineLength;
    PrintedSize(n);
    var line := Hex.Print(n) + extension + [CR];
    assert SizeLine(n, extension) == line + [LF];
    assert SizeLine(n, extension)[..|line|] == line;
    FirstLine(line, rest);
  }

  lemma SkipNewLine(rest: Bytes, end: End)
    ensures SkipCRLF(NEW_LINE + rest, end) == Rest(rest)
  {
    assert (NEW_LINE + rest)[1..] == [LF] + rest && ([LF] + rest)[1..] == rest;
    assert SkipCRLF([LF] + rest, end, 1) == SkipCRLF(rest, end, 0);
  }

  /** The decoder takes one encoded chunk off the front. */
  lemma ChunkDecodes(c: Chunk, rest: Bytes, end: End)
    requires GoodChunk(c)
    ensures Remainder(EncodeChunk(c) + rest, 0, false, end) == Prepend(c.data, Remainder(rest, 0, false, end))
  {
    hide Remainder, ParseSize, LineLength, SkipCRLF, SizeLine;
    var line := SizeLine(|c.data|, c.extension);
    var tail := NEW_LINE + rest;
    assert EncodeChunk(c) + rest == line + (c.data + tail);
    SizeLineIsFirst(|c.data|, c.extension, c.data + tail);
    SizeLineParses(|c.data|, c.extension);
    assert line != [] by { SizeLineNonEmpty(|c.data|, c.extension); }
    AtHeader(line + (c.data + tail), 0, end);
    TakeFromChunk(c.data, tail, |c.data|, end);
    SkipNewLine(rest, end);
  }

  lemma SizeLineNonEmpty(n: nat, extension: Bytes)
    ensures SizeLine(n, extension) != []
  {
  }

  lemma {:induction false} TrailersSkip(ts: seq<Bytes>, rest: Bytes, end: End)
    requires forall i :: 0 <= i < |ts| ==> GoodTrailer(ts[i])
    ensures SkipTrailers(EncodeTrailers(ts) + rest, end).Rest?
    decreases |ts|
  {
    if ts == [] {
      var cr: Bytes := [CR];
      assert EncodeTrailers(ts) + rest == cr + [LF] + rest;
      FirstLine(cr, rest);
      assert cr + [LF] == NEW_LINE && NEW_LINE[..1] == [CR] && [CR][..0] == [];
      assert TrimNewlines(NEW_LINE) == TrimNewlines([CR]) == [];
    } else {
      var line := ts[0] + [CR];
      assert EncodeTrailers(ts) + rest == line + [LF] + (EncodeTrailers(ts[1..]) + rest);
      FirstLine(line, EncodeTrailers(ts[1..]) + rest);
      TrailerIsNotBlank(ts[0]);
      assert line + [LF] == ts[0] + NEW_LINE;
      TrailersSkip(ts[1..], rest, end);
    }
  }

  lemma TrailerIsNotBlank(t: Bytes)
    requires GoodTrailer(t)
    ensures TrimNewlines(t + NEW_LINE) != []
  {
    var i :| 0 <= i < |t| && t[i] != CR;
    assert t[i] != LF;
    assert t + NEW_LINE == t[..i + 1] + (t[i + 1..] + NEW_LINE);
    TrimKeepsFront(t[..i + 1], t[i + 1..] + NEW_LINE);
  }

  lemma EndDecodes(lastExtension: Bytes, trailers: seq<Bytes>, rest: Bytes, end: End)
    requires Good([], lastExtension, trailers)
    ensures Remainder(Encode([], lastExtension, trailers) + rest, 0, false, end) == Outcome([], EOF)
  {
    hide Remainder, ParseSize, LineLength, SizeLine, SkipTrailers, EncodeTrailers;
    var line, tail := SizeLine(0, lastExtension), EncodeTrailers(trailers) + rest;
    assert Encode([], lastExtension, trailers) + rest == line + tail;
    SizeLineIsFirst(0, lastExtension, tail);
    SizeLineParses(0, lastExtension);
    SizeLineNonEmpty(0, lastExtension);
    AtHeader(line + tail, 0, end);
    TrailersSkip(trailers, rest, end);
  }

  /** Round trip: an encoded stream decodes to its payload and an end of file, whatever follows it. */
  lemma {:induction false} DecodeOfEncode(cs: seq<Chunk>, lastExtension: Bytes, trailers: seq<Bytes>, rest: Bytes,
                                          end: End)
    requires Good(cs, lastExtension, trailers)
    ensures Remainder(Encode(cs, lastExtension, trailers) + rest, 0, false, end) == Outcome(Payload(cs), EOF)
    decreases |cs|
  {
    hide Remainder, EncodeChunk;
    if cs == [] {
      EndDecodes(lastExtension, trailers, rest, end);
    } else {
      var more := Encode(cs[1..], lastExtension, trailers) + rest;
      DecodeOfEncode(cs[1..], lastExtension, trailers, rest, end);
      assert Encode(cs, lastExtension, trailers) + rest == EncodeChunk(cs[0]) + more;
      ChunkDecodes(cs[0], more, end);
    }
  }

  /** The stream "4;x", CR LF, "abcd", CR LF, "0", CR LF, CR LF as bytes. */
  lemma {:induction false} StreamExample()
    ensures Encode([Chunk([97, 98, 99, 100], [59, 120])], [], []) ==
            [52, 59, 120, 13, 10, 97, 98, 99, 100, 13, 10, 48, 13, 10, 13, 10]
    ensures Good([Chunk([97, 98, 99, 100], [59, 120])], [], [])
  {
    var c := Chunk([97, 98, 99, 100], [59, 120]);
    assert [c][1..] == [];
    assert Hex.Print(4) == [52] && Hex.Print(0) == [48];
    assert SizeLine(4, c.extension) == [52, 59, 120, 13, 10];
    assert EncodeChunk(c) == [52, 59, 120, 13, 10, 97, 98, 99, 100, 13, 10];
    assert Encode([], [], []) == [48, 13, 10, 13, 10];
  }

  // --- streams that break off -----------------------------------------------------------------------------

  /** Prefix safety, for any input at all: what a cut stream delivers is the front of what the whole one does. */
  lemma {:induction false} CutDeliversAFront(input: Bytes, k: nat, remaining: int, end: End, end': End)
    requires k <= |input|
    ensures Remainder(input[..k], remaining, false, end).payload <= Remainder(input, remaining, false, end').payload
    decreases |input|, 1
  {
    if remaining > 0 {
      CutInChunk(input, k, remaining, end, end');
    } else {
      CutAtHeader(input, k, remaining, end, end');
    }
  }

  lemma {:induction false} CutInChunk(input: Bytes, k: nat, remaining: int, end: End, end': End)
    requires k <= |input| && remaining > 0
    ensures Remainder(input[..k], remaining, false, end).payload <= Remainder(input, remaining, false, end').payload
    decreases |input|, 0
  {
    hide Remainder, SkipCRLF;
    var cut := input[..k];
    AtChunk(cut, remaining, end);
    AtChunk(input, remaining, end');
    if k >= remaining {
      assert cut[..remaining] == input[..remaining];
      assert cut[remaining..] == input[remaining..][..k - remaining];
      SkipOfCut(input[remaining..], k - remaining, end, end');
      if SkipCRLF(cut[remaining..], end).Rest? {
        assert cut[remaining + 2..] == input[remaining + 2..][..k - remaining - 2];
        CutDeliversAFront(input[remaining + 2..], k - remaining - 2, 0, end, end');
      }
    }
  }

  lemma {:induction false} CutAtHeader(input: Bytes, k: nat, remaining: int, end: End, end': End)
    requires k <= |input| && remaining <= 0
    ensures Remainder(input[..k], remaining, false, end).payload <= Remainder(input, remaining, false, end').payload
    decreases |input|, 0
  {
    hide Remainder, ParseSize, SkipTrailers;
    var cut := input[..k];
    var n := LineLength(cut);
    AtHeader(cut, remaining, end);
    AtHeader(input, remaining, end');
    if n > 0 {
      assert input[..n] == cut[..n] && input[..n - 1] == cut[..n - 1];
      FirstNewline(input, n - 1);
      assert cut[n..] == input[n..][..k - n];
      var size := ParseSize(cut[..n]);
      if size.Some? && size.value != 0 {
        CutDeliversAFront(input[n..], k - n, size.value, end, end');
      }
    }
  }

  lemma SkipOfCut(s: Bytes, k: nat, end: End, end': End)
    requires k <= |s|
    ensures SkipCRLF(s[..k], end).Rest? ==> SkipCRLF(s, end').Rest?
  {
    if SkipCRLF(s[..k], end).Rest? {
      SkipCRLFShortens(s[..k], end, 2);
      assert s[..k][0] == s[0] && s[..k][1..][0] == s[1..][0];
      assert SkipCRLF(s[1..], end', 1) == SkipCRLF(s[1..][1..], end', 0);
    }
  }

  /** What comes out of an encoded stream that is cut after k bytes, chunk by chunk. */
  function CutOutcome(cs: seq<Chunk>, lastExtension: Bytes, k: nat): Outcome
    decreases |cs|
  {
    if cs == [] then Outcome([], if k < |SizeLine(0, lastExtension)| then HeaderError(Clean) else EOF)
    else
      var c := cs[0];
      var line := |SizeLine(|c.data|, c.extension)|;
      if k < line then Outcome([], HeaderError(Clean))
      else if k < line + |c.data| + 2 then Outcome(if k <= line + |c.data| then c.data[..k - line] else c.data, EOF)
      else Prepend(c.data, CutOutcome(cs[1..], lastExtension, k - line - |c.data| - 2))
  }

  /** The cut falls behind some size line but before the end of what it announces: its data and their line end, or, for
      the last one, the trailers. */
  predicate BehindASizeLine(cs: seq<Chunk>, lastExtension: Bytes, k: nat)
    decreases |cs|
  {
    if cs == [] then k >= |SizeLine(0, lastExtension)|
    else
      var line := |SizeLine(|cs[0].data|, cs[0].extension)|;
      line <= k &&
      (k < line + |cs[0].data| + 2 || BehindASizeLine(cs[1..], lastExtension, k - line - |cs[0].data| - 2))
  }

  lemma CutInSizeLine(n: nat, extension: Bytes, rest: Bytes, k: nat)
    requires GoodExtension(extension) && k < |SizeLine(n, extension)|
    ensures Remainder((SizeLine(n, extension) + rest)[..k], 0, false, Clean) == Outcome([], HeaderError(Clean))
  {
    hide Remainder, SizeLine, ParseSize;
    var line := SizeLine(n, extension);
    SizeLineIsFirst(n, extension, rest);
    var cut := (line + rest)[..k];
    assert cut == line[..|line| - 1][..k];
    AtHeader(cut, 0, Clean);
  }

  lemma CutInData(c: Chunk, rest: Bytes, k: nat)
    requires GoodChunk(c)
    requires var line := |SizeLine(|c.data|, c.extension)|; line <= k < line + |c.data| + 2
    ensures var line := |SizeLine(|c.data|, c.extension)|;
            Remainder((EncodeChunk(c) + rest)[..k], 0, false, Clean) ==
            Outcome(if k <= line + |c.data| then c.data[..k - line] else c.data, EOF)
  {
    hide Remainder, SizeLine, ParseSize;
    var line := SizeLine(|c.data|, c.extension);
    var m := k - |line|;
    var body := (c.data + NEW_LINE)[..m];
    assert (EncodeChunk(c) + rest)[..k] == line + body;
    SizeLineIsFirst(|c.data|, c.extension, body);
    SizeLineParses(|c.data|, c.extension);
    SizeLineNonEmpty(|c.data|, c.extension);
    AtHeader(line + body, 0, Clean);
    if m <= |c.data| {
      assert body == c.data[..m] + [];
      TakeFromChunk(c.data[..m], [], |c.data|, Clean);
    } else {
      assert body == c.data + [CR];
      TakeFromChunk(c.data, [CR], |c.data|, Clean);
      OneByteOfNewLine();
    }
  }

  lemma OneByteOfNewLine()
    ensures SkipCRLF([CR], Clean) == Stopped(EOF)
  {
    var cr: Bytes := [CR];
    assert cr[1..] == [];
    assert SkipCRLF(cr, Clean) == SkipCRLF(cr[1..], Clean, 1);
  }

  lemma CutBehindLastSize(lastExtension: Bytes, trailers: seq<Bytes>, k: nat)
    requires GoodExtension(lastExtension)
    requires |SizeLine(0, lastExtension)| <= k <= |Encode([], lastExtension, trailers)|
    ensures Remainder(Encode([], lastExtension, trailers)[..k], 0, false, Clean) == Outcome([], EOF)
  {
    hide Remainder, SizeLine, ParseSize, SkipTrailers, EncodeTrailers;
    var line := SizeLine(0, lastExtension);
    var rest := EncodeTrailers(trailers)[..k - |line|];
    assert Encode([], lastExtension, trailers)[..k] == line + rest;
    SizeLineIsFirst(0, lastExtension, rest);
    SizeLineParses(0, lastExtension);
    SizeLineNonEmpty(0, lastExtension);
    AtHeader(line + rest, 0, Clean);
    CleanTrailersSkip(rest);
  }

  lemma {:induction false} CleanTrailersSkip(s: Bytes)
    ensures SkipTrailers(s, Clean).Rest?
    decreases |s|
  {
    if LineLength(s) > 0 {
      CleanTrailersSkip(s[LineLength(s)..]);
    }
  }

  lemma {:induction false} CutStream(cs: seq<Chunk>, lastExtension: Bytes, trailers: seq<Bytes>, k: nat)
    requires Good(cs, lastExtension, trailers) && k <= |Encode(cs, lastExtension, trailers)|
    ensures Remainder(Encode(cs, lastExtension, trailers)[..k], 0, false, Clean) == CutOutcome(cs, lastExtension, k)
    decreases |cs|
  {
    hide Remainder, SizeLine, EncodeTrailers;
    var stream := Encode(cs, lastExtension, trailers);
    if cs == [] {
      if k < |SizeLine(0, lastExtension)| {
        CutInSizeLine(0, lastExtension, EncodeTrailers(trailers), k);
      } else {
        CutBehindLastSize(lastExtension, trailers, k);
      }
    } else {
      var c, rest := cs[0], Encode(cs[1..], lastExtension, trailers);
      var line := SizeLine(|c.data|, c.extension);
      var n := |EncodeChunk(c)|;
      if k < |line| {
        assert stream == line + (c.data + NEW_LINE + rest);
        CutInSizeLine(|c.data|, c.extension, c.data + NEW_LINE + rest, k);
      } else if k < n {
        CutInData(c, rest, k);
      } else {
        assert stream[..k] == EncodeChunk(c) + rest[..k - n];
        ChunkDecodes(c, rest[..k - n], Clean);
        CutStream(cs[1..], lastExtension, trailers, k - n);
      }
    }
  }

  /** Truncation passes for a clean end exactly if the cut falls behind a size line; it is reported only inside one. */
  lemma {:induction false} CutIsSilentIffBehindASizeLine(cs: seq<Chunk>, lastExtension: Bytes, trailers: seq<Bytes>,
                                                         k: nat)
    requires Good(cs, lastExtension, trailers) && k <= |Encode(cs, lastExtension, trailers)|
    ensures var o := Remainder(Encode(cs, lastExtension, trailers)[..k], 0, false, Clean);
            o.payload <= Payload(cs) &&
            o.err == (if BehindASizeLine(cs, lastExtension, k) then EOF else HeaderError(Clean))
  {
    CutStream(cs, lastExtension, trailers, k);
    CutOutcomeErrors(cs, lastExtension, k);
  }

  lemma {:induction false} CutOutcomeErrors(cs: seq<Chunk>, lastExtension: Bytes, k: nat)
    ensures var o := CutOutcome(cs, lastExtension, k);
            o.payload <= Payload(cs) &&
            o.err == (if BehindASizeLine(cs, lastExtension, k) then EOF else HeaderError(Clean))
    decreases |cs|
  {
    hide SizeLine;
    if cs != [] {
      var c := cs[0];
      var line := |SizeLine(|c.data|, c.extension)|;
      if k >= line + |c.data| + 2 {
        CutOutcomeErrors(cs[1..], lastExtension, k - line - |c.data| - 2);
      }
    }
  }
}
