/** Which inputs the aws-chunked decoder takes for a complete stream, and what it makes of them. */
module AcceptedStreams {
  import opened ByteStrings
  import opened Types
  import opened AwsChunked
  import Hex

  /** A line with its newline, which is the only one. */
  predicate IsLine(l: Bytes)
  {
    l != [] && l[|l| - 1] == LF && LF !in l[..|l| - 1]
  }

  predicate LineEnd(c: Byte)
  {
    c == CR || c == LF
  }

  predicate Blank(s: Bytes)
  {
    forall i :: 0 <= i < |s| ==> LineEnd(s[i])
  }

  /** One turn of the decoder: a size below zero, which is passed over, or a chunk with any two bytes of CR and LF. */
  datatype Piece = Skipped(line: Bytes) | Data(line: Bytes, data: Bytes, ending: Bytes)
  {
    predicate Valid()
    {
      IsLine(line) &&
      match this
      case Skipped(_) => ParseSize(line).Some? && ParseSize(line).value < 0
      case Data(_, data, ending) => data != [] && ParseSize(line) == Some(|data|) && |ending| == 2 && Blank(ending)
    }

    function Text(): Bytes {
      match this
      case Skipped(line) => line
      case Data(line, data, ending) => line + (data + ending)
    }

    function Payload(): Bytes {
      if Data? then data else []
    }
  }

  /** How a stream ends that counts as complete: cut off within a chunk or its line end, or with a size of zero, lines
      that are not blank, and a blank one with anything behind it or what there is without a newline. */
  datatype Tail = Cut(line: Bytes, front: Bytes) | Last(line: Bytes, trailers: seq<Bytes>, rest: Bytes)
  {
    predicate Valid(end: End)
    {
      IsLine(line) &&
      match this
      case Cut(_, front) =>
        end.Clean? && ParseSize(line).Some? && ParseSize(line).value > 0 && |front| < ParseSize(line).value + 2 &&
        (|front| > ParseSize(line).value ==> LineEnd(front[ParseSize(line).value]))
      case Last(_, trailers, rest) =>
        ParseSize(line) == Some(0) &&
        (forall i :: 0 <= i < |trailers| ==> IsLine(trailers[i]) && !Blank(trailers[i])) &&
        EndsTrailers(rest, end)
    }

    function Text(): Bytes {
      match this
      case Cut(line, front) => line + front
      case Last(line, trailers, rest) => line + (Lines(trailers) + rest)
    }

    function Payload(): Bytes
      requires IsLine(line) && (Cut? ==> ParseSize(line).Some? && ParseSize(line).value > 0)
    {
      if Cut? then (if |front| <= ParseSize(line).value then front else front[..ParseSize(line).value]) else []
    }
  }

  predicate EndsTrailers(rest: Bytes, end: End)
  {
    if LF in rest then exists k :: 0 < k <= |rest| && IsLine(rest[..k]) && Blank(rest[..k])
    else end.Clean? || Blank(rest)
  }

  function Lines(ls: seq<Bytes>): Bytes
  {
    if ls == [] then [] else ls[0] + Lines(ls[1..])
  }

  function Text(ps: seq<Piece>): Bytes
  {
    if ps == [] then [] else ps[0].Text() + Text(ps[1..])
  }

  function Payload(ps: seq<Piece>): Bytes
  {
    if ps == [] then [] else ps[0].Payload() + Payload(ps[1..])
  }

  /** The input is put together like that, and this is the payload of its parts. */
  predicate Parses(input: Bytes, end: End, ps: seq<Piece>, tail: Tail, payload: Bytes)
  {
    (forall i :: 0 <= i < |ps| ==> ps[i].Valid()) && tail.Valid(end) &&
    input == Text(ps) + tail.Text() && payload == Payload(ps) + tail.Payload()
  }

  // --- lines -------------------------------------------------------------------------------------------

  lemma {:induction false} BlankIffTrimmed(s: Bytes)
    ensures TrimNewlines(s) == [] <==> Blank(s)
  {
    if s != [] && LineEnd(s[|s| - 1]) {
      BlankIffTrimmed(s[..|s| - 1]);
    } else if s != [] {
      TrimKeepsFront(s, []);
      assert s + [] == s;
    }
  }

  lemma {:induction false} LineIsFirst(l: Bytes, rest: Bytes)
    requires IsLine(l)
    ensures LineLength(l + rest) == |l| && (l + rest)[..|l|] == l && (l + rest)[|l|..] == rest
  {
    var line := l[..|l| - 1];
    assert l == line + [LF];
    FirstLine(line, rest);
  }

  lemma {:induction false} FirstIsLine(s: Bytes)
    requires LineLength(s) > 0
    ensures IsLine(s[..LineLength(s)])
  {
    var n := LineLength(s);
    assert s[..n][..n - 1] == s[..n - 1];
  }

  lemma {:induction false} OnlyFirstIsLine(s: Bytes, k: nat)
    requires 0 < k <= |s| && IsLine(s[..k])
    ensures LineLength(s) == k
  {
    assert s[..k - 1] == s[..k][..k - 1];
    FirstNewline(s, k - 1);
  }

  // --- what is put together like that is accepted --------------------------------------------------------

  lemma {:induction false} NegativeIsHeader(input: Bytes, remaining: int, end: End)
    requires remaining <= 0
    ensures Remainder(input, remaining, false, end) == Remainder(input, 0, false, end)
  {
    hide Remainder, ParseSize, SkipTrailers, LineLength;
    AtHeader(input, remaining, end);
    AtHeader(input, 0, end);
  }

  lemma {:induction false} SkipTwo(ending: Bytes, rest: Bytes, end: End)
    requires |ending| == 2 && Blank(ending)
    ensures SkipCRLF(ending + rest, end) == Rest(rest)
  {
    var s := ending + rest;
    assert s[0] == ending[0] && s[1..][0] == ending[1] && s[1..][1..] == rest;
    assert SkipCRLF(s, end, 2) == SkipCRLF(s[1..], end, 1) == SkipCRLF(rest, end, 0);
  }

  lemma {:induction false} PieceDecodes(p: Piece, rest: Bytes, end: End)
    requires p.Valid()
    ensures Remainder(p.Text() + rest, 0, false, end) == Prepend(p.Payload(), Remainder(rest, 0, false, end))
  {
    hide Remainder, ParseSize, SkipTrailers, LineLength, SkipCRLF;
    match p
    case Skipped(line) =>
      LineIsFirst(line, rest);
      AtHeader(line + rest, 0, end);
      NegativeIsHeader(rest, ParseSize(line).value, end);
    case Data(line, data, ending) =>
      var tail := data + (ending + rest);
      assert p.Text() + rest == line + tail;
      LineIsFirst(line, tail);
      AtHeader(line + tail, 0, end);
      TakeFromChunk(data, ending + rest, |data|, end);
      SkipTwo(ending, rest, end);
  }

  lemma {:induction false} TrailersEnd(trailers: seq<Bytes>, rest: Bytes, end: End)
    requires forall i :: 0 <= i < |trailers| ==> IsLine(trailers[i]) && !Blank(trailers[i])
    requires EndsTrailers(rest, end)
    ensures SkipTrailers(Lines(trailers) + rest, end).Rest?
    decreases |trailers|
  {
    hide LineLength, TrimNewlines, Blank, IsLine;
    if trailers == [] {
      assert Lines(trailers) + rest == rest;
      RestEnds(rest, end);
    } else {
      var l, more := trailers[0], Lines(trailers[1..]) + rest;
      assert Lines(trailers) + rest == l + more;
      LineIsFirst(l, more);
      BlankIffTrimmed(l);
      TrailersEnd(trailers[1..], rest, end);
    }
  }

  lemma {:induction false} RestEnds(rest: Bytes, end: End)
    ensures EndsTrailers(rest, end) <==>
            if LineLength(rest) == 0 then end.Clean? || TrimNewlines(rest) == []
            else TrimNewlines(rest[..LineLength(rest)]) == []
  {
    hide TrimNewlines;
    var n := LineLength(rest);
    BlankIffTrimmed(rest);
    BlankIffTrimmed(rest[..n]);
    if n > 0 {
      FirstIsLine(rest);
      forall k | 0 < k <= |rest| && IsLine(rest[..k]) ensures k == n { OnlyFirstIsLine(rest, k); }
      assert rest[n - 1] == LF;
    }
  }

  lemma {:induction false} TailDecodes(tail: Tail, end: End)
    requires tail.Valid(end)
    ensures Remainder(tail.Text(), 0, false, end) == Outcome(tail.Payload(), EOF)
  {
    hide Remainder, ParseSize, SkipTrailers, LineLength, SkipCRLF, EndsTrailers, Lines;
    match tail
    case Cut(line, front) =>
      var n := ParseSize(line).value;
      LineIsFirst(line, front);
      AtHeader(line + front, 0, end);
      AtChunk(front, n, end);
      if |front| >= n {
        ShortEnding(front[n..], end);
        assert |front| == n ==> front[..n] == front;
      }
    case Last(line, trailers, rest) =>
      LineIsFirst(line, Lines(trailers) + rest);
      AtHeader(line + (Lines(trailers) + rest), 0, end);
      TrailersEnd(trailers, rest, end);
  }

  lemma {:induction false} ShortEnding(s: Bytes, end: End)
    ensures SkipCRLF(s, end) == Stopped(EOF) <==> end.Clean? && |s| < 2 && Blank(s)
    ensures SkipCRLF(s, end).Rest? <==> |s| >= 2 && Blank(s[..2])
    ensures SkipCRLF(s, end) == Stopped(SourceError) <==> end.Failed? && |s| < 2 && Blank(s)
    ensures SkipCRLF(s, end) == Stopped(ExpectedCRLF) <==>
            (s != [] && !LineEnd(s[0])) || (|s| > 1 && LineEnd(s[0]) && !LineEnd(s[1]))
  {
    if s != [] && LineEnd(s[0]) {
      assert SkipCRLF(s, end, 2) == SkipCRLF(s[1..], end, 1);
      if |s| > 1 && LineEnd(s[1]) {
        assert SkipCRLF(s[1..], end, 1) == SkipCRLF(s[1..][1..], end, 0);
      }
    }
  }

  lemma {:induction false} ParsedIsAccepted(ps: seq<Piece>, tail: Tail, end: End)
    requires (forall i :: 0 <= i < |ps| ==> ps[i].Valid()) && tail.Valid(end)
    ensures Remainder(Text(ps) + tail.Text(), 0, false, end) == Outcome(Payload(ps) + tail.Payload(), EOF)
    decreases |ps|
  {
    hide Remainder, Text, Payload, ParseSize, IsLine, Blank, EndsTrailers;
    if ps == [] {
      FirstOfNone(tail.Text());
      FirstOfNone(tail.Payload());
      TailDecodes(tail, end);
    } else {
      ParsedIsAccepted(ps[1..], tail, end);
      FirstOfText(ps, tail.Text(), tail.Payload());
      PieceDecodes(ps[0], Text(ps[1..]) + tail.Text(), end);
    }
  }

  lemma FirstOfNone(s: Bytes)
    ensures Text([]) + s == s && Payload([]) + s == s
  {
  }

  lemma {:induction false} FirstOfText(ps: seq<Piece>, text: Bytes, payload: Bytes)
    requires ps != []
    ensures Text(ps) + text == ps[0].Text() + (Text(ps[1..]) + text)
    ensures Payload(ps) + payload == ps[0].Payload() + (Payload(ps[1..]) + payload)
  {
    JoinThree(ps[0].Text(), Text(ps[1..]), text);
    JoinThree(ps[0].Payload(), Payload(ps[1..]), payload);
  }

  lemma JoinThree(a: Bytes, b: Bytes, c: Bytes)
    ensures a + b + c == a + (b + c)
  {
  }

  // --- and nothing else is -------------------------------------------------------------------------------

  lemma {:induction false} TrailersStop(s: Bytes, end: End)
    ensures SkipTrailers(s, end).Stopped? ==> SkipTrailers(s, end).err == SourceError
    decreases |s|
  {
    var n := LineLength(s);
    if n > 0 && TrimNewlines(s[..n]) != [] {
      TrailersStop(s[n..], end);
    }
  }

  lemma {:induction false} TrailersOf(s: Bytes, end: End) returns (trailers: seq<Bytes>, rest: Bytes)
    requires SkipTrailers(s, end).Rest?
    ensures s == Lines(trailers) + rest && EndsTrailers(rest, end)
    ensures forall i :: 0 <= i < |trailers| ==> IsLine(trailers[i]) && !Blank(trailers[i])
    decreases |s|
  {
    hide LineLength, TrimNewlines, EndsTrailers, Blank, IsLine;
    var n := LineLength(s);
    RestEnds(s, end);
    if n == 0 || TrimNewlines(s[..n]) == [] {
      trailers, rest := [], s;
      assert s == Lines(trailers) + rest;
    } else {
      FirstIsLine(s);
      BlankIffTrimmed(s[..n]);
      var later;
      later, rest := TrailersOf(s[n..], end);
      trailers := [s[..n]] + later;
      assert s == s[..n] + s[n..] && trailers[1..] == later;
    }
  }

  lemma {:induction false} OnePieceMore(p: Piece, input: Bytes, end: End, ps: seq<Piece>, tail: Tail, payload: Bytes)
    requires p.Valid() && Parses(input, end, ps, tail, payload)
    ensures Parses(p.Text() + input, end, [p] + ps, tail, p.Payload() + payload)
  {
    hide Text, Payload, ParseSize, IsLine, Blank, EndsTrailers;
    assert ([p] + ps)[1..] == ps;
    FirstOfText([p] + ps, tail.Text(), tail.Payload());
  }

  lemma {:induction false} JustTail(input: Bytes, end: End, tail: Tail, payload: Bytes)
    requires tail.Valid(end) && input == tail.Text() && payload == tail.Payload()
    ensures Parses(input, end, [], tail, payload)
  {
    assert Text([]) + tail.Text() == tail.Text() && Payload([]) + tail.Payload() == tail.Payload();
  }

  lemma {:induction false} AcceptedParses(input: Bytes, end: End) returns (ps: seq<Piece>, tail: Tail)
    requires Remainder(input, 0, false, end).err == EOF
    ensures Parses(input, end, ps, tail, Remainder(input, 0, false, end).payload)
    decreases |input|, 1
  {
    hide Remainder, ParseSize, SkipTrailers, LineLength, SkipCRLF, Parses, EndsTrailers, Lines;
    var n := LineLength(input);
    AtHeader(input, 0, end);
    var line, rest := input[..n], input[n..];
    assert input == line + rest;
    FirstIsLine(input);
    var size := ParseSize(line).value;
    if size == 0 {
      TrailersStop(rest, end);
      var trailers, behind := TrailersOf(rest, end);
      ps, tail := [], Last(line, trailers, behind);
      JustTail(input, end, tail, []);
    } else if size < 0 {
      NegativeIsHeader(rest, size, end);
      ps, tail := AcceptedParses(rest, end);
      var payload := Remainder(rest, 0, false, end).payload;
      OnePieceMore(Skipped(line), rest, end, ps, tail, payload);
      assert [] + payload == payload;
      ps := [Skipped(line)] + ps;
    } else {
      ps, tail := AcceptedChunk(line, rest, end);
    }
  }

  lemma {:induction false} AcceptedChunk(line: Bytes, rest: Bytes, end: End) returns (ps: seq<Piece>, tail: Tail)
    requires IsLine(line) && ParseSize(line).Some? && ParseSize(line).value > 0
    requires Remainder(rest, ParseSize(line).value, false, end).err == EOF
    ensures Parses(line + rest, end, ps, tail, Remainder(rest, ParseSize(line).value, false, end).payload)
    decreases |line + rest|, 0
  {
    hide Remainder, ParseSize, SkipTrailers, LineLength, SkipCRLF, Parses;
    var size := ParseSize(line).value;
    AtChunk(rest, size, end);
    if |rest| >= size {
      ShortEnding(rest[size..], end);
    }
    if |rest| >= size + 2 && SkipCRLF(rest[size..], end).Rest? {
      var data, ending, more := rest[..size], rest[size..][..2], rest[size + 2..];
      assert rest == data + ending + more;
      ps, tail := AcceptedParses(more, end);
      var p := Data(line, data, ending);
      OnePieceMore(p, more, end, ps, tail, Remainder(more, 0, false, end).payload);
      assert p.Text() + more == line + rest;
      ps := [p] + ps;
    } else {
      ps, tail := [], Cut(line, rest);
      assert |rest| > size ==> rest[size..][0] == rest[size];
      assert |rest| == size ==> rest[..size] == rest;
      JustTail(line + rest, end, tail, tail.Payload());
    }
  }

  /** The decoder takes an input for complete, with this payload, exactly if it can be put together that way. */
  lemma {:induction false} AcceptedIffParses(input: Bytes, end: End, payload: Bytes)
    ensures Remainder(input, 0, false, end) == Outcome(payload, EOF) <==>
            exists ps, tail :: Parses(input, end, ps, tail, payload)
  {
    hide Remainder, Text, Payload;
    if Remainder(input, 0, false, end) == Outcome(payload, EOF) {
      var ps, tail := AcceptedParses(input, end);
    }
    forall ps, tail | Parses(input, end, ps, tail, payload)
      ensures Remainder(input, 0, false, end) == Outcome(payload, EOF)
    {
      ParsedIsAccepted(ps, tail, end);
    }
  }

  // --- the errors of all other streams -------------------------------------------------------------------

  lemma {:induction false} PiecesDecode(ps: seq<Piece>, rest: Bytes, end: End)
    requires forall i :: 0 <= i < |ps| ==> ps[i].Valid()
    ensures var o := Remainder(rest, 0, false, end);
            Remainder(Text(ps) + rest, 0, false, end) == Outcome(Payload(ps) + o.payload, o.err)
    decreases |ps|
  {
    hide Remainder, Text, Payload, ParseSize, IsLine, Blank;
    var o := Remainder(rest, 0, false, end);
    if ps == [] {
      FirstOfNone(rest);
      FirstOfNone(o.payload);
    } else {
      PiecesDecode(ps[1..], rest, end);
      FirstOfText(ps, rest, o.payload);
      PieceDecodes(ps[0], Text(ps[1..]) + rest, end);
    }
  }

  /** What stops the decoder behind any pieces: a size line without its newline, a size that is none, data that ends
      before its size, and data that no line end follows. */
  lemma {:induction false} FaultsAreReported(ps: seq<Piece>, line: Bytes, rest: Bytes, end: End)
    requires forall i :: 0 <= i < |ps| ==> ps[i].Valid()
    ensures LF !in line ==>
              Remainder(Text(ps) + line, 0, false, end) == Outcome(Payload(ps), HeaderError(end))
    ensures IsLine(line) && ParseSize(line).None? ==>
              Remainder(Text(ps) + (line + rest), 0, false, end) == Outcome(Payload(ps), InvalidSize)
    ensures IsLine(line) && ParseSize(line).Some? && ParseSize(line).value > 0 ==>
              var n, o := ParseSize(line).value, Remainder(Text(ps) + (line + rest), 0, false, end);
              (|rest| < n ==> o == Outcome(Payload(ps) + rest, if end.Clean? then EOF else SourceError)) &&
              ((n < |rest| && !LineEnd(rest[n])) || (n + 1 < |rest| && LineEnd(rest[n]) && !LineEnd(rest[n + 1])) ==>
                o == Outcome(Payload(ps) + rest[..n], ExpectedCRLF))
  {
    hide Remainder, Text, Payload, ParseSize, SkipTrailers, SkipCRLF;
    PiecesDecode(ps, line, end);
    PiecesDecode(ps, line + rest, end);
    AtHeader(line, 0, end);
    if IsLine(line) {
      LineIsFirst(line, rest);
      AtHeader(line + rest, 0, end);
      if ParseSize(line).Some? && ParseSize(line).value > 0 {
        var n := ParseSize(line).value;
        AtChunk(rest, n, end);
        if n < |rest| {
          ShortEnding(rest[n..], end);
        }
      }
    }
  }
}
