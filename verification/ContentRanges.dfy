/** Content-Range headers (section 14.4 of RFC 9110) as resumable uploads read them, and as clients write them. */
module ContentRanges {
  import opened ByteStrings
  import opened Types
  import opened Resumable
  import Hex

  const DASH: Byte := 45
  const SLASH: Byte := 47
  const STAR: Byte := 42

  /** "bytes " */
  const BYTES_UNIT: Bytes := [98, 121, 116, 101, 115, 32]

  // --- decimal numbers ---------------------------------------------------------------------------------

  predicate IsDigit(c: Byte)
  {
    48 <= c <= 57
  }

  predicate AllDigits(s: Bytes)
  {
    forall i :: 0 <= i < |s| ==> IsDigit(s[i])
  }

  predicate IsNumber(s: Bytes)
  {
    s != [] && AllDigits(s)
  }

  function Value(s: Bytes): nat
    requires AllDigits(s)
  {
    if s == [] then 0 else Value(s[..|s| - 1]) * 10 + (s[|s| - 1] - 48)
  }

  /** strconv.ParseInt with its error dropped: a number too large for 64 bits reads as the largest one. */
  function ParseNumber(s: Bytes): (n: nat)
    requires IsNumber(s)
    ensures n <= 0x7fff_ffff_ffff_ffff
    ensures Value(s) <= 0x7fff_ffff_ffff_ffff ==> n == Value(s)
    ensures Value(s) > 0x7fff_ffff_ffff_ffff ==> n == 0x7fff_ffff_ffff_ffff
  {
    if Value(s) <= Hex.MAX_INT64 then Value(s) else Hex.MAX_INT64
  }

  function PrintNumber(n: nat): (s: Bytes)
    ensures IsNumber(s) && Value(s) == n
  {
    if n < 10 then
      var s: Bytes := [48 + n];
      assert s[..0] == [];
      s
    else
      var front := PrintNumber(n / 10);
      var s := front + [48 + n % 10];
      assert s[..|s| - 1] == front;
      s
  }

  // --- the two forms -----------------------------------------------------------------------------------

  predicate IsTotal(t: Bytes)
  {
    t == [STAR] || IsNumber(t)
  }

  function Total(t: Bytes): Option<nat>
    requires IsTotal(t)
  {
    if t == [STAR] then None else Some(ParseNumber(t))
  }

  /** The strings that reContentRangeProbe matches, with its group. */
  predicate MatchesProbe(h: Bytes, t: Bytes)
  {
    IsTotal(t) && h == BYTES_UNIT + ([STAR] + ([SLASH] + t))
  }

  /** The strings that reContentRangeChunk matches, with its groups. */
  predicate MatchesChunk(h: Bytes, a: Bytes, b: Bytes, t: Bytes)
  {
    IsNumber(a) && IsNumber(b) && IsTotal(t) && h == BYTES_UNIT + (a + ([DASH] + (b + ([SLASH] + t))))
  }

  /** The number of digits that `s` begins with. */
  function Digits(s: Bytes): (n: nat)
    ensures n <= |s| && AllDigits(s[..n]) && (n < |s| ==> !IsDigit(s[n]))
  {
    if s == [] || !IsDigit(s[0]) then 0 else
      var n := Digits(s[1..]);
      assert s[1..][..n] == s[1..n + 1];
      n + 1
  }

  function ParseChunk(s: Bytes): (r: ContentRange)
    ensures r.Chunk? || r.Malformed?
  {
    var n := Digits(s);
    if n == 0 || n == |s| || s[n] != DASH then Malformed
    else
      var u := s[n + 1..];
      var m := Digits(u);
      if m == 0 || m == |u| || u[m] != SLASH || !IsTotal(u[m + 1..]) then Malformed
      else Chunk(ParseNumber(s[..n]), ParseNumber(u[..m]), Total(u[m + 1..]))
  }

  /** What the handler makes of the header; an absent one is empty. */
  function Parse(h: Bytes): (r: ContentRange)
    ensures h == [] <==> r.NoRange?
  {
    if h == [] then NoRange
    else if !HasPrefix(h, BYTES_UNIT) then Malformed
    else
      var s := h[|BYTES_UNIT|..];
      if HasPrefix(s, [STAR, SLASH]) then (if IsTotal(s[2..]) then Probe(Total(s[2..])) else Malformed)
      else ParseChunk(s)
  }

  lemma {:induction false} DigitsOf(a: Bytes, c: Byte, rest: Bytes)
    requires AllDigits(a) && !IsDigit(c)
    ensures var s := a + ([c] + rest); Digits(s) == |a| && s[..|a|] == a && s[|a|] == c && s[|a| + 1..] == rest
  {
    var s := a + ([c] + rest);
    if a != [] {
      DigitsOf(a[1..], c, rest);
      assert s[1..] == a[1..] + ([c] + rest);
    }
  }

  lemma {:induction false} ProbeIsRead(h: Bytes, t: Bytes)
    requires MatchesProbe(h, t)
    ensures Parse(h) == Probe(Total(t))
  {
    hide ParseNumber, Value, AllDigits, ParseChunk, IsTotal, Total;
    var s := h[|BYTES_UNIT|..];
    assert s == [STAR] + ([SLASH] + t);
    assert s[..2] == [STAR, SLASH] && s[2..] == t;
  }

  lemma {:induction false} ChunkIsRead(a: Bytes, b: Bytes, t: Bytes)
    requires IsNumber(a) && IsNumber(b) && IsTotal(t)
    ensures ParseChunk(a + ([DASH] + (b + ([SLASH] + t)))) == Chunk(ParseNumber(a), ParseNumber(b), Total(t))
  {
    hide ParseNumber, Value, AllDigits, Digits, IsTotal, Total;
    DigitsOf(a, DASH, b + ([SLASH] + t));
    DigitsOf(b, SLASH, t);
  }

  /** A header of either form is read as that form says, with its own numbers. */
  lemma {:induction false} FormsAreRead(h: Bytes, a: Bytes, b: Bytes, t: Bytes)
    ensures MatchesProbe(h, t) ==> Parse(h) == Probe(Total(t))
    ensures MatchesChunk(h, a, b, t) ==> Parse(h) == Chunk(ParseNumber(a), ParseNumber(b), Total(t))
  {
    hide ParseNumber, Value, ParseChunk, IsTotal, Total, MatchesProbe;
    if MatchesProbe(h, t) {
      ProbeIsRead(h, t);
    }
    if MatchesChunk(h, a, b, t) {
      var s := a + ([DASH] + (b + ([SLASH] + t)));
      assert h[|BYTES_UNIT|..] == s && s[0] == a[0] && IsDigit(a[0]);
      ChunkIsRead(a, b, t);
    }
  }

  lemma {:induction false} ProbeHasForm(h: Bytes)
    requires Parse(h).Probe?
    ensures exists t :: MatchesProbe(h, t)
  {
    hide ParseNumber, Value, AllDigits, ParseChunk;
    var s := h[|BYTES_UNIT|..];
    assert h == BYTES_UNIT + s;
    assert s == [STAR] + ([SLASH] + s[2..]);
    assert MatchesProbe(h, s[2..]);
  }

  lemma {:induction false} Rejoined(s: Bytes, n: nat)
    requires n < |s|
    ensures s == s[..n] + ([s[n]] + s[n + 1..])
  {
  }

  lemma {:induction false} ChunkHasForm(s: Bytes)
    requires ParseChunk(s).Chunk?
    ensures exists a, b, t :: MatchesChunk(BYTES_UNIT + s, a, b, t)
  {
    hide ParseNumber, Value, AllDigits, Parse, IsTotal;
    var n := Digits(s);
    var u := s[n + 1..];
    var m := Digits(u);
    Rejoined(s, n);
    Rejoined(u, m);
    assert MatchesChunk(BYTES_UNIT + s, s[..n], u[..m], u[m + 1..]);
  }

  /** Nothing else is: a header is accepted as a probe or a chunk iff it has that form, and refused iff it is there and
      has neither. */
  lemma {:induction false} ParseIffForm(h: Bytes)
    ensures Parse(h).NoRange? <==> h == []
    ensures Parse(h).Probe? <==> exists t :: MatchesProbe(h, t)
    ensures Parse(h).Chunk? <==> exists a, b, t :: MatchesChunk(h, a, b, t)
  {
    hide MatchesProbe, MatchesChunk, ParseNumber, IsTotal, Digits;
    if Parse(h).Probe? {
      ProbeHasForm(h);
    }
    if Parse(h).Chunk? {
      ChunkHasForm(h[|BYTES_UNIT|..]);
      assert h == BYTES_UNIT + h[|BYTES_UNIT|..];
    }
    forall t | MatchesProbe(h, t) ensures Parse(h).Probe? {
      FormsAreRead(h, [], [], t);
    }
    forall a, b, t | MatchesChunk(h, a, b, t) ensures Parse(h).Chunk? {
      FormsAreRead(h, a, b, t);
    }
  }

  /** One more digit. */
  lemma {:induction false} OneMoreDigit(s: Bytes, d: nat)
    requires AllDigits(s) && d < 10
    ensures AllDigits(s + [48 + d]) && Value(s + [48 + d]) == 10 * Value(s) + d
  {
    assert (s + [48 + d])[..|s|] == s;
  }

  lemma {:induction false} OneDigit(d: nat)
    requires d < 10
    ensures IsNumber([48 + d]) && ParseNumber([48 + d]) == d
  {
    assert [] + [48 + d] == [48 + d];
    OneMoreDigit([], d);
  }

  /** "bytes 5-12/42" is read like this. */
  lemma {:induction false} ChunkExample()
    ensures Parse([98, 121, 116, 101, 115, 32, 53, 45, 49, 50, 47, 52, 50]) == Chunk(5, 12, Some(42))
  {
    hide Parse, ParseChunk, Value, ParseNumber;
    OneDigit(5);
    TwoDigits(1, 2);
    TwoDigits(4, 2);
    FormsAreRead([98, 121, 116, 101, 115, 32, 53, 45, 49, 50, 47, 52, 50], [53], [49, 50], [52, 50]);
  }

  lemma {:induction false} TwoDigits(a: nat, b: nat)
    requires a < 10 && b < 10
    ensures IsNumber([48 + a, 48 + b]) && ParseNumber([48 + a, 48 + b]) == 10 * a + b
  {
    OneDigit(a);
    OneMoreDigit([48 + a], b);
    assert [48 + a] + [48 + b] == [48 + a, 48 + b];
  }

  /** "bytes", a space and then an asterisk, a slash and "7" or another asterisk are the probes. */
  lemma {:induction false} ProbeExamples()
    ensures Parse([98, 121, 116, 101, 115, 32, 42, 47, 55]) == Probe(Some(7))
    ensures Parse([98, 121, 116, 101, 115, 32, 42, 47, 42]) == Probe(None)
  {
    hide Parse, ParseChunk, Value, ParseNumber;
    OneDigit(7);
    FormsAreRead([98, 121, 116, 101, 115, 32, 42, 47, 55], [], [], [55]);
    FormsAreRead([98, 121, 116, 101, 115, 32, 42, 47, 42], [], [], [42]);
  }

  /** "bytes 0-:/5" is not taken, as the byte behind "9" is no digit. */
  lemma {:induction false} RefusedExample()
    ensures Parse([98, 121, 116, 101, 115, 32, 48, 45, 58, 47, 53]) == Malformed
  {
    var s: Bytes, u: Bytes := [48, 45, 58, 47, 53], [58, 47, 53];
    var h: Bytes := [98, 121, 116, 101, 115, 32, 48, 45, 58, 47, 53];
    assert h[6..] == s && s[1..] == [45, 58, 47, 53] && s[2..] == u && s[..2] == [48, 45];
    assert Digits([45, 58, 47, 53]) == 0;
    assert Digits(s) == 1 && Digits(u) == 0;
    assert h[..6] == BYTES_UNIT;
  }

  // --- what clients write ------------------------------------------------------------------------------

  function PrintTotal(total: Option<nat>): (t: Bytes)
    ensures IsTotal(t)
  {
    if total.None? then [STAR] else PrintNumber(total.value)
  }

  function Print(r: ContentRange): Bytes
    requires !r.Malformed?
  {
    match r
    case NoRange => []
    case Probe(total) => BYTES_UNIT + ([STAR] + ([SLASH] + PrintTotal(total)))
    case Chunk(start, end, total) =>
      BYTES_UNIT + (PrintNumber(start) + ([DASH] + (PrintNumber(end) + ([SLASH] + PrintTotal(total)))))
  }

  predicate Fits(total: Option<nat>)
  {
    total.Some? ==> total.value <= 0x7fff_ffff_ffff_ffff
  }

  lemma {:induction false} TotalOfPrint(total: Option<nat>)
    ensures Total(PrintTotal(total)) == total <==> Fits(total)
  {
    if total.Some? {
      assert IsDigit(PrintNumber(total.value)[0]);
    }
  }

  /** Reading undoes writing iff every number fits 64 bits. */
  lemma {:induction false} ParseOfPrint(r: ContentRange)
    requires !r.Malformed?
    ensures Parse(Print(r)) == r <==>
              (r.Probe? ==> Fits(r.total)) && (r.Chunk? ==> Fits(Some(r.start)) && Fits(Some(r.end)) && Fits(r.total))
  {
    hide Value, AllDigits, PrintNumber, PrintTotal, Total, Parse;
    match r
    case NoRange =>
      ParseIffForm(Print(r));
    case Probe(total) =>
      TotalOfPrint(total);
      assert MatchesProbe(Print(r), PrintTotal(total));
      FormsAreRead(Print(r), [], [], PrintTotal(total));
    case Chunk(start, end, total) =>
      TotalOfPrint(total);
      assert MatchesChunk(Print(r), PrintNumber(start), PrintNumber(end), PrintTotal(total));
      FormsAreRead(Print(r), PrintNumber(start), PrintNumber(end), PrintTotal(total));
  }

  /** What a faithful client writes is understood, as long as its content's size fits 64 bits. */
  lemma ClientIsUnderstood(c: Bytes, r: Request)
    requires Sends(c, r) && |c| <= 0x7fff_ffff_ffff_ffff
    ensures Parse(Print(r.range)) == r.range
  {
    ParseOfPrint(r.range);
  }
}
