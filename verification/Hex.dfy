/** Hexadecimal sizes: strconv.ParseInt(s, 16, 64) and its inverse. */
module Hex {
  import opened ByteStrings
  import opened Types

  const MAX_INT64: int := 0x7fff_ffff_ffff_ffff

  function DigitOf(d: nat): Byte
    requires d < 16
  {
    if d < 10 then 48 + d else 87 + d
  }

  /** The value of a hexadecimal digit in either case. */
  function ValueOf(c: Byte): (v: Option<nat>)
    ensures '0' as int <= c <= '9' as int ==> v == Some(c - '0' as int)
    ensures 'a' as int <= c <= 'f' as int ==> v == Some(10 + c - 'a' as int)
    ensures 'A' as int <= c <= 'F' as int ==> v == Some(10 + c - 'A' as int)
    ensures v.Some? ==> '0' as int <= c <= '9' as int || 'a' as int <= c <= 'f' as int || 'A' as int <= c <= 'F' as int
  {
    if 48 <= c <= 57 then Some(c - 48)
    else if 97 <= c <= 102 then Some(c - 87)
    else if 65 <= c <= 70 then Some(c - 55)
    else None
  }

  /** Lower-case digits without leading zeros. */
  function Print(n: nat): Bytes
  {
    if n < 16 then [DigitOf(n)] else Print(n / 16) + [DigitOf(n % 16)]
  }

  /** The value of a run of digits; None if it is empty or another byte occurs. */
  function Digits(s: Bytes): Option<nat>
  {
    if s == [] then None
    else
      var last := ValueOf(s[|s| - 1]);
      if last.None? then None
      else if |s| == 1 then last
      else
        var front := Digits(s[..|s| - 1]);
        if front.None? then None else Some(front.value * 16 + last.value)
  }

  /** An optional sign, digits, and a value that fits 64 bits. */
  function ParseInt64(s: Bytes): Option<int>
  {
    var negative := s != [] && s[0] == 45;
    var signed := s != [] && (s[0] == 43 || s[0] == 45);
    var n := Digits(if signed then s[1..] else s);
    if n.None? then None
    else
      var v := if negative then 0 - n.value as int else n.value as int;
      if -MAX_INT64 - 1 <= v <= MAX_INT64 then Some(v) else None
  }

  lemma {:induction false} PrintIsDigits(n: nat)
    ensures Print(n) != [] && forall i :: 0 <= i < |Print(n)| ==> ValueOf(Print(n)[i]).Some?
    decreases n
  {
    if n >= 16 {
      PrintIsDigits(n / 16);
    }
  }

  lemma {:induction false} DigitsOfPrint(n: nat)
    ensures Digits(Print(n)) == Some(n)
    decreases n
  {
    if n >= 16 {
      DigitsOfPrint(n / 16);
      var s := Print(n);
      assert s[..|s| - 1] == Print(n / 16);
      PrintIsDigits(n / 16);
    }
  }

  /** A sign in front of digits, and the bounds of 64 bits. */
  lemma {:induction false} SignsAndBounds(s: Bytes)
    requires Digits(s).Some?
    ensures var n := Digits(s).value;
            ParseInt64(s) == (if n <= 0x7fff_ffff_ffff_ffff then Some(n) else None) &&
            ParseInt64([43] + s) == (if n <= 0x7fff_ffff_ffff_ffff then Some(n) else None) &&
            ParseInt64([45] + s) == if n <= 0x8000_0000_0000_0000 then Some(0 - n as int) else None
  {
    assert ([43] + s)[1..] == s && ([45] + s)[1..] == s;
    if |s| > 1 {
      FirstIsDigit(s);
    }
  }

  lemma {:induction false} FirstIsDigit(s: Bytes)
    requires s != [] && Digits(s).Some?
    ensures ValueOf(s[0]).Some?
  {
    if |s| > 1 {
      FirstIsDigit(s[..|s| - 1]);
    }
  }

  /** "1f", "1F" and "+a0" are 31, 31 and 160; "-1" is below zero; "g" and "" are no numbers. */
  lemma {:induction false} ParseExamples()
    ensures ParseInt64([49, 102]) == ParseInt64([49, 70]) == Some(31)
    ensures ParseInt64([43, 97, 48]) == Some(160) && ParseInt64([45, 49]) == Some(-1)
    ensures ParseInt64([103]) == None && ParseInt64([]) == None
  {
    assert [49, 102][..1] == [49] && [49, 70][..1] == [49];
    assert Digits([49]) == Some(1);
    assert [43, 97, 48][1..] == [97, 48] && [97, 48][..1] == [97];
    assert Digits([97]) == Some(10);
    assert [45, 49][1..] == [49];
  }

  /** Parsing undoes printing for every size that fits. */
  lemma ParseOfPrint(n: nat)
    requires n <= 0x7fff_ffff_ffff_ffff
    ensures ParseInt64(Print(n)) == Some(n)
  {
    PrintIsDigits(n);
    DigitsOfPrint(n);
  }
}
