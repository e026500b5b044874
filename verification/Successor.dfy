/** The upper end of a prefix range, as ListObjects and the S3 marker code compute it. */
module Successor {
  import opened ByteStrings

  /** Go's `string(c)` for a byte value: the UTF-8 form of code point c (section 3 of RFC 3629). */
  function Utf8(c: Byte): Bytes
  {
    if c < 0x80 then [c] else [0xc0 + c / 0x40, 0x80 + c % 0x40]
  }

  /** One byte below 0x80, and else a lead and a trail byte from which the code point can be read back. */
  lemma Utf8Decodes(c: Byte)
    ensures c < 0x80 ==> Utf8(c) == [c]
    ensures c >= 0x80 ==>
              var u := Utf8(c);
              |u| == 2 && 0xc2 <= u[0] <= 0xc3 && 0x80 <= u[1] < 0xc0 && (u[0] - 0xc0) * 0x40 + (u[1] - 0x80) == c
  {
  }

  /** The position of the last byte that is not 0xff, or -1. */
  function Pivot(p: Bytes): (i: int)
    ensures -1 <= i < |p|
    ensures i >= 0 ==> p[i] != 0xff
    ensures forall k :: i < k < |p| ==> p[k] == 0xff
  {
    if p == [] then -1
    else if p[|p| - 1] != 0xff then |p| - 1
    else Pivot(p[..|p| - 1])
  }

  function PrefixSuccessor(p: Bytes): Bytes
  {
    var i := Pivot(p);
    if i < 0 then [] else p[..i] + Utf8(p[i] + 1)
  }

  /** The index loop of the source, which both copies of prefixSuccessor share. */
  method ComputePrefixSuccessor(p: Bytes) returns (r: Bytes)
    ensures r == PrefixSuccessor(p)
  {
    var i := |p| - 1;
    while i >= 0
      invariant -1 <= i < |p|
      invariant Pivot(p) <= i
      invariant forall k :: i < k < |p| ==> p[k] == 0xff
    {
      if p[i] != 0xff {
        return p[..i] + Utf8(p[i] + 1);
      }
      i := i - 1;
    }
    return [];
  }

  /** The strings whose bumped byte still is a one-byte code point, or that have no byte to bump. */
  predicate Safe(p: Bytes)
  {
    var i := Pivot(p);
    i < 0 || p[i] < 0x7f
  }

  /** The rows a query with inclusive bound `lo` and exclusive bound `end` sees; "" as `end` means no bound. */
  predicate InRange(n: Bytes, lo: Bytes, end: Bytes)
  {
    Leq(lo, n) && (end == [] || Less(n, end))
  }

  /** The range of a prefix is right about a name. */
  predicate Bounds(p: Bytes, n: Bytes)
  {
    HasPrefix(n, p) <==> InRange(n, p, PrefixSuccessor(p))
  }

  lemma PivotIsUnique(p: Bytes, i: int)
    requires -1 <= i < |p|
    requires i >= 0 ==> p[i] != 0xff
    requires forall k :: i < k < |p| ==> p[k] == 0xff
    ensures Pivot(p) == i
  {
  }

  lemma {:induction false} SuccessorBehindHead(p: Bytes)
    requires Pivot(p) > 0
    ensures Pivot(p[1..]) == Pivot(p) - 1
    ensures PrefixSuccessor(p) == [p[0]] + PrefixSuccessor(p[1..])
  {
    var i := Pivot(p);
    PivotIsUnique(p[1..], i - 1);
    assert p[..i] == [p[0]] + p[1..][..i - 1];
    assert p[1..][i - 1] == p[i];
    assert [p[0]] + (p[1..][..i - 1] + Utf8(p[i] + 1)) == p[..i] + Utf8(p[i] + 1);
  }

  lemma {:induction false} TopBytesRange(p: Bytes, n: Bytes)
    requires forall k :: 0 <= k < |p| ==> p[k] == 0xff
    ensures HasPrefix(n, p) <==> Leq(p, n)
  {
    if p == [] {
    } else if n != [] {
      TopBytesRange(p[1..], n[1..]);
      assert n == [n[0]] + n[1..] && p == [p[0]] + p[1..];
    }
  }

  /** For a safe prefix the query range is exactly the set of names with that prefix. */
  lemma {:induction false} SafeRange(p: Bytes, n: Bytes)
    requires Safe(p)
    ensures Bounds(p, n)
    decreases p
  {
    hide Pivot;
    if Pivot(p) < 0 {
      TopBytesRange(p, n);
    } else if n == [] {
      assert p != [];
    } else {
      assert n == [n[0]] + n[1..] && p == [p[0]] + p[1..];
      if Pivot(p) == 0 {
        TopBytesRange(p[1..], n[1..]);
        var end: Bytes := [p[0] + 1];
        assert PrefixSuccessor(p) == end by { assert p[..0] == []; }
        assert end[1..] == [];
        NoneBelowEmpty(n[1..]);
        assert Less(n, end) <==> n[0] <= p[0];
        assert HasPrefix(n, p) <==> n[0] == p[0] && HasPrefix(n[1..], p[1..]);
      } else {
        SuccessorBehindHead(p);
        SafeRange(p[1..], n[1..]);
      }
    }
  }

  lemma NoneBelowEmpty(n: Bytes)
    ensures !Less(n, [])
  {
  }

  /** A name on which the range of an unsafe prefix and the prefix itself disagree. */
  function Misplaced(p: Bytes): Bytes
  {
    var i := Pivot(p);
    if 0 <= i && p[i] < 0xc3 then p[..i] + [p[i] + 1]
    else if 0 <= i == |p| - 1 && p[i] == 0xc3 then p + [0xff]
    else p
  }

  /** Below 0xc3 the range is too wide; from 0xc3 on it stops short of names that have the prefix, mostly at once. */
  lemma UnsafeRange(p: Bytes)
    requires !Safe(p)
    ensures var n := Misplaced(p);
            Leq(p, n) && !Bounds(p, n) &&
            (if p[Pivot(p)] < 0xc3
             then !HasPrefix(n, p) && Less(n, PrefixSuccessor(p))
             else HasPrefix(n, p) && PrefixSuccessor(p) != [] && Less(PrefixSuccessor(p), n))
  {
    var i := Pivot(p);
    var b, q, tail := p[i], p[..i], p[i + 1..];
    var u := Utf8(b + 1);
    assert p == q + ([b] + tail);
    if b < 0xc3 {
      assert Less([b] + tail, [b + 1]);
      LessSharedFront(q, [b] + tail, [b + 1]);
      assert Less([b + 1], u);
      LessSharedFront(q, [b + 1], u);
      assert Misplaced(p)[i] != p[i];
    } else {
      var more := if b == 0xc3 && tail == [] then [0xff] else [];
      PrefixLeq(p + more, p);
      assert Misplaced(p) == p + more == q + ([b] + tail + more);
      assert u[0] == 0xc3;
      if b > 0xc3 {
        assert Less(u, [b] + tail + more);
      } else {
        assert ([b] + tail + more)[1] == 0xff;
        BelowPivot(u, [b] + tail + more);
      }
      LessSharedFront(q, u, [b] + tail + more);
      NotLess(p + more, PrefixSuccessor(p));
    }
  }

  lemma BelowPivot(u: Bytes, v: Bytes)
    requires |u| == 2 && |v| >= 2
    requires u[0] < v[0] || (u[0] == v[0] && u[1] < v[1])
    ensures Less(u, v)
  {
  }

  /** Safety is exactly the condition under which the range selects the names with the prefix. */
  lemma RangeExactIffSafe(p: Bytes)
    ensures Safe(p) <==> forall n :: HasPrefix(n, p) <==> InRange(n, p, PrefixSuccessor(p))
  {
    if Safe(p) {
      forall n ensures HasPrefix(n, p) <==> InRange(n, p, PrefixSuccessor(p)) { SafeRange(p, n); }
    } else {
      UnsafeRange(p);
      assert !Bounds(p, Misplaced(p));
    }
  }

  lemma {:induction false} SafetyIsDecidedByTheEnd(q: Bytes, d: Bytes)
    ensures Pivot(d) >= 0 ==> Pivot(q + d) == |q| + Pivot(d) && (Safe(q + d) <==> Safe(d))
  {
    if Pivot(d) >= 0 {
      PivotIsUnique(q + d, |q| + Pivot(d));
    }
  }
}
