/** What a listing is: filter the names, map each to itself or its common prefix, drop duplicates. */
module Listing {
  import opened ByteStrings
  import opened Successor

  datatype Entry = Object(name: Bytes) | Group(prefix: Bytes)
  {
    function Key(): Bytes {
      match this
      case Object(n) => n
      case Group(p) => p
    }
  }

  /** The part of a list request that stays the same from page to page; an empty delimiter means none. */
  datatype Query = Query(prefix: Bytes, delimiter: Bytes)

  /** Cuts the name at the length of the prefix and looks for the delimiter behind it; a shorter name has no rest. */
  function EntryOf(q: Query, n: Bytes): Entry
  {
    var rest := n[if |q.prefix| <= |n| then |q.prefix| else |n|..];
    var i := Index(rest, q.delimiter);
    if q.delimiter != [] && i >= 0 then Group(q.prefix + rest[..i + |q.delimiter|]) else Object(n)
  }

  predicate Under(q: Query, m: set<Bytes>)
  {
    forall n :: n in m ==> HasPrefix(n, q.prefix)
  }

  /** The names a listing ranges over: those with the prefix, from the token on. */
  function Matching(q: Query, names: set<Bytes>, token: Bytes): (m: set<Bytes>)
    ensures Under(q, m)
  {
    set n | n in names && HasPrefix(n, q.prefix) && Leq(token, n)
  }

  /** Map names to entries, keeping the first occurrence of each. */
  function Entries(q: Query, ns: seq<Bytes>): seq<Entry>
  {
    if ns == [] then []
    else
      var es := Entries(q, ns[..|ns| - 1]);
      var e := EntryOf(q, ns[|ns| - 1]);
      if e in es then es else es + [e]
  }

  /** The simple listing of a set of matching names. */
  function SimpleListing(q: Query, m: set<Bytes>): seq<Entry>
  {
    Entries(q, Sorted(m))
  }

  /** The two lists that an answer keeps apart: the objects, */
  function Objects(es: seq<Entry>): seq<Bytes>
  {
    if es == [] then []
    else Objects(es[..|es| - 1]) + (if es[|es| - 1].Object? then [es[|es| - 1].name] else [])
  }

  /** and the common prefixes. */
  function Prefixes(es: seq<Entry>): seq<Bytes>
  {
    if es == [] then []
    else Prefixes(es[..|es| - 1]) + (if es[|es| - 1].Group? then [es[|es| - 1].prefix] else [])
  }

  /** The range of a name's common prefix is right about these names. */
  predicate GroupExact(q: Query, names: set<Bytes>, n: Bytes)
  {
    EntryOf(q, n).Group? ==> forall x :: x in names && HasPrefix(x, q.prefix) ==> Bounds(EntryOf(q, n).prefix, x)
  }

  /** The ranges that a listing computes are right about these names: that of the prefix, and that of each common
      prefix they form. */
  predicate ExactFor(q: Query, names: set<Bytes>)
  {
    (forall n :: n in names ==> Bounds(q.prefix, n)) &&
    forall n :: n in names && HasPrefix(n, q.prefix) ==> GroupExact(q, names, n)
  }

  /** A request whose prefix and every common prefix it can ever form are safe. */
  predicate SafeQuery(q: Query)
  {
    Safe(q.prefix) && (q.delimiter == [] || (Pivot(q.delimiter) >= 0 && Safe(q.delimiter)))
  }

  function Ahead(names: set<Bytes>, token: Bytes): set<Bytes>
  {
    set n | n in names && Leq(token, n)
  }

  lemma ExactForFewer(q: Query, names: set<Bytes>, fewer: set<Bytes>)
    requires ExactFor(q, names) && fewer <= names
    ensures ExactFor(q, fewer)
  {
    forall n | n in fewer && HasPrefix(n, q.prefix) ensures GroupExact(q, fewer, n) {
      assert GroupExact(q, names, n);
    }
  }

  lemma GroupEndsWithDelimiter(q: Query, n: Bytes)
    requires EntryOf(q, n).Group?
    ensures q.delimiter != [] && HasSuffix(EntryOf(q, n).prefix, q.delimiter)
  {
    var rest := n[if |q.prefix| <= |n| then |q.prefix| else |n|..];
    var i := Index(rest, q.delimiter);
    assert rest[..i + |q.delimiter|] == rest[..i] + q.delimiter;
    assert EntryOf(q, n).prefix == (q.prefix + rest[..i]) + q.delimiter;
  }

  lemma SafeQueryFormsSafeGroups(q: Query, n: Bytes)
    requires SafeQuery(q) && EntryOf(q, n).Group?
    ensures Safe(EntryOf(q, n).prefix)
  {
    GroupEndsWithDelimiter(q, n);
    var cp, d := EntryOf(q, n).prefix, q.delimiter;
    assert cp == cp[..|cp| - |d|] + d;
    SafetyIsDecidedByTheEnd(cp[..|cp| - |d|], d);
  }

  lemma SafeQueryIsExactFor(q: Query, names: set<Bytes>)
    requires SafeQuery(q)
    ensures ExactFor(q, names)
  {
    forall n | n in names ensures Bounds(q.prefix, n) && GroupExact(q, names, n) {
      SafeRange(q.prefix, n);
      if EntryOf(q, n).Group? {
        SafeQueryFormsSafeGroups(q, n);
        forall x ensures Bounds(EntryOf(q, n).prefix, x) { SafeRange(EntryOf(q, n).prefix, x); }
      }
    }
  }

  // --- names and their groups ----------------------------------------------------------

  lemma KeyIsPrefix(q: Query, n: Bytes)
    requires HasPrefix(n, q.prefix)
    ensures HasPrefix(n, EntryOf(q, n).Key())
    ensures Leq(EntryOf(q, n).Key(), n)
  {
    assert n == q.prefix + n[|q.prefix|..];
    PrefixLeq(n, EntryOf(q, n).Key());
  }

  /** Every name that begins with a common prefix belongs to it, and no other does. */
  lemma GroupMembers(q: Query, n: Bytes, x: Bytes)
    requires HasPrefix(n, q.prefix) && HasPrefix(x, q.prefix)
    requires EntryOf(q, n).Group?
    ensures EntryOf(q, x) == EntryOf(q, n) <==> HasPrefix(x, EntryOf(q, n).prefix)
  {
    var p, d := q.prefix, q.delimiter;
    var cp := EntryOf(q, n).prefix;
    var rest, tail := n[|p|..], x[|p|..];
    var i := Index(rest, d);
    assert cp == p + rest[..i + |d|] && cp[|p|..] == rest[..i + |d|];
    if HasPrefix(x, cp) {
      assert x == cp + x[|cp|..];
      assert tail[..i + |d|] == x[..|cp|][|p|..] == cp[|p|..] == rest[..i + |d|];
      FirstOccurrenceIsStable(rest, tail, d);
    } else if EntryOf(q, x) == EntryOf(q, n) {
      KeyIsPrefix(q, x);
    }
  }

  /** Where its range is right, the members of a group are the names in it. */
  lemma GroupIsRange(q: Query, n: Bytes, x: Bytes)
    requires HasPrefix(n, q.prefix) && HasPrefix(x, q.prefix)
    requires EntryOf(q, n).Group? && Bounds(EntryOf(q, n).prefix, x)
    ensures var cp := EntryOf(q, n).prefix;
            EntryOf(q, x) == EntryOf(q, n) <==> InRange(x, cp, PrefixSuccessor(cp))
  {
    GroupMembers(q, n, x);
  }

  /** Between two names of a group there are only names of the group. */
  lemma GroupsAreConvex(q: Query, a: Bytes, x: Bytes, b: Bytes)
    requires HasPrefix(a, q.prefix) && HasPrefix(x, q.prefix) && HasPrefix(b, q.prefix)
    requires EntryOf(q, a) == EntryOf(q, b) && Leq(EntryOf(q, a).Key(), x) && Leq(x, b)
    ensures EntryOf(q, x) == EntryOf(q, a)
  {
    if EntryOf(q, a).Group? {
      GroupMembers(q, a, b);
      PrefixesAreConvex(EntryOf(q, a).prefix, x, b);
      GroupMembers(q, a, x);
    } else {
      NotLess(x, b);
    }
  }

  /** Larger names have larger keys, unless they share an entry. */
  lemma KeysAscendWithNames(q: Query, a: Bytes, b: Bytes)
    requires HasPrefix(a, q.prefix) && HasPrefix(b, q.prefix) && Less(a, b)
    requires EntryOf(q, a) != EntryOf(q, b)
    ensures Less(EntryOf(q, a).Key(), EntryOf(q, b).Key())
    ensures Less(a, EntryOf(q, b).Key())
  {
    KeyIsPrefix(q, a);
    var k := EntryOf(q, b).Key();
    if Leq(k, a) {
      GroupsAreConvex(q, b, a, b);
      assert false;
    }
    NotLess(a, k);
    LeqTransitive(EntryOf(q, a).Key(), a, k);
  }

  /** The entry of a matching name: cut behind the first delimiter after the prefix, or the name itself if there is
      none. */
  lemma {:induction false} EntryMeans(q: Query, n: Bytes)
    requires HasPrefix(n, q.prefix)
    ensures EntryOf(q, n).Object? ==>
              EntryOf(q, n).name == n &&
              (q.delimiter == [] || forall j :: |q.prefix| <= j ==> !OccursAt(n, q.delimiter, j))
    ensures EntryOf(q, n).Group? ==>
              q.delimiter != [] &&
              exists j ::
                |q.prefix| <= j && OccursAt(n, q.delimiter, j) && EntryOf(q, n).prefix == n[..j + |q.delimiter|] &&
                forall k :: |q.prefix| <= k < j ==> !OccursAt(n, q.delimiter, k)
  {
    hide Index, OccursAt;
    var p, d := q.prefix, q.delimiter;
    var rest := n[|p|..];
    var i := Index(rest, d);
    forall j | |p| <= j ensures OccursAt(n, d, j) <==> OccursAt(rest, d, j - |p|) { OccursBehind(n, d, |p|, j); }
    if d != [] && i >= 0 {
      assert OccursAt(rest, d, i) && OccursAt(n, d, |p| + i);
      OccursFits(rest, d, i);
      FrontOfName(n, p, i + |d|);
    }
  }

  lemma OccursBehind(n: Bytes, d: Bytes, k: nat, j: nat)
    requires k <= j && k <= |n|
    ensures OccursAt(n, d, j) <==> OccursAt(n[k..], d, j - k)
  {
    if j + |d| <= |n| {
      assert n[j..j + |d|] == n[k..][j - k..j - k + |d|];
    }
  }

  lemma OccursFits(s: Bytes, d: Bytes, j: int)
    requires OccursAt(s, d, j)
    ensures 0 <= j && j + |d| <= |s|
  {
  }

  lemma FrontOfName(n: Bytes, p: Bytes, k: nat)
    requires HasPrefix(n, p) && |p| + k <= |n|
    ensures p + n[|p|..][..k] == n[..|p| + k]
  {
  }

  /** The two lists of an answer hold its entries. */
  lemma {:induction false} ListsHoldEntries(es: seq<Entry>)
    ensures |Objects(es)| + |Prefixes(es)| == |es|
    ensures forall n :: n in Objects(es) <==> Object(n) in es
    ensures forall p :: p in Prefixes(es) <==> Group(p) in es
  {
    if es != [] {
      ListsHoldEntries(es[..|es| - 1]);
      assert es == es[..|es| - 1] + [es[|es| - 1]];
    }
  }

  predicate AscendingNames(ns: seq<Bytes>)
  {
    forall i, j :: 0 <= i < j < |ns| ==> Less(ns[i], ns[j])
  }

  lemma {:induction false} AscendingMore(ns: seq<Bytes>, n: Bytes)
    requires AscendingNames(ns) && forall m :: m in ns ==> Less(m, n)
    ensures AscendingNames(ns + [n])
  {
    hide Less;
  }

  /** And each keeps their order. */
  lemma {:induction false} ListsAscend(es: seq<Entry>)
    requires AscendingKeys(es)
    ensures AscendingNames(Objects(es)) && AscendingNames(Prefixes(es))
  {
    hide Less, AscendingNames;
    if es == [] {
      NoneAscend();
    } else {
      var front, last := es[..|es| - 1], es[|es| - 1];
      assert AscendingKeys(front) && forall e :: e in front ==> Less(e.Key(), last.Key());
      ListsAscend(front);
      ListsHoldEntries(front);
      match last
      case Object(n) =>
        forall m | m in Objects(front) ensures Less(m, n) { assert Object(m) in front; }
        AscendingMore(Objects(front), n);
        assert Prefixes(front) + [] == Prefixes(front);
      case Group(p) =>
        forall m | m in Prefixes(front) ensures Less(m, p) { assert Group(m) in front; }
        AscendingMore(Prefixes(front), p);
        assert Objects(front) + [] == Objects(front);
    }
  }

  lemma NoneAscend()
    ensures AscendingNames([])
  {
  }

  // --- the listing, one entry at a time -------------------------------------------------

  /** The names that the entry of `n` does not stand for. */
  function Beyond(q: Query, m: set<Bytes>, n: Bytes): set<Bytes>
  {
    set x | x in m && EntryOf(q, x) != EntryOf(q, n)
  }

  lemma {:induction false} EntriesOfOne(q: Query, ns: seq<Bytes>, e: Entry)
    requires forall n :: n in ns ==> EntryOf(q, n) == e
    requires ns != []
    ensures Entries(q, ns) == [e]
  {
    var init := ns[..|ns| - 1];
    assert ns[|ns| - 1] in ns;
    if init != [] {
      EntriesOfOne(q, init, e);
    } else {
      assert Entries(q, init) == [];
    }
  }

  lemma {:induction false} EntriesComeFromNames(q: Query, ns: seq<Bytes>)
    ensures forall e :: e in Entries(q, ns) <==> exists n :: n in ns && EntryOf(q, n) == e
  {
    if ns != [] {
      var init, l := ns[..|ns| - 1], ns[|ns| - 1];
      EntriesComeFromNames(q, init);
      assert ns == init + [l] && l in ns;
      forall e ensures e in Entries(q, ns) <==> exists n :: n in ns && EntryOf(q, n) == e {
        if e == EntryOf(q, l) {
          assert l in ns && e in Entries(q, ns);
        }
      }
    }
  }

  /** Name lists with no entry in common are listed one after the other. */
  lemma {:induction false} EntriesSplit(q: Query, a: seq<Bytes>, b: seq<Bytes>)
    requires forall x, y :: x in a && y in b ==> EntryOf(q, x) != EntryOf(q, y)
    ensures Entries(q, a + b) == Entries(q, a) + Entries(q, b)
  {
    if b == [] {
      assert a + b == a;
    } else {
      var init, l := b[..|b| - 1], b[|b| - 1];
      assert l in b && (a + b)[|a + b| - 1] == l;
      assert (a + b)[..|a + b| - 1] == a + init;
      EntriesSplit(q, a, init);
      EntriesComeFromNames(q, a);
    }
  }

  /** The members of the first entry all come before the rest. */
  lemma FirstEntryComesFirst(q: Query, m: set<Bytes>, a: Bytes, b: Bytes)
    requires m != {} && Under(q, m)
    requires a in m && EntryOf(q, a) == EntryOf(q, Least(m))
    requires b in Beyond(q, m, Least(m))
    ensures Less(a, b)
  {
    var n := Least(m);
    NotLess(a, b);
    if Leq(b, a) {
      KeyIsPrefix(q, n);
      LeqTransitive(EntryOf(q, n).Key(), n, b);
      GroupsAreConvex(q, n, b, a);
      assert false;
    }
  }

  /** The simple listing begins with the entry of the least name and goes on with the names beyond it. */
  lemma ListingStep(q: Query, m: set<Bytes>)
    requires m != {} && Under(q, m)
    ensures SimpleListing(q, m) == [EntryOf(q, Least(m))] + SimpleListing(q, Beyond(q, m, Least(m)))
  {
    var n := Least(m);
    var hi := Beyond(q, m, n);
    var lo := m - hi;
    forall a, b | a in lo && b in hi ensures Less(a, b) { FirstEntryComesFirst(q, m, a, b); }
    SortedSplit(lo, hi);
    assert lo + hi == m && n in lo;
    SortedIsSorted(lo);
    SortedIsSorted(hi);
    EntriesSplit(q, Sorted(lo), Sorted(hi));
    EntriesOfOne(q, Sorted(lo), EntryOf(q, n));
  }

  lemma ListingOfNothing(q: Query)
    ensures SimpleListing(q, {}) == []
  {
  }

  /** Every matching name is listed, under its own entry, and nothing else is. */
  lemma ListingCovers(q: Query, m: set<Bytes>)
    ensures forall e :: e in SimpleListing(q, m) <==> exists n :: n in m && EntryOf(q, n) == e
  {
    SortedIsSorted(m);
    EntriesComeFromNames(q, Sorted(m));
  }

  predicate AscendingKeys(es: seq<Entry>)
  {
    forall i, j :: 0 <= i < j < |es| ==> Less(es[i].Key(), es[j].Key())
  }

  /** Objects and common prefixes come out in one strictly ascending order. */
  lemma {:induction false} ListingAscends(q: Query, m: set<Bytes>)
    requires Under(q, m)
    ensures AscendingKeys(SimpleListing(q, m))
    decreases m
  {
    if m == {} {
      ListingOfNothing(q);
    } else {
      var n := Least(m);
      var hi := Beyond(q, m, n);
      ListingStep(q, m);
      ListingAscends(q, hi);
      ListingCovers(q, hi);
      forall e | e in SimpleListing(q, hi) ensures Less(EntryOf(q, n).Key(), e.Key()) {
        var b :| b in hi && EntryOf(q, b) == e;
        FirstEntryComesFirst(q, m, n, b);
        KeysAscendWithNames(q, n, b);
      }
    }
  }
}
