/** When chains of pages can be trusted that begin, as every client does, without a token. */
module TrustedChains {
  import opened ByteStrings
  import opened Types
  import opened Successor
  import opened Listing
  import opened Scan
  import opened Paging
  import opened Exactness
  import opened Progress

  /** The pages are all there and hold the pieces of the cut. */
  predicate AreThePages(pages: seq<Outcome>, cut: seq<seq<Entry>>)
  {
    |pages| == |cut| && forall i :: 0 <= i < |pages| ==> pages[i].Page? && pages[i].entries == cut[i]
  }

  /** Every chain over the bucket gives the simple listing in pages of the wanted sizes. */
  ghost predicate ChainsRightly(q: Query, names: set<Bytes>)
  {
    forall limits ::
      AreThePages(TokenPages(q, names, [], limits), Cut(SimpleListing(q, Matching(q, names, [])), limits))
  }

  lemma {:induction false} ExactChainsRightly(q: Query, names: set<Bytes>)
    requires [] !in names && ExactFor(q, names)
    ensures ChainsRightly(q, names)
  {
    hide SimpleListing, ExactFor, Matching, Contents, Cut, TokenPages;
    forall limits
      ensures AreThePages(TokenPages(q, names, [], limits), Cut(SimpleListing(q, Matching(q, names, [])), limits))
    {
      var pages := TokenPages(q, names, [], limits);
      ExactForFewer(q, names, Ahead(names, []));
      PagesCutTheListing(q, names, [], limits);
      NoPagePanics(q, names, [], limits);
      SameLength(pages);
      forall i | 0 <= i < |pages| ensures pages[i].entries == Contents(pages)[i] { ContentsAt(pages, i); }
    }
  }

  /** The first page over a name that the range of the prefix gets wrong. */
  lemma {:induction false} WrongPrefixShows(q: Query, n: Bytes)
    requires !Bounds(q.prefix, n)
    ensures !ChainsRightly(q, {n})
  {
    hide SimpleListing, EntryOf, Less;
    var m, page := Matching(q, {n}, []), List(q, {n}, [], 1);
    var one: seq<int> := [1];
    StartWithoutToken(q);
    if HasPrefix(n, q.prefix) {
      PrefixLeq(n, q.prefix);
      TokenlessMatches(q, {n}, n);
      assert Rows({n}, q.prefix, End(q)) == {};
      ListingCovers(q, m);
      assert EntryOf(q, n) in SimpleListing(q, m);
    } else {
      assert Rows({n}, q.prefix, End(q)) == {n};
      assert m == {};
      ListingOfNothing(q);
    }
    assert TokenPages(q, {n}, [], one)[0] == page;
    assert !AreThePages(TokenPages(q, {n}, [], one), Cut(SimpleListing(q, m), one));
  }

  lemma StartWithoutToken(q: Query)
    ensures Start(q, []) == q.prefix
  {
    NoneBelowEmpty(q.prefix);
  }

  lemma TokenlessMatches(q: Query, names: set<Bytes>, n: Bytes)
    requires n in names && HasPrefix(n, q.prefix)
    ensures n in Matching(q, names, [])
  {
    NoneBelowEmpty(n);
    NotLess(n, []);
  }

  /** The pages over a member of a group whose range stops short of it: the group comes a second time. */
  lemma {:induction false} LateMemberShows(q: Query, x: Bytes)
    requires x != [] && HasPrefix(x, q.prefix) && !StepsForward(q, x)
    ensures !ChainsRightly(q, {x})
  {
    hide SimpleListing, EntryOf, StepsForward, TokenPages;
    var two := seq(2, _ => 1);
    var m := Matching(q, {x}, []);
    OneNameStalls(q, x, 2);
    TokenlessMatches(q, {x}, x);
    assert m == {x};
    ListingOfOne(q, x);
    assert |Cut(SimpleListing(q, m), two)| == 1;
    assert !AreThePages(TokenPages(q, {x}, [], two), Cut(SimpleListing(q, m), two));
  }

  lemma SortedOfOne(x: Bytes)
    ensures Sorted({x}) == [x]
  {
    assert {x} - {x} == {};
  }

  lemma ListingOfOne(q: Query, x: Bytes)
    ensures SimpleListing(q, {x}) == [EntryOf(q, x)]
  {
    SortedOfOne(x);
    EntriesOfOne(q, [x], EntryOf(q, x));
  }

  /** The pages over a name that the skip behind a group passes by: it never comes. */
  lemma {:induction false} SkippedNameShows(q: Query, n: Bytes, x: Bytes)
    requires n != [] && x != [] && HasPrefix(n, q.prefix) && HasPrefix(x, q.prefix)
    requires Bounds(q.prefix, n) && Bounds(q.prefix, x) && Less(n, x)
    requires EntryOf(q, n).Group? && EntryOf(q, x) != EntryOf(q, n)
    requires var after := Behind(EntryOf(q, n)); after == [] || Less(x, after)
    ensures !ChainsRightly(q, {n, x})
  {
    hide SimpleListing, EntryOf, PrefixSuccessor;
    var names, one, two: seq<int> := {n, x}, [1], [1, 1];
    var after, m := Behind(EntryOf(q, n)), Matching(q, names, []);
    StartWithoutToken(q);
    assert Rows(names, q.prefix, End(q)) == names;
    NotLess(n, x);
    LessIrreflexive(n);
    assert IsLeast(names, n);
    LeastIsUnique(names, n, Least(names));
    if after != [] {
      LeqTransitive(n, x, after);
      NotLess(n, after);
      NotLess(x, after);
      assert Rows(names, after, End(q)) == {};
    }
    WalkStep(q, names, End(q), q.prefix, 1, n);
    assert [EntryOf(q, n)] + [] == [EntryOf(q, n)];
    assert List(q, names, [], 1) == Page([EntryOf(q, n)], []);
    assert TokenPages(q, names, [], two) == [Page([EntryOf(q, n)], [])];
    TokenlessMatches(q, names, n);
    TokenlessMatches(q, names, x);
    TwoInListing(q, m, n, x);
    assert two[1..] == one;
    assert !AreThePages(TokenPages(q, names, [], two), Cut(SimpleListing(q, m), two));
  }

  lemma TwoInListing(q: Query, m: set<Bytes>, a: Bytes, b: Bytes)
    requires a in m && b in m && EntryOf(q, a) != EntryOf(q, b)
    ensures |SimpleListing(q, m)| > 1
  {
    ListingCovers(q, m);
    var es := SimpleListing(q, m);
    assert EntryOf(q, a) in es && EntryOf(q, b) in es;
    var i :| 0 <= i < |es| && es[i] == EntryOf(q, a);
    var j :| 0 <= j < |es| && es[j] == EntryOf(q, b);
    assert i != j;
  }

  lemma {:induction false} WrongGroupShows(q: Query, n: Bytes, x: Bytes) returns (some: set<Bytes>)
    requires n != [] && x != [] && HasPrefix(n, q.prefix) && HasPrefix(x, q.prefix)
    requires Bounds(q.prefix, n) && Bounds(q.prefix, x)
    requires EntryOf(q, n).Group? && !Bounds(EntryOf(q, n).prefix, x)
    ensures some <= {n, x} && !ChainsRightly(q, some)
  {
    hide EntryOf, ChainsRightly, PrefixSuccessor, Less;
    var cp := EntryOf(q, n).prefix;
    GroupMembers(q, n, x);
    GroupMembers(q, n, n);
    if HasPrefix(x, cp) {
      PrefixLeq(x, cp);
      NotLess(x, PrefixSuccessor(cp));
      LateMemberShows(q, x);
      return {x};
    } else {
      if Leq(x, n) {
        PrefixesAreConvex(cp, x, n);
        assert false;
      }
      NotLess(n, x);
      SkippedNameShows(q, n, x);
      return {n, x};
    }
  }

  /** Chains over a bucket and over whatever is left of it when names go are all right exactly if the ranges that the
      listing computes are right about its names. */
  lemma {:induction false} ChainsRightlyIffExact(q: Query, names: set<Bytes>)
    requires [] !in names
    ensures (forall some :: some <= names ==> ChainsRightly(q, some)) <==> ExactFor(q, names)
  {
    hide ChainsRightly, Bounds, EntryOf;
    if ExactFor(q, names) {
      forall some | some <= names ensures ChainsRightly(q, some) {
        ExactForFewer(q, names, some);
        ExactChainsRightly(q, some);
      }
    } else if n :| n in names && !Bounds(q.prefix, n) {
      WrongPrefixShows(q, n);
    } else {
      var n :| n in names && HasPrefix(n, q.prefix) && !GroupExact(q, names, n);
      var x :| x in names && HasPrefix(x, q.prefix) && !Bounds(EntryOf(q, n).prefix, x);
      var some := WrongGroupShows(q, n, x);
    }
  }

  /** A request gives right chains on every bucket that the store can hold exactly if it is trusted. */
  lemma {:induction false} TrustedChainsIff(q: Query)
    ensures Trusted(q) <==> forall names :: ValidNames(names) ==> ChainsRightly(q, names)
  {
    hide Trusted, ChainsRightly, ExactFor;
    if Trusted(q) {
      forall names | ValidNames(names) ensures ChainsRightly(q, names) {
        TrustedIsExact(q, names);
        ExactChainsRightly(q, names);
      }
    } else {
      var names := UntrustedBucket(q);
      ChainsRightlyIffExact(q, names);
      var some :| some <= names && !ChainsRightly(q, some);
      assert ValidNames(some);
    }
  }
}
