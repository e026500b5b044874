/** Completion requests that name a part more than once: they pass the order check, and the bytes are repeated. */
module RepeatedParts {
  import opened ByteStrings
  import opened Multipart

  /** What one reference adds to the object. */
  function PartContent(files: map<Path, Bytes>, parts: map<int, Part>, r: PartRef): Bytes
  {
    if r.number in parts && parts[r.number].path in files then files[parts[r.number].path] else []
  }

  /** The request without the references that repeat the number before them. */
  function Distinct(req: seq<PartRef>): seq<PartRef>
  {
    if req == [] then []
    else
      var last := |req| - 1;
      if last > 0 && req[last - 1].number == req[last].number then Distinct(req[..last])
      else Distinct(req[..last]) + [req[last]]
  }

  /** How many bytes the repetitions add. */
  function Surplus(files: map<Path, Bytes>, parts: map<int, Part>, req: seq<PartRef>): nat
  {
    if req == [] then 0
    else
      var last := |req| - 1;
      Surplus(files, parts, req[..last]) +
      if last > 0 && req[last - 1].number == req[last].number then |PartContent(files, parts, req[last])| else 0
  }

  lemma {:induction false} FrontAscends(req: seq<PartRef>)
    requires Ascending(req) && req != []
    ensures Ascending(req[..|req| - 1])
  {
  }

  lemma {:induction false} AscendingNumbers(req: seq<PartRef>, i: nat, j: nat)
    requires Ascending(req) && i <= j < |req|
    ensures req[i].number <= req[j].number
    decreases j
  {
    if i < j {
      AscendingNumbers(req, i, j - 1);
    }
  }

  function Numbers(req: seq<PartRef>): set<int>
  {
    set r | r in req :: r.number
  }

  lemma NumbersOfMore(req: seq<PartRef>, r: PartRef)
    ensures Numbers(req + [r]) == Numbers(req) + {r.number}
  {
    assert r in req + [r];
    forall n | n in Numbers(req) ensures n in Numbers(req + [r]) {
      var p :| p in req && p.number == n;
      assert p in req + [r];
    }
  }

  predicate StrictlyAscending(req: seq<PartRef>)
  {
    forall i, j :: 0 <= i < j < |req| ==> req[i].number < req[j].number
  }

  lemma {:induction false} DistinctEndsAlike(req: seq<PartRef>)
    ensures req != [] ==> Distinct(req) != [] && Distinct(req)[|Distinct(req)| - 1].number == req[|req| - 1].number
  {
    if req != [] {
      DistinctEndsAlike(req[..|req| - 1]);
    }
  }

  /** Without its repetitions an ascending request names the same parts, in strictly ascending order. */
  lemma {:induction false} DistinctNamesOnce(req: seq<PartRef>)
    requires Ascending(req)
    ensures StrictlyAscending(Distinct(req)) && Numbers(Distinct(req)) == Numbers(req)
  {
    hide Numbers, StrictlyAscending;
    if req == [] {
      NoneIsAscending();
    } else {
      var front, last := req[..|req| - 1], req[|req| - 1];
      FrontAscends(req);
      DistinctNamesOnce(front);
      DistinctEndsAlike(front);
      NumbersOfMore(front, last);
      NumbersOfMore(Distinct(front), last);
      assert req == front + [last];
      if front == [] || front[|front| - 1].number < last.number {
        StrictlyMore(Distinct(front), last);
      } else {
        NumberOfLast(front);
        assert Numbers(front) + {last.number} == Numbers(front);
      }
    }
  }

  lemma NoneIsAscending()
    ensures StrictlyAscending([])
  {
  }

  lemma {:induction false} StrictlyMore(req: seq<PartRef>, r: PartRef)
    requires StrictlyAscending(req) && (req != [] ==> req[|req| - 1].number < r.number)
    ensures StrictlyAscending(req + [r])
  {
  }

  lemma NumberOfLast(req: seq<PartRef>)
    requires req != []
    ensures req[|req| - 1].number in Numbers(req)
  {
    assert req[|req| - 1] in req;
  }

  lemma {:induction false} JoinedMore(files: map<Path, Bytes>, parts: map<int, Part>, req: seq<PartRef>, r: PartRef)
    ensures Joined(files, parts, req + [r]) == Joined(files, parts, req) + PartContent(files, parts, r)
  {
    assert (req + [r])[..|req|] == req;
  }

  /** Naming the parts again adds just those bytes. */
  lemma {:induction false} SurplusCounts(files: map<Path, Bytes>, parts: map<int, Part>, req: seq<PartRef>)
    ensures |Joined(files, parts, req)| == |Joined(files, parts, Distinct(req))| + Surplus(files, parts, req)
    ensures Surplus(files, parts, req) == 0 ==> Joined(files, parts, req) == Joined(files, parts, Distinct(req))
  {
    hide PartContent, Joined;
    if req != [] {
      var front, last := req[..|req| - 1], req[|req| - 1];
      SurplusCounts(files, parts, front);
      assert req == front + [last];
      JoinedMore(files, parts, front, last);
      JoinedMore(files, parts, Distinct(front), last);
    }
  }

  lemma {:induction false} NoSurplusIff(files: map<Path, Bytes>, parts: map<int, Part>, req: seq<PartRef>)
    ensures Surplus(files, parts, req) == 0 <==>
            forall i :: 0 < i < |req| && req[i - 1].number == req[i].number ==> PartContent(files, parts, req[i]) == []
  {
    hide PartContent;
    if req != [] {
      NoSurplusIff(files, parts, req[..|req| - 1]);
    }
  }

  lemma {:induction false} JoinedOne(files: map<Path, Bytes>, parts: map<int, Part>, r: PartRef)
    ensures Joined(files, parts, [r]) == PartContent(files, parts, r)
  {
    assert [r][..0] == [];
  }

  /** A part named twice passes the checks of a completion, and is there twice. */
  lemma {:induction false} TwiceNamedTwiceThere(files: map<Path, Bytes>, parts: map<int, Part>, r: PartRef)
    requires Checks(parts, r)
    ensures var req := [r, r];
            Ascending(req) && AllCheck(parts, req) &&
            Joined(files, parts, req) == PartContent(files, parts, r) + PartContent(files, parts, r)
  {
    hide PartContent, Joined, Checks;
    JoinedOne(files, parts, r);
    assert [r] + [r] == [r, r];
    JoinedMore(files, parts, [r], r);
  }

  /** Repetitions do not show exactly if every part that is named more than once is empty. */
  lemma {:induction false} JoinedOnceIffRepeatsAreEmpty(files: map<Path, Bytes>, parts: map<int, Part>,
                                                        req: seq<PartRef>)
    requires Ascending(req)
    ensures Joined(files, parts, req) == Joined(files, parts, Distinct(req)) <==>
            forall i, j :: 0 <= i < j < |req| && req[i].number == req[j].number ==>
              PartContent(files, parts, req[j]) == []
  {
    hide Joined, Distinct, Surplus, PartContent, Ascending;
    SurplusCounts(files, parts, req);
    NoSurplusIff(files, parts, req);
    if forall i :: 0 < i < |req| && req[i - 1].number == req[i].number ==> PartContent(files, parts, req[i]) == [] {
      forall i, j | 0 <= i < j < |req| && req[i].number == req[j].number
        ensures PartContent(files, parts, req[j]) == []
      {
        AscendingNumbers(req, i, j - 1);
        AscendingNumbers(req, j - 1, j);
      }
    }
  }
}
