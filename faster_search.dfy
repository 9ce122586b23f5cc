/** The size-prefiltered partitioner `faster_search` of main.py. It keeps the
    files whose size occurs more than once among all sizes (the candidates),
    and then, for every candidate in turn, emits the list of all candidates
    that compare equal to it, when that list has at least two members.
    Matched files are not removed, so one set of copies is emitted once per
    member. The argument list is only read. */
module Prefilter {
  import opened Lists

  /** `list(map(getsize, file_list))`. */
  function Sizes<F(!new)>(files: seq<F>, size: F -> nat): (r: seq<nat>)
    ensures |r| == |files|
    ensures forall i :: 0 <= i < |files| ==> r[i] == size(files[i])
  {
    if files == [] then [] else [size(files[0])] + Sizes(files[1..], size)
  }

  /** `sizes.count(v)`: how many entries of `sizes` equal `v`. */
  function Count(sizes: seq<nat>, v: nat): (n: nat)
    ensures n <= |sizes|
    ensures 0 < n <==> v in sizes
    ensures n == multiset(sizes)[v]
  {
    if sizes == [] then 0
    else
      assert sizes == [sizes[0]] + sizes[1..];
      (if sizes[0] == v then 1 else 0) + Count(sizes[1..], v)
  }

  /** The files of `s`, in order, whose size occurs more than once in
      `sizes`: the `filter` of main.py. */
  function SharedSize<F(!new)>(s: seq<F>, sizes: seq<nat>, size: F -> nat): (r: seq<F>)
    ensures |r| <= |s|
    ensures forall x :: x in r <==> x in s && 1 < Count(sizes, size(x))
  {
    if s == [] then []
    else (if 1 < Count(sizes, size(s[0])) then [s[0]] else []) + SharedSize(s[1..], sizes, size)
  }

  /** The candidates: the input files whose size is not unique. */
  function Candidates<F(!new)>(files: seq<F>, size: F -> nat): (candidates: seq<F>)
    ensures |candidates| <= |files|
    ensures forall x :: x in candidates <==> x in files && 1 < Count(Sizes(files, size), size(x))
  {
    SharedSize(files, Sizes(files, size), size)
  }

  /** The groups the loop emits for the seeds `seeds`, in seed order: for
      each seed, every candidate that matches it, when there are at least
      two. */
  function Collect<F(!new)>(seeds: seq<F>, candidates: seq<F>, cmp: (F, F) -> bool): (groups: seq<seq<F>>)
    ensures |groups| <= |seeds|
  {
    if seeds == [] then []
    else
      var copies := Matching(seeds[|seeds| - 1], candidates, cmp, true);
      Collect(seeds[..|seeds| - 1], candidates, cmp) + (if 1 < |copies| then [copies] else [])
  }

  /** The list of groups `faster_search` returns for `files`. */
  function FasterGroups<F(!new)>(files: seq<F>, size: F -> nat, cmp: (F, F) -> bool): (groups: seq<seq<F>>)
    ensures |groups| <= |Candidates(files, size)|
  {
    var candidates := Candidates(files, size);
    Collect(candidates, candidates, cmp)
  }

  /** Collecting for one more seed appends that seed's group, when kept. */
  lemma CollectStep<F(!new)>(seeds: seq<F>, k: nat, candidates: seq<F>, cmp: (F, F) -> bool)
    requires k < |seeds|
    ensures var copies := Matching(seeds[k], candidates, cmp, true);
      Collect(seeds[..k + 1], candidates, cmp)
      == Collect(seeds[..k], candidates, cmp) + (if 1 < |copies| then [copies] else [])
  {
    assert seeds[..k + 1][..k] == seeds[..k];
  }

  method FasterSearch<F(!new)>(files: seq<F>, size: F -> nat, cmp: (F, F) -> bool)
    returns (lol: seq<seq<F>>)
    ensures lol == FasterGroups(files, size, cmp)
  {
    lol := [];
    var fileSizes := Sizes(files, size);
    var duplicates := SharedSize(files, fileSizes, size);
    for k := 0 to |duplicates|
      invariant lol == Collect(duplicates[..k], duplicates, cmp)
    {
      var i := duplicates[k];
      var copies := Matching(i, duplicates, cmp, true);
      CollectStep(duplicates, k, duplicates, cmp);
      if 1 < |copies| {
        lol := lol + [copies];
      }
    }
    assert duplicates[..|duplicates|] == duplicates;
  }

  /** The filter keeps every file whose size is shared exactly as often as
      the input holds it, and drops every other file. */
  lemma {:induction false} SharedSizeCounts<F(!new)>(s: seq<F>, sizes: seq<nat>, size: F -> nat)
    ensures forall x :: multiset(SharedSize(s, sizes, size))[x]
                        == if 1 < Count(sizes, size(x)) then multiset(s)[x] else 0
  {
    if s != [] {
      SharedSizeCounts(s[1..], sizes, size);
      assert s == [s[0]] + s[1..];
    }
  }

  /** The candidates are exactly the input files whose size occurs more than
      once among the sizes of all files, each as often as in the input. */
  lemma CandidatesExact<F(!new)>(files: seq<F>, size: F -> nat)
    ensures forall x :: multiset(Candidates(files, size))[x]
                        == if 1 < Count(Sizes(files, size), size(x)) then multiset(files)[x] else 0
  {
    SharedSizeCounts(files, Sizes(files, size), size);
  }

  /** Every group emitted for `seeds` is the list of copies of one of the
      seeds, and has at least two members; there is at most one per seed. */
  lemma {:induction false} CollectShape<F(!new)>(seeds: seq<F>, candidates: seq<F>, cmp: (F, F) -> bool)
    ensures |Collect(seeds, candidates, cmp)| <= |seeds|
    ensures forall g :: g in Collect(seeds, candidates, cmp) ==>
      2 <= |g| && exists c :: c in seeds && g == Matching(c, candidates, cmp, true)
  {
    if seeds != [] {
      var init := seeds[..|seeds| - 1];
      var last := seeds[|seeds| - 1];
      var copies := Matching(last, candidates, cmp, true);
      CollectShape(init, candidates, cmp);
      forall g | g in Collect(seeds, candidates, cmp)
        ensures 2 <= |g| && exists c :: c in seeds && g == Matching(c, candidates, cmp, true)
      {
        if g in Collect(init, candidates, cmp) {
          var c :| c in init && g == Matching(c, candidates, cmp, true);
          assert c in seeds;
        } else {
          assert g == copies && 2 <= |copies|;
          assert last in seeds;
        }
      }
    }
  }

  /** A seed with at least two copies among the candidates has its group
      emitted. */
  lemma {:induction false} CollectEmits<F(!new)>(seeds: seq<F>, candidates: seq<F>, cmp: (F, F) -> bool, c: F)
    requires c in seeds && 2 <= |Matching(c, candidates, cmp, true)|
    ensures Matching(c, candidates, cmp, true) in Collect(seeds, candidates, cmp)
  {
    var init := seeds[..|seeds| - 1];
    assert seeds == init + [seeds[|seeds| - 1]];
    if c != seeds[|seeds| - 1] {
      CollectEmits(init, candidates, cmp, c);
    }
  }

  /** What `faster_search` returns: at most one group per candidate, each
      with at least two members, each the list of all candidates that match
      one candidate `c`, in input order. */
  lemma FasterGroupsShape<F(!new)>(files: seq<F>, size: F -> nat, cmp: (F, F) -> bool)
    ensures |FasterGroups(files, size, cmp)| <= |Candidates(files, size)|
    ensures forall g :: g in FasterGroups(files, size, cmp) ==>
      2 <= |g| && exists c :: c in Candidates(files, size) && g == Matching(c, Candidates(files, size), cmp, true)
  {
    CollectShape(Candidates(files, size), Candidates(files, size), cmp);
  }

  /** Every member of a group is a candidate. */
  lemma FasterGroupsWithin<F(!new)>(files: seq<F>, size: F -> nat, cmp: (F, F) -> bool)
    ensures forall x :: Grouped(FasterGroups(files, size, cmp), x) ==> x in Candidates(files, size)
  {
    var lol := FasterGroups(files, size, cmp);
    FasterGroupsShape(files, size, cmp);
    forall x | Grouped(lol, x)
      ensures x in Candidates(files, size)
    {
      var k :| 0 <= k < |lol| && x in lol[k];
      assert lol[k] in lol;
    }
  }

  /** Pruning is sound: a file whose size no other file has is in no group. */
  lemma PrunedNeverGrouped<F(!new)>(files: seq<F>, size: F -> nat, cmp: (F, F) -> bool, x: F)
    requires Count(Sizes(files, size), size(x)) <= 1
    ensures !Grouped(FasterGroups(files, size, cmp), x)
  {
    FasterGroupsWithin(files, size, cmp);
  }

  /** When files of equal content have equal sizes, the files that match `x`
      all have `x`'s size, so that size occurs at least as often. */
  lemma {:induction false} CountCoversCopies<F(!new)>(s: seq<F>, size: F -> nat, cmp: (F, F) -> bool, x: F)
    requires SizeRespects(cmp, size)
    ensures |Matching(x, s, cmp, true)| <= Count(Sizes(s, size), size(x))
  {
    if s != [] {
      CountCoversCopies(s[1..], size, cmp, x);
      assert Sizes(s, size)[1..] == Sizes(s[1..], size);
    }
  }

  /** Filtering the scanned list never adds matches. */
  lemma {:induction false} SharedSizeFewerMatches<F(!new)>(c: F, s: seq<F>, sizes: seq<nat>, size: F -> nat, cmp: (F, F) -> bool)
    ensures |Matching(c, SharedSize(s, sizes, size), cmp, true)| <= |Matching(c, s, cmp, true)|
  {
    if s != [] {
      SharedSizeFewerMatches(c, s[1..], sizes, size, cmp);
      var rest := SharedSize(s[1..], sizes, size);
      assert |Matching(c, s[1..], cmp, true)| <= |Matching(c, s, cmp, true)|;
      if 1 < Count(sizes, size(s[0])) {
        assert SharedSize(s, sizes, size) == [s[0]] + rest;
        assert ([s[0]] + rest)[1..] == rest;
      } else {
        assert SharedSize(s, sizes, size) == rest;
      }
    }
  }

  /** Filtering the scanned list keeps all matches of `x` when every file
      matching `x` passes the filter. */
  lemma {:induction false} SharedSizeKeepsMatches<F(!new)>(x: F, s: seq<F>, sizes: seq<nat>, size: F -> nat, cmp: (F, F) -> bool)
    requires forall y :: y in s && cmp(x, y) ==> 1 < Count(sizes, size(y))
    ensures Matching(x, SharedSize(s, sizes, size), cmp, true) == Matching(x, s, cmp, true)
  {
    if s != [] {
      SharedSizeKeepsMatches(x, s[1..], sizes, size, cmp);
      var rest := SharedSize(s[1..], sizes, size);
      if 1 < Count(sizes, size(s[0])) {
        assert SharedSize(s, sizes, size) == [s[0]] + rest;
        assert ([s[0]] + rest)[1..] == rest;
      } else {
        assert SharedSize(s, sizes, size) == rest;
        assert !cmp(x, s[0]);
      }
    }
  }

  /** With a comparison that is an equivalence and sizes that agree with it,
      a file is in some group exactly when the input holds another file of
      the same content: the size filter loses no copy. */
  lemma FasterGroupedIff<F(!new)>(files: seq<F>, size: F -> nat, cmp: (F, F) -> bool, x: F)
    requires Equivalence(cmp) && SizeRespects(cmp, size) && x in files
    ensures Grouped(FasterGroups(files, size, cmp), x) <==> HasCopy(files, x, cmp)
  {
    var sizes := Sizes(files, size);
    var candidates := Candidates(files, size);
    var lol := FasterGroups(files, size, cmp);
    if Grouped(lol, x) {
      var k :| 0 <= k < |lol| && x in lol[k];
      FasterGroupsShape(files, size, cmp);
      assert lol[k] in lol;
      var c :| c in candidates && lol[k] == Matching(c, candidates, cmp, true);
      MatchingSameContent(c, x, files, cmp, true);
      SharedSizeFewerMatches(c, files, sizes, size, cmp);
    }
    if HasCopy(files, x, cmp) {
      CountCoversCopies(files, size, cmp, x);
      assert x in candidates;
      SharedSizeKeepsMatches(x, files, sizes, size, cmp);
      assert cmp(x, x);
      CollectEmits(candidates, candidates, cmp, x);
      var g := Matching(x, candidates, cmp, true);
      var k :| 0 <= k < |lol| && lol[k] == g;
      assert x in lol[k];
    }
  }

  /** With a comparison that is an equivalence and sizes that agree with it,
      every group of `faster_search` is the list of all input files that
      match one input file, in input order: the size filter loses none of
      them. */
  lemma FasterGroupsClasses<F(!new)>(files: seq<F>, size: F -> nat, cmp: (F, F) -> bool)
    requires Equivalence(cmp) && SizeRespects(cmp, size)
    ensures forall g :: g in FasterGroups(files, size, cmp) ==>
      2 <= |g| && exists c :: c in files && g == Matching(c, files, cmp, true)
  {
    var sizes := Sizes(files, size);
    var candidates := Candidates(files, size);
    FasterGroupsShape(files, size, cmp);
    forall g | g in FasterGroups(files, size, cmp)
      ensures 2 <= |g| && exists c :: c in files && g == Matching(c, files, cmp, true)
    {
      var c :| c in candidates && g == Matching(c, candidates, cmp, true);
      SharedSizeFewerMatches(c, files, sizes, size, cmp);
      CountCoversCopies(files, size, cmp, c);
      assert forall y :: y in files && cmp(c, y) ==> size(y) == size(c);
      SharedSizeKeepsMatches(c, files, sizes, size, cmp);
    }
  }
}
