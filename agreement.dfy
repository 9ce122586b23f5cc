/** How the two partitioners and the report relate. `search` serves as the
    reference for `faster_search`: with a content comparison that is an
    equivalence and sizes that agree with it, every group of either holds,
    up to order, the same files as some group of the other, although
    `faster_search` emits one set of copies once per member. */
module Agreement {
  import opened Lists
  import opened Partition
  import opened Prefilter
  import opened Reporting

  /** Both partitioners group the same files. */
  lemma PartitionersGroupSameFiles<F(!new)>(files: seq<F>, size: F -> nat, cmp: (F, F) -> bool, x: F)
    requires Equivalence(cmp) && SizeRespects(cmp, size)
    ensures Grouped(SearchGroups(files, cmp), x) <==> Grouped(FasterGroups(files, size, cmp), x)
  {
    SearchGroupsWithin(files, cmp);
    FasterGroupsWithin(files, size, cmp);
    if x in files {
      SearchGroupedIff(files, cmp, x);
      FasterGroupedIff(files, size, cmp, x);
    }
  }

  /** `g` and `h` hold the same files, each as often, in any order. */
  ghost predicate SameFiles<F(!new)>(g: seq<F>, h: seq<F>) {
    multiset(g) == multiset(h)
  }

  /** With a reflexive comparison, every member of a well-formed group
      matches its first member. */
  lemma MemberMatchesFirst<F(!new)>(h: seq<F>, cmp: (F, F) -> bool, c: F)
    requires Reflexive(cmp) && WellFormedGroup(h, cmp) && c in h
    ensures cmp(h[0], c)
  {
    var j :| 0 <= j < |h| && h[j] == c;
    if j == 0 {
      assert cmp(c, c);
    }
  }

  /** The files matching a file that has a copy form, up to order, one group
      of `search`. */
  lemma ClassIsSearchGroup<F(!new)>(files: seq<F>, cmp: (F, F) -> bool, c: F)
    requires Equivalence(cmp) && c in files && HasCopy(files, c, cmp)
    ensures exists h :: h in SearchGroups(files, cmp) && SameFiles(Matching(c, files, cmp, true), h)
  {
    var naive := SearchGroups(files, cmp);
    SearchGroupedIff(files, cmp, c);
    var k :| 0 <= k < |naive| && c in naive[k];
    var h := naive[k];
    assert h in naive;
    SearchGroupsShape(files, cmp);
    MemberMatchesFirst(h, cmp, c);
    MatchingSameContent(h[0], c, files, cmp, true);
    SearchGroupsClasses(files, cmp);
    assert multiset(h) == multiset(Matching(h[0], files, cmp, true));
  }

  /** Every group of `faster_search` is, up to order, a group of `search`. */
  lemma FasterGroupsInSearch<F(!new)>(files: seq<F>, size: F -> nat, cmp: (F, F) -> bool)
    requires Equivalence(cmp) && SizeRespects(cmp, size)
    ensures forall g :: g in FasterGroups(files, size, cmp) ==>
      exists h :: h in SearchGroups(files, cmp) && SameFiles(g, h)
  {
    FasterGroupsClasses(files, size, cmp);
    forall g | g in FasterGroups(files, size, cmp)
      ensures exists h :: h in SearchGroups(files, cmp) && SameFiles(g, h)
    {
      var c :| c in files && g == Matching(c, files, cmp, true);
      ClassIsSearchGroup(files, cmp, c);
    }
  }

  /** Every group of `search` is, up to order, a group of `faster_search`. */
  lemma SearchGroupsInFaster<F(!new)>(files: seq<F>, size: F -> nat, cmp: (F, F) -> bool)
    requires Equivalence(cmp) && SizeRespects(cmp, size)
    ensures forall h :: h in SearchGroups(files, cmp) ==>
      exists g :: g in FasterGroups(files, size, cmp) && SameFiles(g, h)
  {
    var faster := FasterGroups(files, size, cmp);
    SearchGroupsClasses(files, cmp);
    FasterGroupsClasses(files, size, cmp);
    forall h | h in SearchGroups(files, cmp)
      ensures exists g :: g in faster && SameFiles(g, h)
    {
      var x := h[0];
      var copies := Matching(x, files, cmp, true);
      assert |multiset(copies)| == |multiset(h)|;
      FasterGroupedIff(files, size, cmp, x);
      var k :| 0 <= k < |faster| && x in faster[k];
      var g := faster[k];
      assert g in faster;
      var c :| c in files && g == Matching(c, files, cmp, true);
      MatchingSameContent(c, x, files, cmp, true);
      assert SameFiles(g, h);
    }
  }

  /** `search` is the reference for `faster_search`: once the repeats are
      set aside and member order is ignored, both return the same groups. */
  lemma PartitionersSameGroups<F(!new)>(files: seq<F>, size: F -> nat, cmp: (F, F) -> bool)
    requires Equivalence(cmp) && SizeRespects(cmp, size)
    ensures forall g :: g in FasterGroups(files, size, cmp) ==>
      exists h :: h in SearchGroups(files, cmp) && SameFiles(g, h)
    ensures forall h :: h in SearchGroups(files, cmp) ==>
      exists g :: g in FasterGroups(files, size, cmp) && SameFiles(g, h)
  {
    FasterGroupsInSearch(files, size, cmp);
    SearchGroupsInFaster(files, size, cmp);
  }

  /** A non-empty list of non-empty groups has its first file grouped. */
  lemma FirstFileGrouped<F(!new)>(lol: seq<seq<F>>)
    requires forall g :: g in lol ==> 2 <= |g|
    ensures lol == [] || Grouped(lol, lol[0][0])
  {
    if lol != [] {
      assert lol[0] in lol;
    }
  }

  /** When no two files have the same content, neither partitioner returns
      a group. */
  lemma NoCopiesNoGroups<F(!new)>(files: seq<F>, size: F -> nat, cmp: (F, F) -> bool)
    requires Equivalence(cmp) && SizeRespects(cmp, size)
    requires forall x :: x in files ==> !HasCopy(files, x, cmp)
    ensures SearchGroups(files, cmp) == []
    ensures FasterGroups(files, size, cmp) == []
  {
    var naive := SearchGroups(files, cmp);
    var faster := FasterGroups(files, size, cmp);
    SearchGroupsShape(files, cmp);
    FasterGroupsShape(files, size, cmp);
    forall x
      ensures !Grouped(naive, x) && !Grouped(faster, x)
    {
      PartitionersGroupSameFiles(files, size, cmp, x);
      SearchGroupsWithin(files, cmp);
      if x in files {
        SearchGroupedIff(files, cmp, x);
      }
    }
    FirstFileGrouped(naive);
    FirstFileGrouped(faster);
  }

  /** The report never fails on what either partitioner returns, and each
      chosen file has at least one copy. */
  lemma ReportOnSearchResults<F(!new)>(files: seq<F>, size: F -> nat, cmp: (F, F) -> bool)
    ensures !Report(SearchGroups(files, cmp), size).IndexError?
    ensures !Report(FasterGroups(files, size, cmp), size).IndexError?
    ensures SearchGroups(files, cmp) != [] ==>
      1 <= |Report(SearchGroups(files, cmp), size).mostCopies.copies|
  {
    SearchGroupsShape(files, cmp);
    FasterGroupsShape(files, size, cmp);
    ReportOnGroups(SearchGroups(files, cmp), size);
    ReportOnGroups(FasterGroups(files, size, cmp), size);
  }

  /** Two files with the same content and a third with another content:
      `search` returns the pair once. */
  lemma SearchScenario(cmp: (int, int) -> bool)
    requires cmp(1, 2) && !cmp(1, 3)
    ensures SearchGroups([1, 2, 3], cmp) == [[1, 2]]
  {
    assert [1, 2, 3][1..] == [2, 3];
    assert Matching(1, [2, 3], cmp, true) == [2];
    assert Matching(1, [2, 3], cmp, false) == [3];
    assert Reverse([2]) == [2];
    assert SeedGroup(1, [2, 3], cmp) == [1, 2];
    assert SearchGroups([3], cmp) == [];
  }

  /** Among the sizes 10, 10 and 20, size 10 occurs twice and size 20 once. */
  lemma ScenarioCounts()
    ensures Count([10, 10, 20], 10) == 2 && Count([10, 10, 20], 20) == 1
  {
    assert [10, 10, 20][1..] == [10, 20] && [10, 20][1..] == [20] && [20][1..] == [];
  }

  /** Of sizes 10, 10 and 20, the two files of size 10 are the candidates. */
  lemma ScenarioCandidates(size: int -> nat)
    requires size(1) == 10 && size(2) == 10 && size(3) == 20
    ensures Candidates([1, 2, 3], size) == [1, 2]
  {
    var sizes := Sizes([1, 2, 3], size);
    assert [1, 2, 3][1..] == [2, 3] && [2, 3][1..] == [3] && [3][1..] == [];
    assert sizes == [10, 10, 20];
    ScenarioCounts();
    assert SharedSize([3], sizes, size) == [];
    assert SharedSize([2, 3], sizes, size) == [2];
  }

  /** When 1 and 2 match each other and themselves, each selects both. */
  lemma ScenarioMatches(cmp: (int, int) -> bool)
    requires cmp(1, 1) && cmp(1, 2) && cmp(2, 1) && cmp(2, 2)
    ensures Matching(1, [1, 2], cmp, true) == [1, 2]
    ensures Matching(2, [1, 2], cmp, true) == [1, 2]
  {
    assert [1, 2][1..] == [2] && [2][1..] == [];
  }

  /** The same files, the pair of size 10 and the third of size 20:
      `faster_search` drops the third file by its size and returns the pair
      once per member. */
  lemma FasterScenario(cmp: (int, int) -> bool, size: int -> nat)
    requires cmp(1, 1) && cmp(1, 2) && cmp(2, 1) && cmp(2, 2)
    requires size(1) == 10 && size(2) == 10 && size(3) == 20
    ensures FasterGroups([1, 2, 3], size, cmp) == [[1, 2], [1, 2]]
  {
    ScenarioCandidates(size);
    ScenarioMatches(cmp);
    assert [1, 2][..1] == [1] && [1][..0] == [];
    assert Collect([1], [1, 2], cmp) == [[1, 2]];
    assert Collect([1, 2], [1, 2], cmp) == [[1, 2], [1, 2]];
  }
}
