/** The naive partitioner `search` of main.py. It drains the caller's list in
    place: the first remaining file becomes a seed, the rest of the list is
    scanned from the last index down, and every file that compares equal to
    the seed is popped into the seed's group. A group is kept when it has at
    least two members. */
module Partition {
  import opened Lists

  /** The Python list passed to `search`, which the search empties. */
  class FileList<F(!new)> {
    var items: seq<F>

    constructor (files: seq<F>)
      ensures items == files
    {
      items := files;
    }

    /** `list.pop(i)`: removes the element at index `i` and returns it. */
    method Pop(i: nat) returns (x: F)
      requires i < |items|
      modifies this
      ensures x == old(items)[i]
      ensures items == old(items)[..i] + old(items)[i + 1..]
    {
      x := items[i];
      items := items[..i] + items[i + 1..];
    }
  }

  /** The group built around `seed` from the files `rest` that remain after it
      was popped: the seed first, then its matches in descending order of
      their index in `rest`. */
  function SeedGroup<F(!new)>(seed: F, rest: seq<F>, cmp: (F, F) -> bool): (group: seq<F>)
    ensures |group| == 1 + |Matching(seed, rest, cmp, true)|
    ensures group[0] == seed
  {
    [seed] + Reverse(Matching(seed, rest, cmp, true))
  }

  /** The list of groups `search` returns for the list `files`. Each kept
      group takes at least two files of the input, so there are at most half
      as many groups as files. */
  function SearchGroups<F(!new)>(files: seq<F>, cmp: (F, F) -> bool): (groups: seq<seq<F>>)
    ensures 2 * |groups| <= |files|
    decreases |files|
  {
    if files == [] then []
    else
      var group := SeedGroup(files[0], files[1..], cmp);
      var others := Matching(files[0], files[1..], cmp, false);
      MatchingPartition(files[0], files[1..], cmp);
      assert |multiset(Matching(files[0], files[1..], cmp, true))| + |multiset(others)|
             == |multiset(files[1..])|;
      var later := SearchGroups(others, cmp);
      if 1 < |group| then [group] + later else later
  }

  lemma ReverseCons<F(!new)>(x: F, s: seq<F>)
    ensures Reverse([x] + s) == Reverse(s) + [x]
  {
    assert ([x] + s)[1..] == s;
  }

  /** One step of the reverse scan at index `i` when `rest[i]` matches the
      seed: popping it re-establishes the scan's invariant for the suffix of
      `rest` starting at `i`. */
  lemma ScanTake<F(!new)>(seed: F, rest: seq<F>, i: nat, cmp: (F, F) -> bool, items: seq<F>, duplicates: seq<F>)
    requires i < |rest| && cmp(seed, rest[i])
    requires items == rest[..i + 1] + Matching(seed, rest[i + 1..], cmp, false)
    requires duplicates == [seed] + Reverse(Matching(seed, rest[i + 1..], cmp, true))
    ensures i < |items| && items[i] == rest[i]
    ensures items[..i] + items[i + 1..] == rest[..i] + Matching(seed, rest[i..], cmp, false)
    ensures duplicates + [rest[i]] == [seed] + Reverse(Matching(seed, rest[i..], cmp, true))
  {
    MatchingAt(seed, rest, i, cmp);
    assert rest[..i + 1] == rest[..i] + [rest[i]];
    ReverseCons(rest[i], Matching(seed, rest[i + 1..], cmp, true));
    assert items[..i] == rest[..i];
  }

  /** One step of the reverse scan at index `i` when `rest[i]` does not
      match the seed: it stays where it is. */
  lemma ScanSkip<F(!new)>(seed: F, rest: seq<F>, i: nat, cmp: (F, F) -> bool, items: seq<F>, duplicates: seq<F>)
    requires i < |rest| && !cmp(seed, rest[i])
    requires items == rest[..i + 1] + Matching(seed, rest[i + 1..], cmp, false)
    requires duplicates == [seed] + Reverse(Matching(seed, rest[i + 1..], cmp, true))
    ensures i < |items| && items[i] == rest[i]
    ensures items == rest[..i] + Matching(seed, rest[i..], cmp, false)
    ensures duplicates == [seed] + Reverse(Matching(seed, rest[i..], cmp, true))
  {
    var left := Matching(seed, rest[i + 1..], cmp, false);
    MatchingAt(seed, rest, i, cmp);
    assert Matching(seed, rest[i..], cmp, false) == [rest[i]] + left;
    assert rest[..i + 1] == rest[..i] + [rest[i]];
    assert items == rest[..i] + ([rest[i]] + left);
  }

  /** The suffix of `rest` starting at `i` splits into `rest[i]` and the
      suffix after it. */
  lemma MatchingAt<F(!new)>(seed: F, rest: seq<F>, i: nat, cmp: (F, F) -> bool)
    requires i < |rest|
    ensures Matching(seed, rest[i..], cmp, true)
            == (if cmp(seed, rest[i]) then [rest[i]] else []) + Matching(seed, rest[i + 1..], cmp, true)
    ensures Matching(seed, rest[i..], cmp, false)
            == (if cmp(seed, rest[i]) then [] else [rest[i]]) + Matching(seed, rest[i + 1..], cmp, false)
  {
    assert rest[i..][1..] == rest[i + 1..];
  }

  /** The inner `for` loop of `search`: scans the remaining files from the
      last index down to 0 and pops every file that matches `seed`. Popping
      index `i` leaves the indices 0 .. i - 1, still to be visited, in place. */
  method PopCopies<F(!new)>(fileList: FileList<F>, seed: F, cmp: (F, F) -> bool)
    returns (duplicates: seq<F>)
    modifies fileList
    ensures duplicates == SeedGroup(seed, old(fileList.items), cmp)
    ensures fileList.items == Matching(seed, old(fileList.items), cmp, false)
  {
    ghost var rest := fileList.items;
    duplicates := [seed];
    var i := |fileList.items|;
    while 0 < i
      invariant 0 <= i <= |rest|
      invariant fileList.items == rest[..i] + Matching(seed, rest[i..], cmp, false)
      invariant duplicates == [seed] + Reverse(Matching(seed, rest[i..], cmp, true))
      decreases i
    {
      i := i - 1;
      if cmp(seed, rest[i]) {
        ScanTake(seed, rest, i, cmp, fileList.items, duplicates);
      } else {
        ScanSkip(seed, rest, i, cmp, fileList.items, duplicates);
      }
      if cmp(duplicates[0], fileList.items[i]) {
        var x := fileList.Pop(i);
        duplicates := duplicates + [x];
      }
    }
    assert rest[0..] == rest;
  }

  /** One round of the outer loop of `search`: after the first file's group
      is built and its matches are popped, the groups found so far and the
      groups of the files left still make up the groups of the input. */
  lemma SearchStep<F(!new)>(files: seq<F>, cmp: (F, F) -> bool, done: seq<seq<F>>, duplicates: seq<F>, left: seq<F>)
    requires files != []
    requires duplicates == SeedGroup(files[0], files[1..], cmp)
    requires left == Matching(files[0], files[1..], cmp, false)
    ensures done + SearchGroups(files, cmp)
            == (if 1 < |duplicates| then done + [duplicates] else done) + SearchGroups(left, cmp)
  {
    if 1 < |duplicates| {
      assert SearchGroups(files, cmp) == [duplicates] + SearchGroups(left, cmp);
      assert done + ([duplicates] + SearchGroups(left, cmp)) == done + [duplicates] + SearchGroups(left, cmp);
    }
  }

  method Search<F(!new)>(fileList: FileList<F>, cmp: (F, F) -> bool) returns (lol: seq<seq<F>>)
    modifies fileList
    ensures fileList.items == []
    ensures lol == SearchGroups(old(fileList.items), cmp)
  {
    ghost var input := fileList.items;
    lol := [];
    while 0 < |fileList.items|
      invariant lol + SearchGroups(fileList.items, cmp) == SearchGroups(input, cmp)
      decreases |fileList.items|
    {
      ghost var files := fileList.items;
      var seed := fileList.Pop(0);
      assert fileList.items == files[1..];
      var duplicates := PopCopies(fileList, seed, cmp);
      SearchStep(files, cmp, lol, duplicates, fileList.items);
      if 1 < |duplicates| {
        lol := lol + [duplicates];
      }
    }
  }

  /** The members of a seed's group: the seed and the remaining files that
      match it. */
  lemma SeedGroupMembers<F(!new)>(seed: F, rest: seq<F>, cmp: (F, F) -> bool)
    ensures |SeedGroup(seed, rest, cmp)| == 1 + |Matching(seed, rest, cmp, true)|
    ensures forall x :: x in SeedGroup(seed, rest, cmp) <==> x == seed || (x in rest && cmp(seed, x))
  {
    var taken := Matching(seed, rest, cmp, true);
    ReverseMultiset(taken);
    forall x
      ensures x in Reverse(taken) <==> x in taken
    {
      assert x in multiset(Reverse(taken)) <==> x in multiset(taken);
    }
  }

  /** An empty or one-file list gives no group at all. */
  lemma SearchSmallInput<F(!new)>(files: seq<F>, cmp: (F, F) -> bool)
    requires |files| <= 1
    ensures SearchGroups(files, cmp) == []
  {
    if files != [] {
      assert files[1..] == [];
    }
  }

  /** A group is well formed when it has at least two members and every
      member after the first (the seed) compares equal to the seed. */
  ghost predicate WellFormedGroup<F(!new)>(group: seq<F>, cmp: (F, F) -> bool) {
    2 <= |group| && forall j :: 1 <= j < |group| ==> cmp(group[0], group[j])
  }

  /** Every group `search` emits is well formed. */
  lemma {:induction false} SearchGroupsShape<F(!new)>(files: seq<F>, cmp: (F, F) -> bool)
    ensures forall g :: g in SearchGroups(files, cmp) ==> WellFormedGroup(g, cmp)
    decreases |files|
  {
    if files != [] {
      var seed, rest := files[0], files[1..];
      var taken := Matching(seed, rest, cmp, true);
      var group := SeedGroup(seed, rest, cmp);
      var later := SearchGroups(Matching(seed, rest, cmp, false), cmp);
      SearchGroupsShape(Matching(seed, rest, cmp, false), cmp);
      if 1 < |group| {
        forall j | 1 <= j < |group|
          ensures cmp(group[0], group[j])
        {
          assert group[j] == Reverse(taken)[j - 1] == taken[|taken| - j];
          assert taken[|taken| - j] in taken;
        }
        assert WellFormedGroup(group, cmp);
        assert forall g :: g in [group] + later ==> g == group || g in later;
      }
    }
  }

  /** `search` pops every file of its argument exactly once: the groups,
      concatenated, take no file more often than the input holds it. */
  lemma {:induction false} SearchUsesEachFileOnce<F(!new)>(files: seq<F>, cmp: (F, F) -> bool)
    ensures multiset(Flatten(SearchGroups(files, cmp))) <= multiset(files)
    decreases |files|
  {
    if files != [] {
      var seed, rest := files[0], files[1..];
      var taken := Matching(seed, rest, cmp, true);
      var others := Matching(seed, rest, cmp, false);
      var group := SeedGroup(seed, rest, cmp);
      var later := SearchGroups(others, cmp);
      SearchUsesEachFileOnce(others, cmp);
      MatchingPartition(seed, rest, cmp);
      ReverseMultiset(taken);
      assert files == [seed] + rest;
      if 1 < |group| {
        assert ([group] + later)[1..] == later;
        assert Flatten([group] + later) == group + Flatten(later);
      }
    }
  }

  /** Only files of the input appear in the groups. */
  lemma SearchGroupsWithin<F(!new)>(files: seq<F>, cmp: (F, F) -> bool)
    ensures forall x :: Grouped(SearchGroups(files, cmp), x) ==> x in files
  {
    SearchUsesEachFileOnce(files, cmp);
    forall x | Grouped(SearchGroups(files, cmp), x)
      ensures x in files
    {
      assert x in Flatten(SearchGroups(files, cmp));
      assert x in multiset(files);
    }
  }

  /** No file is a member of two groups. */
  ghost predicate Disjoint<F(!new)>(lol: seq<seq<F>>) {
    forall k, l, x :: 0 <= k < l < |lol| && x in lol[k] ==> x !in lol[l]
  }

  /** With a reflexive comparison no file lands in two groups. */
  lemma {:induction false} SearchGroupsDisjoint<F(!new)>(files: seq<F>, cmp: (F, F) -> bool)
    requires Reflexive(cmp)
    ensures Disjoint(SearchGroups(files, cmp))
    decreases |files|
  {
    if files != [] {
      var seed, rest := files[0], files[1..];
      var others := Matching(seed, rest, cmp, false);
      var group := SeedGroup(seed, rest, cmp);
      var later := SearchGroups(others, cmp);
      SearchGroupsDisjoint(others, cmp);
      if 1 < |group| {
        var lol := [group] + later;
        SeedGroupMembers(seed, rest, cmp);
        SearchGroupsWithin(others, cmp);
        assert cmp(seed, seed);
        forall k, l, x | 0 <= k < l < |lol| && x in lol[k]
          ensures x !in lol[l]
        {
          assert lol[l] == later[l - 1];
          if k == 0 {
            assert cmp(seed, x);
            assert x !in others;
            assert !Grouped(later, x);
          } else {
            assert lol[k] == later[k - 1];
            assert 0 <= k - 1 < l - 1 < |later| && x in later[k - 1];
          }
        }
        assert SearchGroups(files, cmp) == lol;
      }
    }
  }

  /** After the first file's scan, every later group is free of files that
      match it, and every remaining file that matches it is in the first
      group. */
  lemma SearchSeedTakesAllMatches<F(!new)>(files: seq<F>, cmp: (F, F) -> bool)
    requires files != []
    ensures var lol := SearchGroups(files, cmp);
      forall x :: x in files[1..] && cmp(files[0], x) ==> 0 < |lol| && x in lol[0]
    ensures var lol := SearchGroups(files, cmp);
      forall k, x :: 0 < k < |lol| && x in lol[k] ==> !cmp(files[0], x)
  {
    var seed, rest := files[0], files[1..];
    var others := Matching(seed, rest, cmp, false);
    var group := SeedGroup(seed, rest, cmp);
    var later := SearchGroups(others, cmp);
    var lol := SearchGroups(files, cmp);
    SeedGroupMembers(seed, rest, cmp);
    SearchGroupsWithin(others, cmp);
    forall k, x | 0 < k < |lol| && x in lol[k]
      ensures !cmp(seed, x)
    {
      if 1 < |group| {
        assert lol[k] == later[k - 1];
      }
      assert Grouped(later, x);
    }
  }

  /** `x` and `y` are members of one group. */
  ghost predicate SameGroup<F(!new)>(lol: seq<seq<F>>, x: F, y: F) {
    exists k :: 0 <= k < |lol| && x in lol[k] && y in lol[k]
  }

  /** Two distinct files that both match the first file share its group. */
  lemma SeedClassTogether<F(!new)>(files: seq<F>, cmp: (F, F) -> bool, x: F, y: F)
    requires Reflexive(cmp) && files != []
    requires x in files && y in files && x != y && cmp(files[0], x) && cmp(files[0], y)
    ensures SameGroup(SearchGroups(files, cmp), x, y)
  {
    var seed, rest := files[0], files[1..];
    var group := SeedGroup(seed, rest, cmp);
    var lol := SearchGroups(files, cmp);
    SeedGroupMembers(seed, rest, cmp);
    assert files == [seed] + rest;
    assert x in rest || y in rest;
    assert 1 < |group|;
    assert lol[0] == group;
  }

  /** A pair sharing a group still shares one when a group is put in front. */
  lemma SameGroupCons<F(!new)>(group: seq<F>, later: seq<seq<F>>, x: F, y: F)
    requires SameGroup(later, x, y)
    ensures SameGroup([group] + later, x, y)
  {
    var k :| 0 <= k < |later| && x in later[k] && y in later[k];
    assert ([group] + later)[k + 1] == later[k];
  }

  /** With a comparison that is an equivalence, any two distinct files of
      the same content end up in one group. */
  lemma {:induction false} SearchComplete<F(!new)>(files: seq<F>, cmp: (F, F) -> bool, x: F, y: F)
    requires Equivalence(cmp)
    requires x in files && y in files && x != y && cmp(x, y)
    ensures SameGroup(SearchGroups(files, cmp), x, y)
    decreases |files|
  {
    var seed, rest := files[0], files[1..];
    if cmp(seed, x) {
      assert cmp(seed, y);
      SeedClassTogether(files, cmp, x, y);
    } else {
      var others := Matching(seed, rest, cmp, false);
      var group := SeedGroup(seed, rest, cmp);
      var later := SearchGroups(others, cmp);
      assert !cmp(seed, y);
      assert cmp(seed, seed);
      assert files == [seed] + rest;
      assert x in rest && y in rest;
      assert x in others && y in others;
      SearchComplete(others, cmp, x, y);
      if 1 < |group| {
        SameGroupCons(group, later, x, y);
      }
    }
  }

  /** With a comparison that is an equivalence, a file is in some group
      exactly when the input holds another file of the same content. */
  lemma {:induction false} SearchGroupedIff<F(!new)>(files: seq<F>, cmp: (F, F) -> bool, x: F)
    requires Equivalence(cmp) && x in files
    ensures Grouped(SearchGroups(files, cmp), x) <==> HasCopy(files, x, cmp)
    decreases |files|
  {
    var seed, rest := files[0], files[1..];
    var taken := Matching(seed, rest, cmp, true);
    var others := Matching(seed, rest, cmp, false);
    var group := SeedGroup(seed, rest, cmp);
    var later := SearchGroups(others, cmp);
    SeedGroupMembers(seed, rest, cmp);
    SearchGroupsWithin(others, cmp);
    GroupedCons(group, later, x);
    assert files == [seed] + rest;
    assert cmp(seed, seed);
    if cmp(seed, x) {
      MatchingSameContent(x, seed, files, cmp, true);
      assert Matching(seed, files, cmp, true) == [seed] + taken;
      assert !Grouped(later, x);
    } else {
      assert !cmp(x, seed);
      assert Matching(x, files, cmp, true) == Matching(x, rest, cmp, true);
      SearchGroupedIff(others, cmp, x);
      MatchingOutsideClass(seed, x, rest, cmp);
    }
  }

  /** Files that all have one content form one group of all of them: the
      first file followed by the others in reverse order. */
  lemma SearchOneContent<F(!new)>(files: seq<F>, cmp: (F, F) -> bool)
    requires Equivalence(cmp) && 2 <= |files|
    requires forall x :: x in files ==> cmp(files[0], x)
    ensures SearchGroups(files, cmp) == [SeedGroup(files[0], files[1..], cmp)]
    ensures |SearchGroups(files, cmp)[0]| == |files|
  {
    var seed, rest := files[0], files[1..];
    assert forall x :: x in rest ==> x in files;
    MatchingAll(seed, rest, cmp);
    assert SearchGroups([], cmp) == [];
  }

  /** With a comparison that is an equivalence, every group of `search` holds,
      in some order, exactly the files of the input that match its first
      file. */
  lemma {:induction false} SearchGroupsClasses<F(!new)>(files: seq<F>, cmp: (F, F) -> bool)
    requires Equivalence(cmp)
    ensures forall h :: h in SearchGroups(files, cmp) ==>
      2 <= |h| && h[0] in files && multiset(h) == multiset(Matching(h[0], files, cmp, true))
    decreases |files|
  {
    if files != [] {
      var seed, rest := files[0], files[1..];
      var taken := Matching(seed, rest, cmp, true);
      var others := Matching(seed, rest, cmp, false);
      var group := SeedGroup(seed, rest, cmp);
      var later := SearchGroups(others, cmp);
      SearchGroupsClasses(others, cmp);
      SearchGroupsShape(files, cmp);
      assert files == [seed] + rest;
      assert SearchGroups(files, cmp) == if 1 < |group| then [group] + later else later;
      forall h | h in SearchGroups(files, cmp)
        ensures 2 <= |h| && h[0] in files && multiset(h) == multiset(Matching(h[0], files, cmp, true))
      {
        assert WellFormedGroup(h, cmp);
        if h in later {
          var x := h[0];
          assert x in others;
          assert !cmp(seed, x);
          assert !cmp(x, seed);
          MatchingOutsideClass(seed, x, rest, cmp);
          assert Matching(x, files, cmp, true) == Matching(x, rest, cmp, true);
        } else {
          assert h == group;
          ReverseMultiset(taken);
          assert cmp(seed, seed);
          assert Matching(seed, files, cmp, true) == [seed] + taken;
        }
      }
    }
  }
}
