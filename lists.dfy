/** Sequence helpers shared by both partitioners, and the properties of the
    content comparison that some theorems assume.

    Files are an opaque type parameter `F`; the content comparison is a
    parameter `cmp: (F, F) -> bool` and the size probe a parameter
    `size: F -> nat`. */
module Lists {

  /** What the content comparison is expected to be: reflexive, symmetric and
      transitive. No partitioner relies on it; theorems that need it say so. */
  ghost predicate Reflexive<F(!new)>(cmp: (F, F) -> bool) {
    forall x :: cmp(x, x)
  }

  ghost predicate Symmetric<F(!new)>(cmp: (F, F) -> bool) {
    forall x, y :: cmp(x, y) ==> cmp(y, x)
  }

  ghost predicate Transitive<F(!new)>(cmp: (F, F) -> bool) {
    forall x, y, z :: cmp(x, y) && cmp(y, z) ==> cmp(x, z)
  }

  ghost predicate Equivalence<F(!new)>(cmp: (F, F) -> bool) {
    Reflexive(cmp) && Symmetric(cmp) && Transitive(cmp)
  }

  /** Files of the same content have the same size. */
  ghost predicate SizeRespects<F(!new)>(cmp: (F, F) -> bool, size: F -> nat) {
    forall x, y :: cmp(x, y) ==> size(x) == size(y)
  }

  /** The files `x` of `s`, in order, for which `cmp(seed, x) == want`.
      With `want == true` this is the comprehension
      `[x for x in s if compare(seed, x)]`. */
  function Matching<F(!new)>(seed: F, s: seq<F>, cmp: (F, F) -> bool, want: bool): (r: seq<F>)
    ensures |r| <= |s|
    ensures forall x {:trigger x in r} :: x in r <==> x in s && cmp(seed, x) == want
  {
    if s == [] then []
    else (if cmp(seed, s[0]) == want then [s[0]] else []) + Matching(seed, s[1..], cmp, want)
  }

  /** Every file of `s` goes to exactly one side of the split by `cmp(seed, _)`. */
  lemma {:induction false} MatchingPartition<F(!new)>(seed: F, s: seq<F>, cmp: (F, F) -> bool)
    ensures multiset(Matching(seed, s, cmp, true)) + multiset(Matching(seed, s, cmp, false))
            == multiset(s)
  {
    if s != [] {
      var taken, left := Matching(seed, s[1..], cmp, true), Matching(seed, s[1..], cmp, false);
      MatchingPartition(seed, s[1..], cmp);
      assert s == [s[0]] + s[1..];
      if cmp(seed, s[0]) {
        assert Matching(seed, s, cmp, true) == [s[0]] + taken;
        assert Matching(seed, s, cmp, false) == left;
      } else {
        assert Matching(seed, s, cmp, true) == taken;
        assert Matching(seed, s, cmp, false) == [s[0]] + left;
      }
    }
  }

  /** Two seeds of the same content select the same files. */
  lemma {:induction false} MatchingSameContent<F(!new)>(x: F, y: F, s: seq<F>, cmp: (F, F) -> bool, want: bool)
    requires Equivalence(cmp) && cmp(x, y)
    ensures Matching(x, s, cmp, want) == Matching(y, s, cmp, want)
  {
    if s != [] {
      MatchingSameContent(x, y, s[1..], cmp, want);
      assert cmp(x, s[0]) == cmp(y, s[0]) by {
        if cmp(x, s[0]) { assert cmp(y, x); }
      }
    }
  }

  /** Removing the files that match `seed` changes nothing for a seed `x`
      whose content differs from `seed`'s. */
  lemma {:induction false} MatchingOutsideClass<F(!new)>(seed: F, x: F, s: seq<F>, cmp: (F, F) -> bool)
    requires Equivalence(cmp) && !cmp(seed, x)
    ensures Matching(x, Matching(seed, s, cmp, false), cmp, true) == Matching(x, s, cmp, true)
  {
    if s != [] {
      MatchingOutsideClass(seed, x, s[1..], cmp);
      if cmp(seed, s[0]) {
        assert !cmp(x, s[0]);
        assert Matching(seed, s, cmp, false) == Matching(seed, s[1..], cmp, false);
        assert Matching(x, s, cmp, true) == Matching(x, s[1..], cmp, true);
      } else {
        assert Matching(seed, s, cmp, false) == [s[0]] + Matching(seed, s[1..], cmp, false);
        assert ([s[0]] + Matching(seed, s[1..], cmp, false))[1..] == Matching(seed, s[1..], cmp, false);
      }
    }
  }

  /** When every file matches the seed, the comprehension keeps them all. */
  lemma {:induction false} MatchingAll<F(!new)>(seed: F, s: seq<F>, cmp: (F, F) -> bool)
    requires forall x :: x in s ==> cmp(seed, x)
    ensures Matching(seed, s, cmp, true) == s
    ensures Matching(seed, s, cmp, false) == []
  {
    if s != [] {
      assert s[0] in s;
      assert forall x :: x in s[1..] ==> x in s;
      MatchingAll(seed, s[1..], cmp);
    }
  }

  /** The elements of `s` in reverse order. */
  function Reverse<F(!new)>(s: seq<F>): (r: seq<F>)
    ensures |r| == |s|
    ensures forall i :: 0 <= i < |s| ==> r[i] == s[|s| - 1 - i]
  {
    if s == [] then [] else Reverse(s[1..]) + [s[0]]
  }

  /** Reversing keeps every element, as often as it occurs. */
  lemma {:induction false} ReverseMultiset<F(!new)>(s: seq<F>)
    ensures multiset(Reverse(s)) == multiset(s)
  {
    if s != [] {
      ReverseMultiset(s[1..]);
      assert s == [s[0]] + s[1..];
    }
  }

  /** The concatenation of a list of groups. */
  function Flatten<F(!new)>(groups: seq<seq<F>>): (r: seq<F>)
    ensures forall x :: x in r <==> exists k :: 0 <= k < |groups| && x in groups[k]
  {
    if groups == [] then []
    else
      assert forall k :: 0 < k < |groups| ==> groups[k] == groups[1..][k - 1];
      groups[0] + Flatten(groups[1..])
  }

  /** `x` is a member of one of the groups. */
  ghost predicate Grouped<F(!new)>(groups: seq<seq<F>>, x: F) {
    exists k :: 0 <= k < |groups| && x in groups[k]
  }

  /** Membership in a list of groups with one more group in front. */
  lemma GroupedCons<F(!new)>(group: seq<F>, later: seq<seq<F>>, x: F)
    ensures Grouped([group] + later, x) <==> x in group || Grouped(later, x)
  {
    var lol := [group] + later;
    if x in group {
      assert lol[0] == group;
    }
    if Grouped(later, x) {
      var k :| 0 <= k < |later| && x in later[k];
      assert lol[k + 1] == later[k];
    }
    if Grouped(lol, x) && x !in group {
      var k :| 0 <= k < |lol| && x in lol[k];
      assert later[k - 1] == lol[k];
    }
  }

  /** `x` has at least one copy in `files` besides itself: with a reflexive
      comparison, `x` and at least one other occurrence match `x`. */
  ghost predicate HasCopy<F(!new)>(files: seq<F>, x: F, cmp: (F, F) -> bool) {
    2 <= |Matching(x, files, cmp, true)|
  }
}
