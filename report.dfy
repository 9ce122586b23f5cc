/** The selection and arithmetic of `report` in main.py, without the
    printing. For a non-empty list of groups the report names the first
    group of greatest length ("most duplicates") and the first group of
    greatest total size ("most disk space"), each split into its first
    member and its copies, and the total size of the second group. */
module Reporting {

  /** A chosen group as the report shows it: the first member, and the
      others as its copies. */
  datatype Selection<F> = Selection(original: F, copies: seq<F>)

  /** What `report` does with a list of groups. `IndexError` is the
      exception raised when a chosen group is empty and its first member is
      taken. */
  datatype ReportOutcome<F> =
    | NoDuplicates
    | Found(mostCopies: Selection<F>, mostSpace: Selection<F>, diskSpace: nat)
    | IndexError

  /** `sum([getsize(n) for n in group])`. */
  function TotalSize<F>(group: seq<F>, size: F -> nat): (total: nat)
    ensures forall i :: 0 <= i < |group| ==> size(group[i]) <= total
  {
    if group == [] then 0
    else
      assert forall i :: 0 < i < |group| ==> group[i] == group[1..][i - 1];
      size(group[0]) + TotalSize(group[1..], size)
  }

  /** `k` is the index of the first largest key. */
  ghost predicate IsFirstMax(keys: seq<nat>, k: int) {
    && 0 <= k < |keys|
    && (forall j :: 0 <= j < |keys| ==> keys[j] <= keys[k])
    && (forall j :: 0 <= j < k ==> keys[j] < keys[k])
  }

  /** Python's `max` over keys: it scans from the left and only replaces its
      current choice by a strictly larger key, so it returns the first
      largest one. */
  function FirstMax(keys: seq<nat>): (k: nat)
    requires keys != []
    ensures IsFirstMax(keys, k)
  {
    if |keys| == 1 then 0
    else
      var k := FirstMax(keys[..|keys| - 1]);
      if keys[k] < keys[|keys| - 1] then |keys| - 1 else k
  }

  /** The key `len` of every group. */
  function Lengths<F>(lol: seq<seq<F>>): (keys: seq<nat>)
    ensures |keys| == |lol|
    ensures forall k :: 0 <= k < |lol| ==> keys[k] == |lol[k]|
  {
    seq(|lol|, k requires 0 <= k < |lol| => |lol[k]|)
  }

  /** The key "sum of sizes" of every group. */
  function TotalSizes<F>(lol: seq<seq<F>>, size: F -> nat): (keys: seq<nat>)
    ensures |keys| == |lol|
    ensures forall k :: 0 <= k < |lol| ==> keys[k] == TotalSize(lol[k], size)
  {
    seq(|lol|, k requires 0 <= k < |lol| => TotalSize(lol[k], size))
  }

  /** The report on `lol`: nothing found for an empty list; otherwise the
      first longest group and the first group of greatest total size, and
      that total, which counts the first member as well as its copies. */
  function Report<F>(lol: seq<seq<F>>, size: F -> nat): (r: ReportOutcome<F>)
    ensures r.NoDuplicates? <==> lol == []
    ensures r.Found? ==>
      exists k :: IsFirstMax(Lengths(lol), k) && lol[k] == [r.mostCopies.original] + r.mostCopies.copies
    ensures r.Found? ==>
      exists k :: IsFirstMax(TotalSizes(lol, size), k) && lol[k] == [r.mostSpace.original] + r.mostSpace.copies
    ensures r.Found? ==> r.diskSpace == size(r.mostSpace.original) + TotalSize(r.mostSpace.copies, size)
    ensures r.Found? ==> forall j :: 0 <= j < |lol| ==>
      |lol[j]| <= 1 + |r.mostCopies.copies| && TotalSize(lol[j], size) <= r.diskSpace
    ensures r.IndexError? <==> lol != [] && exists k ::
      (IsFirstMax(Lengths(lol), k) || IsFirstMax(TotalSizes(lol, size), k)) && lol[k] == []
  {
    if lol == [] then NoDuplicates
    else
      var most := lol[FirstMax(Lengths(lol))];
      var largest := lol[FirstMax(TotalSizes(lol, size))];
      if most == [] || largest == [] then IndexError
      else
        assert forall j :: 0 <= j < |lol| ==>
          Lengths(lol)[j] == |lol[j]| && TotalSizes(lol, size)[j] == TotalSize(lol[j], size);
        assert most == [most[0]] + most[1..];
        assert largest == [largest[0]] + largest[1..];
        Found(Selection(most[0], most[1..]), Selection(largest[0], largest[1..]), TotalSize(largest, size))
  }

  /** On groups of at least two files, as both searches emit, the report
      never fails, and each chosen file has at least one copy. */
  lemma ReportOnGroups<F>(lol: seq<seq<F>>, size: F -> nat)
    requires forall g :: g in lol ==> 2 <= |g|
    ensures !Report(lol, size).IndexError?
    ensures lol != [] ==> 1 <= |Report(lol, size).mostCopies.copies| && 1 <= |Report(lol, size).mostSpace.copies|
  {
    if lol != [] {
      var most := lol[FirstMax(Lengths(lol))];
      var largest := lol[FirstMax(TotalSizes(lol, size))];
      assert most in lol && largest in lol;
    }
  }

  /** Three files of 100 bytes and two files of 250 bytes: the group of
      three has the most duplicates, the group of two the most disk space,
      500 bytes. */
  lemma ReportScenario(size: int -> nat)
    requires size(1) == 100 && size(2) == 100 && size(3) == 100
    requires size(4) == 250 && size(5) == 250
    ensures Report([[1, 2, 3], [4, 5]], size)
            == Found(Selection(1, [2, 3]), Selection(4, [5]), 500)
  {
    var lol := [[1, 2, 3], [4, 5]];
    assert Lengths(lol) == [3, 2];
    assert FirstMax([3, 2]) == 0 by {
      assert [3, 2][..1] == [3];
    }
    assert TotalSize([1, 2, 3], size) == 300 by {
      assert [1, 2, 3][1..] == [2, 3] && [2, 3][1..] == [3];
    }
    assert TotalSize([4, 5], size) == 500 by {
      assert [4, 5][1..] == [5];
    }
    assert TotalSizes(lol, size) == [300, 500];
    assert FirstMax([300, 500]) == 1 by {
      assert [300, 500][..1] == [300];
    }
  }
}
