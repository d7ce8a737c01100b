/** The placement policies: given a request in words and the hole list, each picks
    the offset of one hole, or -1 when no hole fits. */
module Placement {

  /** The wire form a policy reads: a count n, then n (offset, length) pairs, every
      entry a uint16_t. */
  predicate IsHoleList(list: seq<int>) {
    && 1 <= |list|
    && (forall idx :: 0 <= idx < |list| ==> 0 <= list[idx] < 0x1_0000)
    && |list| == 2 * list[0] + 1
  }

  function Count(list: seq<int>): nat
    requires IsHoleList(list)
  {
    list[0]
  }

  function Offset(list: seq<int>, k: int): int
    requires IsHoleList(list) && 0 <= k < Count(list)
  {
    list[2 * k + 1]
  }

  function Length(list: seq<int>, k: int): int
    requires IsHoleList(list) && 0 <= k < Count(list)
  {
    list[2 * k + 2]
  }

  /** Among the first n holes, hole k is best fit's pick when only holes shorter than
      `ceiling` are considered: it fits, none of those holes that fits is shorter, and
      every one before it that fits is strictly longer (the first of the shortest wins). */
  predicate SmallestFitAmong(list: seq<int>, request: int, ceiling: int, n: int, k: int)
    requires IsHoleList(list) && 0 <= n <= Count(list)
  {
    && 0 <= k < n
    && request <= Length(list, k) < ceiling
    && (forall m :: 0 <= m < n && request <= Length(list, m) < ceiling ==> Length(list, k) <= Length(list, m))
    && (forall m :: 0 <= m < k && request <= Length(list, m) < ceiling ==> Length(list, k) < Length(list, m))
  }

  /** Hole k is the first of the shortest holes that fit the request. */
  predicate SmallestFit(list: seq<int>, request: int, k: int)
    requires IsHoleList(list)
  {
    SmallestFitAmong(list, request, 0x1_0000, Count(list), k)
  }

  /** Among the first n holes, hole k is the first of the longest that fit. */
  predicate LargestFitAmong(list: seq<int>, request: int, n: int, k: int)
    requires IsHoleList(list) && 0 <= n <= Count(list)
  {
    && 0 <= k < n
    && request <= Length(list, k)
    && (forall m :: 0 <= m < n && request <= Length(list, m) ==> Length(list, m) <= Length(list, k))
    && (forall m :: 0 <= m < k && request <= Length(list, m) ==> Length(list, m) < Length(list, k))
  }

  predicate LargestFit(list: seq<int>, request: int, k: int)
    requires IsHoleList(list)
  {
    LargestFitAmong(list, request, Count(list), k)
  }

  /** True when no hole has at least `request` words. */
  predicate NoFit(list: seq<int>, request: int)
    requires IsHoleList(list)
  {
    forall m :: 0 <= m < Count(list) ==> Length(list, m) < request
  }

  /** The loop of bestFit, with the starting value of `diff` as a parameter: it keeps
      the offset of the shortest fitting hole seen so far that is shorter than `diff`. */
  method BestFitFrom(sizeInWords: int, list: seq<int>, diff0: int) returns (offset: int)
    requires IsHoleList(list)
    ensures offset == -1 <==> forall m :: 0 <= m < Count(list) ==> !(sizeInWords <= Length(list, m) < diff0)
    ensures offset != -1 ==>
      exists k :: SmallestFitAmong(list, sizeInWords, diff0, Count(list), k) && offset == Offset(list, k)
  {
    var diff := diff0;
    offset := -1;
    var length := list[0];
    ghost var chosen := -1;
    ghost var k := 0;
    var i := 1;
    while i < length * 2
      invariant 0 <= k <= length && i == 2 * k + 1
      invariant chosen == -1 ==>
        offset == -1 && diff == diff0 && forall m :: 0 <= m < k ==> !(sizeInWords <= Length(list, m) < diff0)
      invariant chosen != -1 ==>
        SmallestFitAmong(list, sizeInWords, diff0, k, chosen) && offset == Offset(list, chosen) && diff == Length(list, chosen)
    {
      if list[i + 1] >= sizeInWords && list[i + 1] < diff {
        offset := list[i];
        diff := list[i + 1];
        chosen := k;
      }
      i, k := i + 2, k + 1;
    }
  }

  /** bestFit as written: `diff` starts at INT16_MAX, so a hole of 32767 words or more is never chosen. */
  method BestFitAsWritten(sizeInWords: int, list: seq<int>) returns (offset: int)
    requires IsHoleList(list)
    ensures offset == -1 <==> forall m :: 0 <= m < Count(list) ==> !(sizeInWords <= Length(list, m) < 32767)
    ensures offset != -1 ==>
      exists k :: SmallestFitAmong(list, sizeInWords, 32767, Count(list), k) && offset == Offset(list, k)
  {
    offset := BestFitFrom(sizeInWords, list, 32767);
  }

  /** bestFit with `diff` starting above every uint16_t length: the offset of the first
      of the shortest holes that fit, or -1 when none fits. */
  method BestFit(sizeInWords: int, list: seq<int>) returns (offset: int)
    requires IsHoleList(list)
    ensures offset == -1 <==> NoFit(list, sizeInWords)
    ensures offset != -1 ==> exists k :: SmallestFit(list, sizeInWords, k) && offset == Offset(list, k)
  {
    offset := BestFitFrom(sizeInWords, list, 0x1_0000);
  }

  /** A single 40000-word hole at offset 0 fits a 1-word request; bestFit as written
      returns -1 for it, the corrected bestFit returns 0. */
  method LargeHoleMissedByBestFit() returns (asWritten: int, corrected: int)
    ensures asWritten == -1 && corrected == 0
  {
    var list := [1, 0, 40000];
    assert IsHoleList(list);
    asWritten := BestFitAsWritten(1, list);
    corrected := BestFit(1, list);
    assert Count(list) == 1 && Offset(list, 0) == 0 && Length(list, 0) == 40000;
  }

  /** The loop of worstFit: `diff` starts at -1, so the first fitting hole is always
      taken, and a later one only when strictly longer. */
  method WorstFit(sizeInWords: int, list: seq<int>) returns (offset: int)
    requires IsHoleList(list)
    ensures offset == -1 <==> NoFit(list, sizeInWords)
    ensures offset != -1 ==> exists k :: LargestFit(list, sizeInWords, k) && offset == Offset(list, k)
  {
    var diff := -1;
    offset := -1;
    var length := list[0];
    ghost var chosen := -1;
    ghost var k := 0;
    var i := 1;
    while i < length * 2
      invariant 0 <= k <= length && i == 2 * k + 1
      invariant chosen == -1 ==>
        offset == -1 && diff == -1 && forall m :: 0 <= m < k ==> Length(list, m) < sizeInWords
      invariant chosen != -1 ==>
        LargestFitAmong(list, sizeInWords, k, chosen) && offset == Offset(list, chosen) && diff == Length(list, chosen)
    {
      if list[i + 1] >= sizeInWords && list[i + 1] > diff {
        offset := list[i];
        diff := list[i + 1];
        chosen := k;
      }
      i, k := i + 2, k + 1;
    }
  }

  /** The allocator function a MemoryManager holds: bestFit as the program has it,
      bestFit with the ceiling on `diff` lifted, or worstFit. */
  datatype Policy = BestFitPolicy | BestFitAsWrittenPolicy | WorstFitPolicy

  /** Holes of `Ceiling(policy)` words or more are never chosen: 32767 for bestFit as
      written, above every uint16_t length for the other two. */
  function Ceiling(policy: Policy): int {
    if policy.BestFitAsWrittenPolicy? then 32767 else 0x1_0000
  }

  /** No hole has at least `request` and fewer than `ceiling` words. */
  predicate NoFitBelow(list: seq<int>, request: int, ceiling: int)
    requires IsHoleList(list)
  {
    forall m :: 0 <= m < Count(list) ==> !(request <= Length(list, m) < ceiling)
  }

  /** Below a ceiling above every uint16_t, "no hole qualifies" is "no hole fits". */
  lemma NoFitBelowTop(list: seq<int>, request: int)
    requires IsHoleList(list)
    ensures NoFitBelow(list, request, 0x1_0000) <==> NoFit(list, request)
  {
    assert forall m :: 0 <= m < Count(list) ==> Length(list, m) == list[2 * m + 2] < 0x1_0000;
  }

  predicate Chooses(policy: Policy, list: seq<int>, request: int, k: int)
    requires IsHoleList(list)
  {
    match policy
    case BestFitPolicy => SmallestFit(list, request, k)
    case BestFitAsWrittenPolicy => SmallestFitAmong(list, request, 32767, Count(list), k)
    case WorstFitPolicy => LargestFit(list, request, k)
  }

  /** Whatever the policy, the hole it chooses exists, fits the request and is below
      the policy's ceiling. */
  lemma ChosenHoleFits(policy: Policy, list: seq<int>, request: int, k: int)
    requires IsHoleList(list) && Chooses(policy, list, request, k)
    ensures 0 <= k < Count(list) && request <= Length(list, k) < Ceiling(policy)
  {
    assert Length(list, k) == list[2 * k + 2];
  }

  /** Calling the active allocator function: -1 exactly when no hole below the
      policy's ceiling fits, otherwise the offset of the hole the policy chooses. */
  method Select(policy: Policy, sizeInWords: int, list: seq<int>) returns (offset: int)
    requires IsHoleList(list)
    ensures offset == -1 <==> NoFitBelow(list, sizeInWords, Ceiling(policy))
    ensures offset != -1 ==> exists k :: Chooses(policy, list, sizeInWords, k) && offset == Offset(list, k)
  {
    match policy
    case BestFitPolicy =>
      offset := BestFit(sizeInWords, list);
      NoFitBelowTop(list, sizeInWords);
    case BestFitAsWrittenPolicy =>
      offset := BestFitAsWritten(sizeInWords, list);
    case WorstFitPolicy =>
      offset := WorstFit(sizeInWords, list);
      NoFitBelowTop(list, sizeInWords);
  }
}
