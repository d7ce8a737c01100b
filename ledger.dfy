/** The segment ledger: the chain of LL_Node records that partitions the word arena
    into allocated segments and holes, and the three ways the allocator changes it. */
module Ledger {

  /** One LL_Node without its links: `size` words starting at word offset `head`;
      `hole` marks a free segment. The chain order is the order of the sequence. */
  datatype Segment = Segment(head: nat, hole: bool, size: nat)

  /** One past the last word of `x`. */
  function End(x: Segment): nat { x.head + x.size }

  /** `s` tiles the words [from, to): every segment is non-empty and starts where
      the previous one ends. */
  predicate Chain(s: seq<Segment>, from: int, to: int) {
    && (forall i :: 0 <= i < |s| ==> 1 <= s[i].size)
    && (if s == [] then from == to else s[0].head == from && End(s[|s| - 1]) == to)
    && (forall i :: 0 <= i < |s| - 1 ==> End(s[i]) == s[i + 1].head)
  }

  /** `s` partitions the arena of `n` words. */
  predicate Partition(s: seq<Segment>, n: int) { Chain(s, 0, n) }

  /** The number of words the chain covers. */
  function Extent(s: seq<Segment>): nat { if s == [] then 0 else End(s[|s| - 1]) }

  predicate NoAdjacentHoles(s: seq<Segment>) {
    forall i :: 0 <= i < |s| - 1 ==> !(s[i].hole && s[i + 1].hole)
  }

  /** The shapes a ledger can take: none yet, the single empty hole that a first
      allocation on a 0-word arena creates, or a partition of fewer than 65536 words. */
  predicate Tiled(s: seq<Segment>) {
    || s == []
    || s == [Segment(0, true, 0)]
    || (Partition(s, Extent(s)) && Extent(s) < 0x1_0000)
  }

  /** The ledgers the allocator leaves behind: tiled, with every run of holes merged. */
  predicate WellFormed(s: seq<Segment>) {
    Tiled(s) && NoAdjacentHoles(s)
  }

  /** The ledger `allocate` works on: it creates one hole over the whole arena when there is none. */
  function WithInitialHole(s: seq<Segment>, n: nat): (r: seq<Segment>)
    ensures s != [] ==> r == s
    ensures s == [] ==> |r| == 1 && r[0].hole && r[0].head == 0 && Extent(r) == n
  {
    if s == [] then [Segment(0, true, n)] else s
  }

  lemma InitialHoleWellFormed(s: seq<Segment>, n: nat)
    requires WellFormed(s) && n < 0x1_0000
    ensures WellFormed(WithInitialHole(s, n))
    ensures s == [] && 0 < n ==> Extent(WithInitialHole(s, n)) == n
  {
  }

  // ----- order and bounds inside a chain

  lemma {:induction false} ChainOrdered(s: seq<Segment>, from: int, to: int, i: int, j: int)
    requires Chain(s, from, to) && 0 <= i < j < |s|
    ensures End(s[i]) <= s[j].head
    decreases j - i
  {
    if j > i + 1 {
      ChainOrdered(s, from, to, i + 1, j);
    }
  }

  /** Every segment of a chain lies inside [from, to), and no two share a head. */
  lemma ChainWithin(s: seq<Segment>, from: int, to: int)
    requires Chain(s, from, to)
    ensures forall i :: 0 <= i < |s| ==> from <= s[i].head && End(s[i]) <= to
    ensures forall i, j :: 0 <= i < |s| && 0 <= j < |s| && s[i].head == s[j].head ==> i == j
  {
    forall i | 0 <= i < |s|
      ensures from <= s[i].head && End(s[i]) <= to
    {
      if 0 < i { ChainOrdered(s, from, to, 0, i); }
      if i < |s| - 1 { ChainOrdered(s, from, to, i, |s| - 1); }
    }
    forall i, j | 0 <= i < |s| && 0 <= j < |s| && s[i].head == s[j].head
      ensures i == j
    {
      if i < j { ChainOrdered(s, from, to, i, j); }
      if j < i { ChainOrdered(s, from, to, j, i); }
    }
  }

  lemma ChainPrefix(s: seq<Segment>, from: int, to: int, k: int)
    requires Chain(s, from, to) && 0 < k < |s|
    ensures Chain(s[..k], from, s[k].head)
  {
  }

  lemma ChainSuffix(s: seq<Segment>, from: int, to: int, k: int)
    requires Chain(s, from, to) && 0 <= k < |s|
    ensures Chain(s[k..], s[k].head, to)
  {
  }

  /** A chain has at most one segment per word. */
  lemma {:induction false} ChainLength(s: seq<Segment>, from: int, to: int)
    requires Chain(s, from, to)
    ensures |s| <= to - from
    decreases |s|
  {
    if s != [] {
      ChainSuffix(s, from, to, 1 % |s|);
      if 1 < |s| {
        ChainLength(s[1..], s[1].head, to);
      }
    }
  }

  // ----- allocate: claim a hole

  /** Lines 65-73 of allocate: segment `i` becomes allocated when it has exactly `l`
      words; otherwise it becomes an allocated segment of `l` words followed by a hole
      holding the rest. No other segment changes. */
  function Claim(s: seq<Segment>, i: nat, l: nat): (r: seq<Segment>)
    requires i < |s| && l <= s[i].size
    ensures |r| == |s| + (if s[i].size == l then 0 else 1)
    ensures r[i] == Segment(s[i].head, false, l)
    ensures s[i].size != l ==> r[i + 1] == Segment(s[i].head + l, true, s[i].size - l)
    ensures forall j :: 0 <= j < i ==> r[j] == s[j]
    ensures s[i].size == l ==> forall j :: i < j < |s| ==> r[j] == s[j]
    ensures s[i].size != l ==> forall j :: i + 1 < j < |s| + 1 ==> r[j] == s[j - 1]
  {
    if s[i].size == l then s[i := s[i].(hole := false)]
    else
      var q := s[i + 1..];
      var r := s[..i] + [Segment(s[i].head, false, l), Segment(s[i].head + l, true, s[i].size - l)] + q;
      assert forall j :: i + 1 < j < |s| + 1 ==> r[j] == q[j - i - 2];
      r
  }

  /** Claiming a non-empty part of a hole keeps the words partitioned in order and
      leaves no two holes side by side. */
  lemma ClaimKeepsPartition(s: seq<Segment>, i: nat, l: nat, from: int, to: int)
    requires Chain(s, from, to) && NoAdjacentHoles(s)
    requires i < |s| && s[i].hole && 1 <= l <= s[i].size
    ensures Chain(Claim(s, i, l), from, to)
    ensures NoAdjacentHoles(Claim(s, i, l))
  {
    var r := Claim(s, i, l);
    if s[i].size != l {
      forall j | 0 <= j < |r| - 1
        ensures End(r[j]) == r[j + 1].head && !(r[j].hole && r[j + 1].hole)
      {
        if j < i - 1 {
        } else if j == i - 1 {
        } else if j == i {
        } else if j == i + 1 {
          assert r[j + 1] == s[i + 1];
        } else {
          assert r[j] == s[j - 1] && r[j + 1] == s[j];
        }
      }
    }
  }

  /** Claiming l >= 1 words of a hole keeps a ledger well-formed and over the same words. */
  lemma ClaimWellFormed(s: seq<Segment>, i: nat, l: nat)
    requires WellFormed(s)
    requires i < |s| && s[i].hole && 1 <= l <= s[i].size
    ensures WellFormed(Claim(s, i, l)) && Extent(Claim(s, i, l)) == Extent(s)
  {
    ClaimKeepsPartition(s, i, l, 0, Extent(s));
  }

  /** Lines 65-72 with `l` = 0, as a zero-byte request gives: the ledger of a 20-word
      arena gains an empty allocated segment that shares its head with the hole. */
  lemma ZeroWordClaimBreaksLedger()
    ensures Claim([Segment(0, true, 20)], 0, 0) == [Segment(0, false, 0), Segment(0, true, 20)]
    ensures !WellFormed(Claim([Segment(0, true, 20)], 0, 0))
  {
    var r := Claim([Segment(0, true, 20)], 0, 0);
    assert r[0].size == 0;
  }

  // ----- free: mark a hole

  function Marked(x: Segment, offset: int): Segment {
    if x.head == offset then x.(hole := true) else x
  }

  /** The loop of free (lines 81-89): every segment whose head is `offset` becomes a hole. */
  function MarkHole(s: seq<Segment>, offset: int): (r: seq<Segment>)
    ensures |r| == |s|
    ensures forall j :: 0 <= j < |s| ==>
      r[j].head == s[j].head && r[j].size == s[j].size && (r[j].hole <==> s[j].hole || s[j].head == offset)
  {
    seq(|s|, j requires 0 <= j < |s| => Marked(s[j], offset))
  }

  /** In a chain, free changes exactly the one segment starting at `offset`, or
      nothing when no segment starts there. */
  lemma MarkHoleChangesOne(s: seq<Segment>, offset: int, from: int, to: int)
    requires Chain(s, from, to)
    ensures forall i :: 0 <= i < |s| && s[i].head == offset ==>
      MarkHole(s, offset) == s[i := s[i].(hole := true)]
    ensures (forall i :: 0 <= i < |s| ==> s[i].head != offset) ==> MarkHole(s, offset) == s
    ensures Chain(MarkHole(s, offset), from, to)
  {
    var m := MarkHole(s, offset);
    ChainWithin(s, from, to);
    forall i | 0 <= i < |s| && s[i].head == offset
      ensures m == s[i := s[i].(hole := true)]
    {
      assert forall j :: 0 <= j < |s| ==> m[j] == s[i := s[i].(hole := true)][j];
    }
    assert forall j :: 0 <= j < |s| ==> m[j].head == s[j].head && m[j].size == s[j].size;
  }

  // ----- free: merge holes

  /** The merge that free's call to combine_holes stands for: every run of consecutive
      holes becomes one hole spanning the run. */
  function Coalesce(s: seq<Segment>): (r: seq<Segment>)
    ensures |r| <= |s|
    ensures s != [] ==> r != [] && r[0].head == s[0].head && r[0].hole == s[0].hole
    decreases |s|
  {
    if |s| <= 1 then s
    else if s[0].hole && s[1].hole then Coalesce([Segment(s[0].head, true, s[0].size + s[1].size)] + s[2..])
    else [s[0]] + Coalesce(s[1..])
  }

  lemma MergeKeepsChain(s: seq<Segment>, from: int, to: int)
    requires Chain(s, from, to) && 2 <= |s|
    ensures Chain([Segment(s[0].head, true, s[0].size + s[1].size)] + s[2..], from, to)
  {
    var t := [Segment(s[0].head, true, s[0].size + s[1].size)] + s[2..];
    assert forall j :: 1 <= j < |t| ==> t[j] == s[j + 1];
  }

  lemma ConsKeepsChain(x: Segment, c: seq<Segment>, from: int, to: int)
    requires 1 <= x.size && x.head == from && Chain(c, End(x), to) && c != []
    ensures Chain([x] + c, from, to)
  {
    assert forall j :: 1 <= j < |c| + 1 ==> ([x] + c)[j] == c[j - 1];
  }

  /** Merging keeps the covered range. */
  lemma {:induction false} CoalesceKeepsChain(s: seq<Segment>, from: int, to: int)
    requires Chain(s, from, to)
    ensures Chain(Coalesce(s), from, to)
    decreases |s|
  {
    if |s| <= 1 {
    } else if s[0].hole && s[1].hole {
      MergeKeepsChain(s, from, to);
      CoalesceKeepsChain([Segment(s[0].head, true, s[0].size + s[1].size)] + s[2..], from, to);
    } else {
      ChainSuffix(s, from, to, 1);
      CoalesceKeepsChain(s[1..], s[1].head, to);
      ConsKeepsChain(s[0], Coalesce(s[1..]), from, to);
    }
  }

  /** After merging, no two consecutive segments are holes. */
  lemma {:induction false} CoalesceSeparatesHoles(s: seq<Segment>)
    ensures NoAdjacentHoles(Coalesce(s))
    decreases |s|
  {
    if |s| <= 1 {
    } else if s[0].hole && s[1].hole {
      CoalesceSeparatesHoles([Segment(s[0].head, true, s[0].size + s[1].size)] + s[2..]);
    } else {
      CoalesceSeparatesHoles(s[1..]);
      var c := Coalesce(s[1..]);
      assert forall j :: 1 <= j < |c| + 1 ==> ([s[0]] + c)[j] == c[j - 1];
    }
  }

  /** Merging touches only holes: the allocated segments before and after are the same. */
  lemma {:induction false} CoalesceKeepsAllocated(s: seq<Segment>)
    ensures forall x: Segment :: !x.hole ==> (x in Coalesce(s) <==> x in s)
    decreases |s|
  {
    if |s| <= 1 {
    } else if s[0].hole && s[1].hole {
      var t := [Segment(s[0].head, true, s[0].size + s[1].size)] + s[2..];
      CoalesceKeepsAllocated(t);
      forall x: Segment | !x.hole
        ensures x in t <==> x in s
      {
        if x in s {
          var j :| 0 <= j < |s| && s[j] == x;
          assert t[j - 1] == x;
        }
      }
    } else {
      CoalesceKeepsAllocated(s[1..]);
      assert s == [s[0]] + s[1..];
    }
  }

  /** A ledger whose holes are already merged is left as it is. */
  lemma {:induction false} CoalesceIdentity(s: seq<Segment>)
    requires NoAdjacentHoles(s)
    ensures Coalesce(s) == s
    decreases |s|
  {
    if 1 < |s| {
      CoalesceIdentity(s[1..]);
    }
  }

  /** Sequence facts for the merge step below, proved apart from the definition of
      Coalesce so that the solver does not unfold it while proving them. */
  lemma DropOfAppend(p: seq<Segment>, t: seq<Segment>, k: nat)
    requires k <= |p|
    ensures (p + t)[k..] == p[k..] + t
  {
  }

  lemma AppendAssociates(a: seq<Segment>, b: seq<Segment>, c: seq<Segment>)
    ensures (a + b) + c == a + (b + c)
  {
  }

  lemma CoalesceMergeStep(s: seq<Segment>)
    requires 2 <= |s| && s[0].hole && s[1].hole
    ensures Coalesce(s) == Coalesce([Segment(s[0].head, true, s[0].size + s[1].size)] + s[2..])
  {
  }

  lemma CoalesceConsStep(s: seq<Segment>)
    requires 2 <= |s| && !(s[0].hole && s[1].hole)
    ensures Coalesce(s) == [s[0]] + Coalesce(s[1..])
  {
  }

  lemma CoalesceAppendOne(x: Segment, t: seq<Segment>)
    requires t != [] && (!x.hole || !t[0].hole)
    ensures Coalesce([x] + t) == [x] + Coalesce(t)
  {
    var pt := [x] + t;
    assert pt[0] == x && pt[1] == t[0] && pt[1..] == t;
  }

  lemma CoalesceAppendMerge(p: seq<Segment>, t: seq<Segment>)
    requires 2 <= |p| && p[0].hole && p[1].hole
    requires Coalesce(([Segment(p[0].head, true, p[0].size + p[1].size)] + p[2..]) + t)
          == Coalesce([Segment(p[0].head, true, p[0].size + p[1].size)] + p[2..]) + Coalesce(t)
    ensures Coalesce(p + t) == Coalesce(p) + Coalesce(t)
  {
    var m := Segment(p[0].head, true, p[0].size + p[1].size);
    var q := [m] + p[2..];
    var pt := p + t;
    assert pt[0] == p[0] && pt[1] == p[1];
    CoalesceMergeStep(pt);
    DropOfAppend(p, t, 2);
    AppendAssociates([m], p[2..], t);
    assert Coalesce(pt) == Coalesce(q + t);
    CoalesceMergeStep(p);
  }

  lemma CoalesceAppendCons(p: seq<Segment>, t: seq<Segment>)
    requires 2 <= |p| && !(p[0].hole && p[1].hole)
    requires Coalesce(p[1..] + t) == Coalesce(p[1..]) + Coalesce(t)
    ensures Coalesce(p + t) == Coalesce(p) + Coalesce(t)
  {
    var pt := p + t;
    var c, d := Coalesce(p[1..]), Coalesce(t);
    assert ([p[0]] + c) + d == [p[0]] + (c + d);
    assert pt[1..] == p[1..] + t;
    assert pt[0] == p[0] && pt[1] == p[1];
    CoalesceConsStep(pt);
    CoalesceConsStep(p);
  }

  /** Merging splits at a boundary that has an allocated segment on one side. */
  lemma {:induction false} CoalesceAppend(p: seq<Segment>, t: seq<Segment>)
    requires p == [] || t == [] || !p[|p| - 1].hole || !t[0].hole
    ensures Coalesce(p + t) == Coalesce(p) + Coalesce(t)
    decreases |p|
  {
    if p == [] {
      assert p + t == t;
    } else if t == [] {
      assert p + t == p;
    } else if |p| == 1 {
      assert p == [p[0]];
      CoalesceAppendOne(p[0], t);
    } else if p[0].hole && p[1].hole {
      var q := [Segment(p[0].head, true, p[0].size + p[1].size)] + p[2..];
      assert q[|q| - 1].hole == p[|p| - 1].hole;
      CoalesceAppend(q, t);
      CoalesceAppendMerge(p, t);
    } else {
      CoalesceAppend(p[1..], t);
      CoalesceAppendCons(p, t);
    }
  }

  /** Two holes split from one, between allocated neighbours, merge back into it. */
  lemma RemergeSplitHole(p: seq<Segment>, q: seq<Segment>, x: Segment, l: nat)
    requires NoAdjacentHoles(p) && NoAdjacentHoles(q)
    requires p == [] || !p[|p| - 1].hole
    requires q == [] || !q[0].hole
    requires x.hole && l <= x.size
    ensures Coalesce(p + ([Segment(x.head, true, l), Segment(x.head + l, true, x.size - l)] + q)) == p + ([x] + q)
  {
    var h1, h2 := Segment(x.head, true, l), Segment(x.head + l, true, x.size - l);
    var pair := [h1, h2] + q;
    CoalesceAppend(p, pair);
    assert pair[0] == h1 && pair[1] == h2 && pair[2..] == q;
    var merged := Segment(pair[0].head, true, pair[0].size + pair[1].size);
    assert merged == x;
    assert [merged] + pair[2..] == [x] + q;
    assert Coalesce(pair) == Coalesce([merged] + pair[2..]);
    CoalesceAppend([x], q);
    assert Coalesce([x]) == [x];
    CoalesceIdentity(p);
    CoalesceIdentity(q);
    assert Coalesce([x] + q) == [x] + q;
    assert Coalesce(pair) == [x] + q;
    assert Coalesce(p + pair) == Coalesce(p) + Coalesce(pair);
  }

  /** In a ledger with merged holes, the marking free does on a claimed segment
      reopens exactly that segment. */
  lemma MarkClaimed(s: seq<Segment>, i: nat, l: nat, from: int, to: int)
    requires Chain(s, from, to) && NoAdjacentHoles(s)
    requires i < |s| && s[i].hole && 1 <= l <= s[i].size
    ensures i < |Claim(s, i, l)| && Claim(s, i, l)[i].head == s[i].head
    ensures MarkHole(Claim(s, i, l), s[i].head) == Claim(s, i, l)[i := Claim(s, i, l)[i].(hole := true)]
  {
    var c := Claim(s, i, l);
    ClaimKeepsPartition(s, i, l, from, to);
    assert c[i].head == s[i].head;
    MarkHoleChangesOne(c, s[i].head, from, to);
  }

  /** Reopening the allocated part of a split hole leaves two holes side by side. */
  lemma ReopenSplit(s: seq<Segment>, i: nat, l: nat)
    requires i < |s| && l < s[i].size
    ensures Claim(s, i, l)[i := Claim(s, i, l)[i].(hole := true)] == s[..i] + ([Segment(s[i].head, true, l), Segment(s[i].head + l, true, s[i].size - l)] + s[i + 1..])
  {
    var p, q := s[..i], s[i + 1..];
    var a, b := Segment(s[i].head, false, l), Segment(s[i].head + l, true, s[i].size - l);
    assert p + [a, b] + q == p + ([a] + ([b] + q));
    assert (p + ([a] + ([b] + q)))[|p| := a.(hole := true)] == p + ([a.(hole := true)] + ([b] + q));
    assert [a.(hole := true)] + ([b] + q) == [a.(hole := true), b] + q;
  }

  /** The two holes of a split, between the unchanged neighbours of a ledger with
      merged holes, merge back into the original ledger. */
  lemma FreeUndoesSplit(s: seq<Segment>, i: nat, l: nat)
    requires NoAdjacentHoles(s)
    requires i < |s| && s[i].hole && l < s[i].size
    ensures Coalesce(s[..i] + ([Segment(s[i].head, true, l), Segment(s[i].head + l, true, s[i].size - l)] + s[i + 1..])) == s
  {
    var p, q := s[..i], s[i + 1..];
    assert p == [] || !p[|p| - 1].hole by {
      assert i > 0 ==> p[|p| - 1] == s[i - 1];
    }
    assert q == [] || !q[0].hole;
    assert NoAdjacentHoles(p) && NoAdjacentHoles(q);
    RemergeSplitHole(p, q, s[i], l);
    assert p + ([s[i]] + q) == s;
  }

  /** Freeing what was just claimed and merging gives back the ledger from before the
      claim, whenever that ledger had its holes merged. */
  lemma FreeUndoesClaim(s: seq<Segment>, i: nat, l: nat, from: int, to: int)
    requires Chain(s, from, to) && NoAdjacentHoles(s)
    requires i < |s| && s[i].hole && 1 <= l <= s[i].size
    ensures Coalesce(MarkHole(Claim(s, i, l), s[i].head)) == s
  {
    MarkClaimed(s, i, l, from, to);
    if s[i].size == l {
      var c := Claim(s, i, l);
      assert c[i := c[i].(hole := true)] == s;
      CoalesceIdentity(s);
    } else {
      ReopenSplit(s, i, l);
      FreeUndoesSplit(s, i, l);
    }
  }

  /** Free's marking keeps the ledger tiled. */
  lemma MarkHoleKeepsTiled(s: seq<Segment>, offset: int)
    requires Tiled(s)
    ensures Tiled(MarkHole(s, offset)) && Extent(MarkHole(s, offset)) == Extent(s)
  {
    if s == [Segment(0, true, 0)] {
      assert MarkHole(s, offset) == s;
    } else if s != [] {
      MarkHoleChangesOne(s, offset, 0, Extent(s));
    }
  }

  /** Merging turns any tiled ledger into a well-formed one over the same words. */
  lemma CoalesceWellFormed(s: seq<Segment>)
    requires Tiled(s)
    ensures WellFormed(Coalesce(s)) && Extent(Coalesce(s)) == Extent(s)
  {
    CoalesceSeparatesHoles(s);
    if |s| > 1 {
      CoalesceKeepsChain(s, 0, Extent(s));
    }
  }

  /** Lines 85-90 as written, with combine_holes empty: freeing the allocated
      first segment of [allocated 0..4, hole 4..20] leaves two holes side by side. */
  lemma StubLeavesAdjacentHoles()
    ensures MarkHole([Segment(0, false, 4), Segment(4, true, 16)], 0) == [Segment(0, true, 4), Segment(4, true, 16)]
    ensures !NoAdjacentHoles(MarkHole([Segment(0, false, 4), Segment(4, true, 16)], 0))
    ensures Coalesce(MarkHole([Segment(0, false, 4), Segment(4, true, 16)], 0)) == [Segment(0, true, 20)]
  {
    var m := MarkHole([Segment(0, false, 4), Segment(4, true, 16)], 0);
    assert m == [Segment(0, true, 4), Segment(4, true, 16)];
    assert m[0].hole && m[1].hole;
    assert m[2..] == [];
  }
}
