/** The MemoryManager object: the arena's configuration, the segment ledger it builds
    on the first allocation, the active allocator function, and the two buffers
    getList and getBitmap hand out. Addresses are plain integers; the program break
    that sbrk would return is a parameter of Initialize. */
module Allocator {
  import opened Ledger
  import opened Views
  import opened Placement

  datatype Option<T> = None | Some(value: T)

  const NULL: int := 0

  /** `start + offset * word_size` in allocate: the product is computed in 32-bit
      unsigned arithmetic before it is added to the pointer. */
  function Address(start: int, offset: nat, wordSize: nat): (r: int)
    ensures start <= r < start + 0x1_0000_0000
  {
    start + (offset * wordSize) % 0x1_0000_0000
  }

  /** The pointer allocate returns, as its caller sees it: NULL is the failure value
      nullptr, whatever led to it. */
  function Pointer(p: int): (r: Option<int>)
    ensures r.None? <==> p == NULL
    ensures r.Some? ==> r.value == p
  {
    if p == NULL then None else Some(p)
  }

  /** A C integer division: the quotient is truncated toward zero, so the remainder
      has the sign of d and is smaller than the divisor. */
  function TruncDiv(d: int, wordSize: nat): (q: int)
    requires 0 < wordSize
    ensures 0 <= d ==> 0 <= d - q * wordSize < wordSize
    ensures d < 0 ==> 0 <= q * wordSize - d < wordSize
  {
    if 0 <= d then
      var q := d / wordSize;
      assert q * wordSize + d % wordSize == d;
      q
    else
      var q := (-d) / wordSize;
      assert q * wordSize + (-d) % wordSize == -d;
      assert (-q) * wordSize == -(q * wordSize);
      -q
  }

  /** The 32-bit two's-complement value an `int` keeps of x. */
  function Int32(x: int): (r: int)
    ensures -0x8000_0000 <= r < 0x8000_0000
    ensures -0x8000_0000 <= x < 0x8000_0000 ==> r == x
  {
    (x + 0x8000_0000) % 0x1_0000_0000 - 0x8000_0000
  }

  /** The word offset free computes from an address: the byte distance from the
      start, divided by the word size with truncation, stored in an `int`. Because
      the division truncates toward zero, an address less than one word below the
      start gives offset 0 as well. */
  function FreeOffset(address: int, start: int, wordSize: nat): (r: int)
    requires 0 < wordSize
    ensures -0x8000_0000 <= r < 0x8000_0000
    ensures start - wordSize < address < start + wordSize ==> r == 0
  {
    var q := TruncDiv(address - start, wordSize);
    ScaleBound(q, wordSize);
    Int32(q)
  }

  lemma ScaleBound(e: int, w: int)
    requires 0 < w
    ensures 1 <= e ==> w <= e * w
    ensures e <= -1 ==> e * w <= -w
  {
    if 1 <= e {
      assert e * w == w + (e - 1) * w;
    }
    if e <= -1 {
      assert e * w == -w + (e + 1) * w;
    }
  }

  /** Dividing `offset` words and r < word size bytes by the word size gives `offset`. */
  lemma TruncDivWords(offset: nat, wordSize: nat, r: nat)
    requires 0 < wordSize && r < wordSize
    ensures TruncDiv(offset * wordSize + r, wordSize) == offset
  {
    var q := TruncDiv(offset * wordSize + r, wordSize);
    assert (q - offset) * wordSize == q * wordSize - offset * wordSize;
    ScaleBound(q - offset, wordSize);
  }

  /** Freeing the address allocate returned for an offset finds that offset again,
      as long as the byte offset fits the 32-bit product. */
  lemma AddressRoundTrip(start: int, offset: nat, wordSize: nat)
    requires 0 < wordSize && offset < 0x1_0000 && offset * wordSize < 0x1_0000_0000
    ensures FreeOffset(Address(start, offset, wordSize), start, wordSize) == offset
  {
    var p := offset * wordSize;
    assert p % 0x1_0000_0000 == p;
    assert Address(start, offset, wordSize) - start == p + 0;
    TruncDivWords(offset, wordSize, 0);
  }

  /** An address inside a word, past its first byte, frees the word it lies in. */
  lemma FreeOffsetTruncates(start: int, offset: nat, wordSize: nat, r: nat)
    requires 0 < wordSize && r < wordSize && offset < 0x8000_0000
    ensures FreeOffset(start + offset * wordSize + r, start, wordSize) == offset
  {
    TruncDivWords(offset, wordSize, r);
  }

  /** What allocate claims for the hole it picks, free gives back: the address it
      returns leads free to the claimed segment, and marking plus merging restores the
      ledger from before the allocation, as long as the byte offset fits 32 bits. */
  lemma AllocateThenFree(policy: Policy, s: seq<Segment>, l: int, i: int, start: int, wordSize: nat)
    requires WellFormed(s) && 1 <= l && Picks(policy, s, l, i)
    requires 0 < wordSize && s[i].head * wordSize < 0x1_0000_0000
    ensures FreeOffset(Address(start, s[i].head, wordSize), start, wordSize) == s[i].head
    ensures Coalesce(MarkHole(Claim(s, i, l), s[i].head)) == s
  {
    assert s != [] && s != [Segment(0, true, 0)];
    ChainWithin(s, 0, Extent(s));
    AddressRoundTrip(start, s[i].head, wordSize);
    FreeUndoesClaim(s, i, l, 0, Extent(s));
  }

  /** No hole of ledger s that the policy may choose has room for l words: every hole
      is shorter than l or at or above the policy's ceiling. */
  ghost predicate NoHoleFits(policy: Policy, s: seq<Segment>, l: int) {
    forall i :: 0 <= i < |s| && s[i].hole ==> !(l <= s[i].size < Ceiling(policy))
  }

  /** For the corrected bestFit and for worstFit, on a tiled ledger, "no hole fits"
      means every hole is shorter than l words. */
  lemma NoHoleFitsMeansTooShort(policy: Policy, s: seq<Segment>, l: int)
    requires Tiled(s) && !policy.BestFitAsWrittenPolicy?
    ensures NoHoleFits(policy, s, l) <==> forall i :: 0 <= i < |s| && s[i].hole ==> s[i].size < l
  {
    TiledFitsU16(s);
    assert forall i :: 0 <= i < |s| ==> s[i] in s;
  }

  /** What updateList builds from a tiled ledger is a hole list the policies can read. */
  lemma HoleListIsWellShaped(s: seq<Segment>)
    requires Tiled(s)
    ensures IsHoleList(HoleList(s))
  {
    var list := HoleList(s);
    HoleListFitsU16(s);
    assert forall idx :: 0 <= idx < |list| ==> 0 <= list[idx] < 0x1_0000;
    HoleListLayout(s);
    assert |list| == 2 * list[0] + 1;
  }

  /** A policy reading the hole list of s reports no fit exactly when no hole of s
      that it may choose fits. */
  lemma NoFitIffNoHoleFits(policy: Policy, s: seq<Segment>, l: int)
    requires IsHoleList(HoleList(s))
    ensures NoFitBelow(HoleList(s), l, Ceiling(policy)) <==> NoHoleFits(policy, s, l)
  {
    HoleListLayout(s);
    HolesAreTheHoles(s);
    var h, list, c := Holes(s), HoleList(s), Ceiling(policy);
    if NoFitBelow(list, l, c) {
      forall i | 0 <= i < |s| && s[i].hole
        ensures !(l <= s[i].size < c)
      {
        assert s[i] in h;
        var m :| 0 <= m < |h| && h[m] == s[i];
        assert Length(list, m) == s[i].size;
      }
    }
    if NoHoleFits(policy, s, l) {
      forall m | 0 <= m < Count(list)
        ensures !(l <= Length(list, m) < c)
      {
        assert h[m] in h;
        var i :| 0 <= i < |s| && s[i] == h[m];
      }
    }
  }

  /** Segment i of s is the hole the policy picks, reading the hole list of s, for a
      request of l words. */
  ghost predicate Picks(policy: Policy, s: seq<Segment>, l: int, i: int) {
    && 0 <= i < |s| && s[i].hole && l <= s[i].size < Ceiling(policy)
    && IsHoleList(HoleList(s))
    && exists k :: 0 <= k < |Holes(s)| && Holes(s)[k] == s[i] && Chooses(policy, HoleList(s), l, k)
  }

  /** Every hole the hole list names is a segment of the ledger. */
  lemma HoleIndex(s: seq<Segment>, k: int) returns (j: int)
    requires 0 <= k < |Holes(s)|
    ensures 0 <= j < |s| && s[j] == Holes(s)[k]
  {
    HolesAreTheHoles(s);
    assert Holes(s)[k] in Holes(s);
    j :| 0 <= j < |s| && s[j] == Holes(s)[k];
  }

  /** No two segments of a tiled ledger start at the same word. */
  lemma HeadsUnique(s: seq<Segment>)
    requires Tiled(s)
    ensures forall i, j :: 0 <= i < |s| && 0 <= j < |s| && s[i].head == s[j].head ==> i == j
  {
    if s != [] && s != [Segment(0, true, 0)] {
      ChainWithin(s, 0, Extent(s));
    }
  }

  /** The hole a policy chooses among those of a well-formed ledger is the only
      segment that starts at the offset the policy returns. */
  lemma PickedHole(policy: Policy, s: seq<Segment>, list: seq<int>, l: int, offset: int) returns (j: int)
    requires WellFormed(s) && 1 <= l
    requires list == HoleList(s) && IsHoleList(list)
    requires exists k :: Chooses(policy, list, l, k) && offset == Offset(list, k)
    ensures Picks(policy, s, l, j) && s[j].head == offset
    ensures forall m :: 0 <= m < |s| && s[m].head == offset ==> m == j
  {
    var k :| Chooses(policy, list, l, k) && offset == Offset(list, k);
    ChosenHoleFits(policy, list, l, k);
    assert 0 <= k < |Holes(s)| && Holes(s)[k].head == offset && Holes(s)[k].size == Length(list, k) by {
      HoleListLayout(s);
    }
    j := HoleIndex(s, k);
    assert Holes(s)[k].hole by {
      HolesAreTheHoles(s);
      assert Holes(s)[k] in Holes(s);
    }
    HeadsUnique(s);
  }

  /** Claiming the picked hole keeps the ledger well-formed; a hole was there to pick. */
  lemma ClaimPicked(policy: Policy, s: seq<Segment>, l: int, i: int)
    requires WellFormed(s) && 1 <= l && Picks(policy, s, l, i)
    ensures WellFormed(Claim(s, i, l)) && !NoHoleFits(policy, s, l)
  {
    ClaimWellFormed(s, i, l);
  }

  /** The policy call of allocate on the hole list of ledger s: -1 exactly when no
      hole the policy may choose has room for l words, otherwise the head of the one segment the policy
      picks, whose claim keeps the ledger well-formed. */
  method Choose(policy: Policy, ghost s: seq<Segment>, list: seq<int>, l: nat) returns (offset: int, ghost j: int)
    requires WellFormed(s) && 1 <= l && list == HoleList(s)
    ensures offset == -1 <==> NoHoleFits(policy, s, l)
    ensures offset != -1 ==>
      && Picks(policy, s, l, j) && s[j].head == offset
      && (forall m :: 0 <= m < |s| && s[m].head == offset ==> m == j)
      && WellFormed(Claim(s, j, l))
  {
    HoleListIsWellShaped(s);
    offset := Select(policy, l, list);
    NoFitIffNoHoleFits(policy, s, l);
    j := -1;
    if offset != -1 {
      j := PickedHole(policy, s, list, l, offset);
      ClaimPicked(policy, s, l, j);
    }
  }

  /** The first loop of updateBitmap: one flag per word, segment after segment. */
  method CollectWords(s: seq<Segment>) returns (words: seq<bool>)
    ensures words == Words(s)
  {
    words := [];
    var t := 0;
    while t < |s|
      invariant 0 <= t <= |s|
      invariant words == Words(s[..t])
    {
      var x := s[t];
      var k := 0;
      while k < x.size
        invariant 0 <= k <= x.size
        invariant words == Words(s[..t]) + seq(k, _ => !x.hole)
      {
        assert seq(k + 1, _ => !x.hole) == seq(k, _ => !x.hole) + [!x.hole];
        words := words + [!x.hole];
        k := k + 1;
      }
      assert seq(k, _ => !x.hole) == Fill(x);
      WordsStep(s, t);
      t := t + 1;
    }
    assert s[..t] == s;
  }

  /** The packing loop of updateBitmap: words 8p .. 8p + 7 become data byte p, that
      is element 2 + p of b. */
  method PackWords(words: seq<bool>, b: array<int>)
    requires 2 + CeilDiv(|words|, 8) <= b.Length
    modifies b
    ensures forall p :: 0 <= p < CeilDiv(|words|, 8) ==> b[2 + p] == PackedByte(words, p)
  {
    var pos := 2;
    var i := 0;
    while i < |words|
      invariant 0 <= i && i == 8 * (pos - 2) && 2 <= pos && pos - 2 <= CeilDiv(|words|, 8)
      invariant forall p :: 0 <= p < pos - 2 ==> b[2 + p] == PackedByte(words, p)
    {
      var cnt := 0;
      var j := 0;
      while j < 8
        invariant 0 <= j <= 8
        invariant cnt == Weight(words, i, j)
        invariant forall p :: 0 <= p < pos - 2 ==> b[2 + p] == PackedByte(words, p)
      {
        WeightStep(words, i, j);
        if i + j < |words| && words[i + j] {
          cnt := cnt + Pow2(j);
        }
        j := j + 1;
      }
      assert cnt == PackedByte(words, pos - 2);
      CeilDivBytes(|words|, pos - 2);
      b[pos] := cnt;
      pos := pos + 1;
      i := i + 8;
    }
    forall p | 0 <= p < CeilDiv(|words|, 8)
      ensures b[2 + p] == PackedByte(words, p)
    {
      CeilDivBytes(|words|, p);
    }
  }

  /** The first loop of updateList: the number of holes of s, and their offsets and
      lengths in ledger order. */
  method CollectHoles(s: seq<Segment>) returns (l: nat, pairs: seq<int>)
    ensures l == |Holes(s)| && pairs == Pairs(Holes(s))
  {
    pairs := [];
    l := 0;
    var t := 0;
    while t < |s|
      invariant 0 <= t <= |s|
      invariant l == |Holes(s[..t])| && pairs == Pairs(Holes(s[..t]))
    {
      HolesStep(s, t);
      if s[t].hole {
        l := l + 1;
        pairs := pairs + [s[t].head, s[t].size];
      }
      t := t + 1;
    }
    assert s[..t] == s;
  }

  /** The body of updateList on ledger s: a fresh array holding the number of holes,
      then the offset and length of each hole in ledger order. */
  method BuildHoleList(s: seq<Segment>) returns (a: array<int>)
    ensures fresh(a) && a[..] == HoleList(s)
  {
    var l, pairs := CollectHoles(s);
    PairsLayout(Holes(s));
    a := new int[2 * l + 1];
    a[0] := l;
    var counter := 0;
    while counter < l * 2
      invariant 0 <= counter <= 2 * l
      invariant a[0] == l && forall c :: 0 <= c < counter ==> a[c + 1] == pairs[c]
    {
      a[counter + 1] := pairs[counter];
      counter := counter + 1;
    }
    assert a[..] == [l] + pairs;
  }

  /** The body of updateBitmap on ledger s over an arena of n words. */
  method BuildBitmap(s: seq<Segment>, n: nat) returns (b: array<int>)
    requires WellFormed(s) && Extent(s) <= n
    ensures fresh(b) && b.Length == 2 + CeilDiv(n, 8)
    ensures b[0] == 1 && b[1] == 0
    ensures forall p :: 0 <= p < CeilDiv(Extent(s), 8) ==> b[2 + p] == PackedByte(Words(s), p)
  {
    var l := CeilDiv(n, 8);
    b := new int[2 + l];
    var words := CollectWords(s);
    WordsOfWellFormed(s);
    assert CeilDiv(|words|, 8) <= l;
    PackWords(words, b);
    b[0] := 1;
    b[1] := 0;
    forall p | 0 <= p < CeilDiv(Extent(s), 8)
      ensures b[2 + p] == PackedByte(Words(s), p)
    {
      CeilDivBytes(|words|, p);
    }
  }

  class MemoryManager {
    var policy: Policy
    var wordSize: nat
    var sizeInWords: nat
    var mem: nat
    /** The first byte of the arena; NULL before initialize and after shutdown. */
    var start: int
    /** The segment ledger, first segment first; empty until the first allocation. */
    var node: seq<Segment>
    /** The last hole list handed out, NULL before the first. */
    var list: array?<int>
    /** The last bitmap handed out, NULL before the first. */
    var bitMap: array?<int>

    /** The object invariant: a positive 32-bit word size, an arena below 65536 words,
        and a well-formed ledger. */
    ghost predicate Valid()
      reads this
    {
      && 0 < wordSize < 0x1_0000_0000
      && sizeInWords < 0x1_0000
      && mem < 0x1_0000_0000
      && WellFormed(node)
    }

    constructor (wordSize: nat, policy: Policy)
      requires 0 < wordSize < 0x1_0000_0000
      ensures Valid()
      ensures this.wordSize == wordSize && this.policy == policy
      ensures start == NULL && node == [] && list == null && bitMap == null
      ensures sizeInWords == 0 && mem == 0
      ensures GetWordSize() == wordSize && GetMemoryStart() == NULL && GetMemoryLimit() == 0
    {
      this.policy := policy;
      this.wordSize := wordSize;
      sizeInWords := 0;
      mem := 0;
      start := NULL;
      node := [];
      list := null;
      bitMap := null;
    }

    /** Sets up an arena of `words` words at `base`, the address sbrk returned,
        releasing the previous one first; a request of 65536 words or more is ignored. */
    method Initialize(words: nat, base: int)
      requires Valid()
      modifies this`sizeInWords, this`mem, this`start, this`node
      ensures Valid()
      ensures words < 0x1_0000 ==>
        && sizeInWords == words
        && mem == (wordSize * words) % 0x1_0000_0000
        && start == base
        && node == (if old(start) != NULL then [] else old(node))
        && GetMemoryLimit() == (GetWordSize() * words) % 0x1_0000_0000
        && GetMemoryStart() == base
      ensures 0x1_0000 <= words ==>
        sizeInWords == old(sizeInWords) && mem == old(mem) && start == old(start) && node == old(node)
    {
      if words < 0x1_0000 {
        sizeInWords := words;
        mem := (wordSize * sizeInWords) % 0x1_0000_0000;
        if start != NULL {
          Shutdown();
        }
        start := base;
      }
    }

    /** Gives the arena back and forgets the ledger. */
    method Shutdown()
      requires Valid()
      modifies this`start, this`node
      ensures Valid()
      ensures start == NULL && node == [] && GetMemoryStart() == NULL
    {
      start := NULL;
      node := [];
    }

    /** Finds room for `sizeInBytes` bytes with the active policy and claims it. The
        ledger is created on the first call as one hole over the whole arena. There is
        no check that an arena is present: with start NULL the claim still happens,
        and the address of word 0 is null. */
    method Allocate(sizeInBytes: nat) returns (address: Option<int>)
      requires Valid()
      modifies this`node, this`list
      ensures Valid()
      ensures fresh(list) && list[..] == HoleList(WithInitialHole(old(node), sizeInWords))
      ensures sizeInBytes == 0 || NoHoleFits(policy, WithInitialHole(old(node), sizeInWords), CeilDiv(sizeInBytes, wordSize)) ==>
        address == None && node == WithInitialHole(old(node), sizeInWords)
      ensures !(sizeInBytes == 0 || NoHoleFits(policy, WithInitialHole(old(node), sizeInWords), CeilDiv(sizeInBytes, wordSize))) ==>
        var lazy, l := WithInitialHole(old(node), sizeInWords), CeilDiv(sizeInBytes, wordSize);
        exists i :: Picks(policy, lazy, l, i)
          && node == Claim(lazy, i, l)
          && address == Pointer(Address(start, lazy[i].head, wordSize))
      ensures NULL < start ==> (address.None? <==>
        sizeInBytes == 0 || NoHoleFits(policy, WithInitialHole(old(node), sizeInWords), CeilDiv(sizeInBytes, wordSize)))
    {
      if node == [] {
        node := [Segment(0, true, sizeInWords)];
      }
      ghost var lazy := node;
      assert lazy == WithInitialHole(old(node), sizeInWords) && WellFormed(lazy) by {
        InitialHoleWellFormed(old(node), sizeInWords);
      }
      var l := CeilDiv(sizeInBytes, wordSize);
      CeilDivZero(sizeInBytes, wordSize);
      var holes := GetList();
      if l == 0 {
        return None;
      }
      var offset, j := Choose(policy, lazy, holes[..], l);
      if offset == -1 {
        return None;
      }
      var i := ClaimAt(offset, l, j);
      address := Pointer(Address(start, offset, wordSize));
    }

    /** Lines 62-73 of allocate: walks the ledger to the segment that starts at
        `offset` and claims its first l words. */
    method ClaimAt(offset: int, l: nat, ghost j: int) returns (i: nat)
      requires 0 <= j < |node| && node[j].head == offset && node[j].hole && 1 <= l <= node[j].size
      requires forall m :: 0 <= m < |node| && node[m].head == offset ==> m == j
      modifies this`node
      ensures i == j && node == Claim(old(node), i, l)
    {
      i := 0;
      while i < |node| && node[i].head != offset
        invariant 0 <= i <= j
      {
        i := i + 1;
      }
      node := Claim(node, i, l);
    }

    /** Marks the segment that starts at the word of `address` as a hole, then merges
        neighbouring holes. An address no segment starts at changes nothing. */
    method Free(address: int)
      requires Valid()
      modifies this`node
      ensures Valid()
      ensures node == Coalesce(MarkHole(old(node), FreeOffset(address, start, wordSize)))
    {
      var offset := FreeOffset(address, start, wordSize);
      ghost var before := node;
      var i := 0;
      while i < |node|
        invariant 0 <= i <= |node| == |before|
        invariant forall m :: 0 <= m < i ==> node[m] == Marked(before[m], offset)
        invariant forall m :: i <= m < |node| ==> node[m] == before[m]
      {
        if node[i].head == offset {
          node := node[i := node[i].(hole := true)];
        }
        i := i + 1;
      }
      assert node == MarkHole(before, offset);
      MarkHoleKeepsTiled(before, offset);
      CombineHoles();
    }

    /** Merges every run of neighbouring holes into one hole. */
    method CombineHoles()
      requires 0 < wordSize < 0x1_0000_0000 && sizeInWords < 0x1_0000 && mem < 0x1_0000_0000 && Tiled(node)
      modifies this`node
      ensures Valid()
      ensures node == Coalesce(old(node))
    {
      CoalesceWellFormed(node);
      node := Coalesce(node);
    }

    method SetAllocator(policy: Policy)
      modifies this`policy
      ensures this.policy == policy
    {
      this.policy := policy;
    }

    /** Builds a fresh hole list from the ledger: the number of holes, then the
        offset and length of each hole in ledger order. */
    method UpdateList()
      requires Valid()
      modifies this`list
      ensures fresh(list) && list[..] == HoleList(node)
    {
      var a := BuildHoleList(node);
      list := a;
    }

    method GetList() returns (holes: array<int>)
      requires Valid()
      modifies this`list
      ensures holes == list && fresh(holes) && holes[..] == HoleList(node)
    {
      UpdateList();
      holes := list;
    }

    /** Builds a fresh bitmap: two header bytes, then one bit per word of the ledger,
        eight words to a byte, least significant bit first, 1 for an allocated word. */
    method UpdateBitmap()
      requires Valid() && Extent(node) <= sizeInWords
      modifies this`bitMap
      ensures fresh(bitMap) && bitMap.Length == 2 + CeilDiv(sizeInWords, 8)
      ensures bitMap[0] == 1 && bitMap[1] == 0
      ensures forall p :: 0 <= p < CeilDiv(Extent(node), 8) ==> bitMap[2 + p] == PackedByte(Words(node), p)
    {
      var b := BuildBitmap(node, sizeInWords);
      bitMap := b;
    }

    method GetBitmap() returns (bits: array<int>)
      requires Valid() && Extent(node) <= sizeInWords
      modifies this`bitMap
      ensures bits == bitMap && fresh(bits) && bits.Length == 2 + CeilDiv(sizeInWords, 8)
      ensures bits[0] == 1 && bits[1] == 0
      ensures forall p :: 0 <= p < CeilDiv(Extent(node), 8) ==> bits[2 + p] == PackedByte(Words(node), p)
    {
      UpdateBitmap();
      bits := bitMap;
    }

    /** The word size used for alignment: positive and 32-bit. */
    function GetWordSize(): (r: nat)
      reads this
      ensures Valid() ==> 0 < r < 0x1_0000_0000
    {
      wordSize
    }

    /** The first byte of the arena: NULL before initialize and after shutdown. */
    function GetMemoryStart(): (r: int)
      reads this
      ensures r == NULL <==> start == NULL
    {
      start
    }

    /** The byte limit of the arena, as stored by initialize: an unsigned 32-bit value. */
    function GetMemoryLimit(): (r: nat)
      reads this
      ensures Valid() ==> r < 0x1_0000_0000
    {
      mem
    }
  }

  /** A fresh manager with 4-byte words over a 40000-word arena at address 1000:
      its ledger is created as the single 40000-word hole. */
  method LargeArena(policy: Policy) returns (m: MemoryManager)
    ensures fresh(m) && m.Valid() && m.policy == policy && m.wordSize == 4 && m.start == 1000
    ensures WithInitialHole(m.node, m.sizeInWords) == [Segment(0, true, 40000)]
  {
    m := new MemoryManager(4, policy);
    m.Initialize(40000, 1000);
  }

  /** Allocating 4 bytes on that arena with bestFit as written returns null, because
      the one hole is 40000 words long. */
  method LargeArenaRefusedByBestFitAsWritten() returns (address: Option<int>)
    ensures address == None
  {
    var m := LargeArena(BestFitAsWrittenPolicy);
    ghost var lazy := WithInitialHole(m.node, m.sizeInWords);
    assert CeilDiv(4, m.wordSize) == 1;
    assert NoHoleFits(m.policy, lazy, 1);
    address := m.Allocate(4);
    assert address.None? <==> NoHoleFits(m.policy, lazy, CeilDiv(4, m.wordSize));
  }

  /** On the single-hole ledger the only segment to pick starts at word 0. */
  lemma ServedAtStart(policy: Policy, lazy: seq<Segment>, address: Option<int>, start: int, wordSize: nat)
    requires lazy == [Segment(0, true, 40000)] && address.Some?
    requires exists i :: Picks(policy, lazy, 1, i) && address.value == Address(start, lazy[i].head, wordSize)
    ensures address == Some(start)
  {
    var i :| Picks(policy, lazy, 1, i) && address.value == Address(start, lazy[i].head, wordSize);
    assert i == 0;
  }

  /** The same request with the corrected bestFit returns the start of the arena. */
  method LargeArenaServedByBestFit() returns (address: Option<int>)
    ensures address == Some(1000)
  {
    var m := LargeArena(BestFitPolicy);
    ghost var lazy := WithInitialHole(m.node, m.sizeInWords);
    assert CeilDiv(4, m.wordSize) == 1;
    assert !NoHoleFits(m.policy, lazy, 1) by {
      assert lazy[0].hole && 1 <= lazy[0].size < Ceiling(m.policy);
    }
    address := m.Allocate(4);
    ServedAtStart(m.policy, lazy, address, m.start, m.wordSize);
  }

  /** The two segments a 4-byte allocation leaves on a 20-word arena of 4-byte words:
      the word the pick at word 0 claimed, then the rest as a hole. */
  lemma ClaimedFirstWord(policy: Policy, lazy: seq<Segment>, node: seq<Segment>, address: Option<int>)
    requires lazy == [Segment(0, true, 20)]
    requires exists i :: Picks(policy, lazy, 1, i) && node == Claim(lazy, i, 1) && address == Pointer(Address(NULL, lazy[i].head, 4))
    ensures address == None && node == [Segment(0, false, 1), Segment(1, true, 19)]
  {
    var i :| Picks(policy, lazy, 1, i) && node == Claim(lazy, i, 1) && address == Pointer(Address(NULL, lazy[i].head, 4));
    assert i == 0;
    assert |node| == 2;
  }

  /** Allocate does not check that an arena is present. After shutdown it builds the
      ledger from the size the manager still holds and claims word 0 of it. The
      address NULL + 0 it returns is null, the failure value, yet the word stays
      claimed. */
  method AllocateAfterShutdown() returns (address: Option<int>, ledger: seq<Segment>)
    ensures address == None && ledger == [Segment(0, false, 1), Segment(1, true, 19)]
  {
    var m := new MemoryManager(4, WorstFitPolicy);
    m.Initialize(20, 1000);
    m.Shutdown();
    ghost var lazy := WithInitialHole(m.node, m.sizeInWords);
    assert CeilDiv(4, m.wordSize) == 1;
    assert !NoHoleFits(m.policy, lazy, 1) by {
      assert lazy[0].hole && 1 <= lazy[0].size < Ceiling(m.policy);
    }
    address := m.Allocate(4);
    ClaimedFirstWord(m.policy, lazy, m.node, address);
    ledger := m.node;
  }
}
