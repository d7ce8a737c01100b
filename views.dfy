/** The two views updateList and updateBitmap derive from the ledger: the hole list
    (a count followed by an (offset, length) pair per hole) and the allocation bitmap
    (one bit per word, least significant bit first). */
module Views {
  import opened Ledger

  // ----- hole list

  /** The holes of the ledger, in ledger order. */
  function Holes(s: seq<Segment>): seq<Segment> {
    if s == [] then [] else Holes(s[..|s| - 1]) + (if s[|s| - 1].hole then [s[|s| - 1]] else [])
  }

  /** The (offset, length) words of the holes in `h`, pair after pair. */
  function Pairs(h: seq<Segment>): seq<int> {
    if h == [] then [] else Pairs(h[..|h| - 1]) + [h[|h| - 1].head, h[|h| - 1].size]
  }

  /** The hole list updateList builds: the number of holes, then their pairs. */
  function HoleList(s: seq<Segment>): seq<int> {
    [|Holes(s)|] + Pairs(Holes(s))
  }

  /** One more segment of the ledger adds its pair to the hole list when it is a hole. */
  lemma HolesStep(s: seq<Segment>, t: nat)
    requires t < |s|
    ensures Holes(s[..t + 1]) == Holes(s[..t]) + (if s[t].hole then [s[t]] else [])
    ensures Pairs(Holes(s[..t + 1])) == Pairs(Holes(s[..t])) + (if s[t].hole then [s[t].head, s[t].size] else [])
  {
    var pre := s[..t + 1];
    assert pre[..t] == s[..t] && pre[t] == s[t];
    if s[t].hole {
      var h := Holes(s[..t]) + [s[t]];
      assert Holes(pre) == h;
      assert h[..|h| - 1] == Holes(s[..t]) && h[|h| - 1] == s[t];
      assert Pairs(h) == Pairs(Holes(s[..t])) + [s[t].head, s[t].size];
    } else {
      assert Holes(pre) == Holes(s[..t]);
    }
  }

  /** The hole list names exactly the holes of the ledger. */
  lemma {:induction false} HolesAreTheHoles(s: seq<Segment>)
    ensures forall x :: x in Holes(s) <==> x in s && x.hole
    ensures |Holes(s)| <= |s|
    decreases |s|
  {
    if s != [] {
      var t := s[..|s| - 1];
      HolesAreTheHoles(t);
      assert s == t + [s[|s| - 1]];
    }
  }

  /** In a chain the holes come in increasing order of offset, without overlap. */
  lemma {:induction false} HolesInLedgerOrder(s: seq<Segment>, from: int, to: int)
    requires Chain(s, from, to)
    ensures forall a, b :: 0 <= a < b < |Holes(s)| ==> End(Holes(s)[a]) <= Holes(s)[b].head
    decreases |s|
  {
    if 1 < |s| {
      var t, last := s[..|s| - 1], s[|s| - 1];
      ChainPrefix(s, from, to, |s| - 1);
      HolesInLedgerOrder(t, from, last.head);
      HolesAreTheHoles(t);
      var h := Holes(s);
      if last.hole {
        forall a | 0 <= a < |h| - 1
          ensures End(h[a]) <= last.head
        {
          assert h[a] in Holes(t);
          var j :| 0 <= j < |t| && t[j] == h[a];
          ChainOrdered(s, from, to, j, |s| - 1);
        }
      }
    }
  }

  lemma {:induction false} PairsLayout(h: seq<Segment>)
    ensures |Pairs(h)| == 2 * |h|
    ensures forall k :: 0 <= k < |h| ==> Pairs(h)[2 * k] == h[k].head && Pairs(h)[2 * k + 1] == h[k].size
    decreases |h|
  {
    if h != [] {
      PairsLayout(h[..|h| - 1]);
    }
  }

  /** updateList's layout: length 2n + 1, entry 0 is the number n of holes, entries
      2k + 1 and 2k + 2 are the offset and length of the k-th hole. */
  lemma HoleListLayout(s: seq<Segment>)
    ensures |HoleList(s)| == 2 * |Holes(s)| + 1
    ensures HoleList(s)[0] == |Holes(s)|
    ensures forall k :: 0 <= k < |Holes(s)| ==>
      HoleList(s)[2 * k + 1] == Holes(s)[k].head && HoleList(s)[2 * k + 2] == Holes(s)[k].size
  {
    PairsLayout(Holes(s));
  }

  /** Every offset, length and count on a tiled ledger is below 65536. */
  lemma TiledFitsU16(s: seq<Segment>)
    requires Tiled(s)
    ensures |s| < 0x1_0000
    ensures forall x :: x in s ==> x.head < 0x1_0000 && x.size < 0x1_0000
  {
    if s != [] && s != [Segment(0, true, 0)] {
      ChainWithin(s, 0, Extent(s));
      ChainLength(s, 0, Extent(s));
    }
  }

  /** On a tiled ledger every entry of the hole list fits its uint16_t slot. */
  lemma HoleListFitsU16(s: seq<Segment>)
    requires Tiled(s)
    ensures forall idx :: 0 <= idx < |HoleList(s)| ==> 0 <= HoleList(s)[idx] < 0x1_0000
  {
    HoleListLayout(s);
    HolesAreTheHoles(s);
    TiledFitsU16(s);
    var h, list := Holes(s), HoleList(s);
    forall idx | 0 <= idx < |list|
      ensures 0 <= list[idx] < 0x1_0000
    {
      if 0 < idx {
        var k := (idx - 1) / 2;
        assert idx == 2 * k + 1 || idx == 2 * k + 2;
        assert h[k] in s by { assert h[k] in h; }
      }
    }
  }

  // ----- bitmap

  /** The words of one segment: true where allocated. */
  function Fill(x: Segment): seq<bool> { seq(x.size, _ => !x.hole) }

  /** One flag per word, in ledger order, true for a word in an allocated segment:
      the vector updateBitmap fills before packing. */
  function Words(s: seq<Segment>): seq<bool> {
    if s == [] then [] else Words(s[..|s| - 1]) + Fill(s[|s| - 1])
  }

  /** One more segment of the ledger adds its words to the flag vector. */
  lemma WordsStep(s: seq<Segment>, t: nat)
    requires t < |s|
    ensures Words(s[..t + 1]) == Words(s[..t]) + Fill(s[t])
  {
    var pre := s[..t + 1];
    assert pre[..t] == s[..t] && pre[t] == s[t];
  }

  lemma {:induction false} WordsAppend(a: seq<Segment>, b: seq<Segment>)
    ensures Words(a + b) == Words(a) + Words(b)
    decreases |b|
  {
    if b == [] {
      assert a + b == a;
    } else {
      var c, last := b[..|b| - 1], b[|b| - 1];
      WordsAppend(a, c);
      var ab := a + b;
      assert ab[..|ab| - 1] == a + c && ab[|ab| - 1] == last;
      assert Words(ab) == Words(a + c) + Fill(last);
      assert Words(b) == Words(c) + Fill(last);
    }
  }

  /** Word w of a partitioned arena is flagged exactly when the segment holding it is allocated. */
  lemma {:induction false} WordsOfPartition(s: seq<Segment>, n: int)
    requires Partition(s, n)
    ensures |Words(s)| == n
    ensures forall i, w :: 0 <= i < |s| && s[i].head <= w < End(s[i]) ==> w < |Words(s)| && Words(s)[w] == !s[i].hole
    decreases |s|
  {
    if s != [] {
      var t, last := s[..|s| - 1], s[|s| - 1];
      if 1 < |s| {
        ChainPrefix(s, 0, n, |s| - 1);
        WordsOfPartition(t, last.head);
        ChainWithin(s, 0, n);
        forall i | 0 <= i < |s| - 1
          ensures End(s[i]) <= last.head
        {
          ChainOrdered(s, 0, n, i, |s| - 1);
        }
      }
    }
  }

  lemma WordsOfWellFormed(s: seq<Segment>)
    requires WellFormed(s)
    ensures |Words(s)| == Extent(s)
  {
    if s == [Segment(0, true, 0)] {
      assert Words(s) == Words([]) + Fill(s[0]);
    } else if s != [] {
      WordsOfPartition(s, Extent(s));
    }
  }

  lemma WordsOfOne(x: Segment)
    ensures Words([x]) == Fill(x)
  {
    assert [x][..0] == [];
  }

  lemma WordsCons(x: Segment, t: seq<Segment>)
    ensures Words([x] + t) == Fill(x) + Words(t)
  {
    WordsAppend([x], t);
    WordsOfOne(x);
  }

  /** Two holes side by side flag the same words as the single hole spanning both. */
  lemma MergeKeepsWords(x: Segment, y: Segment, rest: seq<Segment>)
    requires x.hole && y.hole
    ensures Words([Segment(x.head, true, x.size + y.size)] + rest) == Words([x, y] + rest)
  {
    var m := Segment(x.head, true, x.size + y.size);
    WordsAppend([m], rest);
    WordsAppend([x, y], rest);
    WordsAppend([x], [y]);
    assert [x] + [y] == [x, y];
    WordsOfOne(m);
    WordsOfOne(x);
    WordsOfOne(y);
    assert Fill(m) == Fill(x) + Fill(y);
  }

  lemma MergeStepKeepsWords(s: seq<Segment>)
    requires 1 < |s| && s[0].hole && s[1].hole
    requires Words(Coalesce([Segment(s[0].head, true, s[0].size + s[1].size)] + s[2..]))
          == Words([Segment(s[0].head, true, s[0].size + s[1].size)] + s[2..])
    ensures Words(Coalesce(s)) == Words(s)
  {
    MergeKeepsWords(s[0], s[1], s[2..]);
    assert [s[0], s[1]] + s[2..] == s;
  }

  lemma ConsStepKeepsWords(s: seq<Segment>)
    requires 1 < |s| && !(s[0].hole && s[1].hole)
    requires Words(Coalesce(s[1..])) == Words(s[1..])
    ensures Words(Coalesce(s)) == Words(s)
  {
    var c := Coalesce(s[1..]);
    assert Coalesce(s) == [s[0]] + c;
    WordsCons(s[0], c);
    WordsCons(s[0], s[1..]);
    assert [s[0]] + s[1..] == s;
  }

  /** Merging holes changes no word's flag. */
  lemma {:induction false} CoalesceKeepsWords(s: seq<Segment>)
    ensures Words(Coalesce(s)) == Words(s)
    decreases |s|
  {
    if |s| <= 1 {
    } else if s[0].hole && s[1].hole {
      CoalesceKeepsWords([Segment(s[0].head, true, s[0].size + s[1].size)] + s[2..]);
      MergeStepKeepsWords(s);
    } else {
      CoalesceKeepsWords(s[1..]);
      ConsStepKeepsWords(s);
    }
  }

  /** updateBitmap's byte count: ceil(n / 8). */
  function CeilDiv(n: nat, d: nat): nat
    requires 0 < d
  {
    (n + d - 1) / d
  }

  /** Rounding up leaves a positive count positive. */
  lemma CeilDivZero(n: nat, d: nat)
    requires 0 < d
    ensures CeilDiv(n, d) == 0 <==> n == 0
  {
    if n > 0 {
      assert n + d - 1 >= d;
      assert (n + d - 1) / d >= 1;
    }
  }

  /** Byte q of a bitmap over n words is needed exactly when 8q < n. */
  lemma CeilDivBytes(n: nat, q: nat)
    ensures 8 * q < n <==> q < CeilDiv(n, 8)
  {
  }

  function Pow2(j: nat): nat {
    if j == 0 then 1 else 2 * Pow2(j - 1)
  }

  /** 1 for an allocated word, 0 for a hole word and for any index past the words. */
  function BitAt(words: seq<bool>, w: int): nat {
    if 0 <= w < |words| && words[w] then 1 else 0
  }

  /** The sum updateBitmap's inner loop accumulates: 2^j for every allocated word
      base + j with j < k. */
  function Weight(words: seq<bool>, base: int, k: nat): nat {
    if k == 0 then 0 else Weight(words, base, k - 1) + Pow2(k - 1) * BitAt(words, base + k - 1)
  }

  /** One more word of the byte adds 2^k when it lies in an allocated segment. */
  lemma WeightStep(words: seq<bool>, base: int, k: nat)
    ensures Weight(words, base, k + 1)
         == Weight(words, base, k) + (if 0 <= base + k < |words| && words[base + k] then Pow2(k) else 0)
  {
  }

  /** Data byte p of the bitmap: words 8p .. 8p + 7. */
  function PackedByte(words: seq<bool>, p: nat): nat {
    Weight(words, 8 * p, 8)
  }

  /** Binary digit j of v, counting from the least significant. */
  function Digit(v: nat, j: nat): nat {
    if j == 0 then v % 2 else Digit(v / 2, j - 1)
  }

  lemma {:induction false} DigitOfZero(j: nat)
    ensures Digit(0, j) == 0
  {
    if j > 0 { DigitOfZero(j - 1); }
  }

  /** The sum read from its lowest word first. */
  lemma {:induction false} WeightLowFirst(words: seq<bool>, base: int, k: nat)
    requires 1 <= k
    ensures Weight(words, base, k) == BitAt(words, base) + 2 * Weight(words, base + 1, k - 1)
  {
    if k > 1 {
      WeightLowFirst(words, base, k - 1);
      var c := BitAt(words, base + k - 1);
      assert Pow2(k - 1) * c == 2 * (Pow2(k - 2) * c);
    }
  }

  lemma {:induction false} WeightBelow(words: seq<bool>, base: int, k: nat)
    ensures Weight(words, base, k) < Pow2(k)
  {
    if k > 0 {
      WeightBelow(words, base, k - 1);
      var c := BitAt(words, base + k - 1);
      assert Pow2(k - 1) * c <= Pow2(k - 1);
    }
  }

  /** Digit j of the packed sum is the flag of word base + j, and 0 past the k words. */
  lemma {:induction false} WeightDigits(words: seq<bool>, base: int, k: nat, j: nat)
    ensures Digit(Weight(words, base, k), j) == if j < k then BitAt(words, base + j) else 0
    decreases k
  {
    if k == 0 {
      DigitOfZero(j);
    } else {
      WeightLowFirst(words, base, k);
      var v, rest := Weight(words, base, k), Weight(words, base + 1, k - 1);
      assert v / 2 == rest;
      if j > 0 {
        WeightDigits(words, base + 1, k - 1, j - 1);
      }
    }
  }

  /** Every data byte fits a uint8_t. */
  lemma PackedByteFits(words: seq<bool>, p: nat)
    ensures PackedByte(words, p) < 256
  {
    WeightBelow(words, 8 * p, 8);
  }

  /** Bit w % 8 of data byte w / 8 is 1 exactly when word w lies in an allocated segment. */
  lemma BitmapBitIsAllocation(s: seq<Segment>, n: int, w: nat, i: int)
    requires Partition(s, n)
    requires 0 <= i < |s| && s[i].head <= w < End(s[i])
    ensures Digit(PackedByte(Words(s), w / 8), w % 8) == if s[i].hole then 0 else 1
  {
    WordsOfPartition(s, n);
    var base := 8 * (w / 8);
    assert base + w % 8 == w && w % 8 < 8;
    WeightDigits(Words(s), base, 8, w % 8);
    assert PackedByte(Words(s), w / 8) == Weight(Words(s), base, 8);
    assert BitAt(Words(s), w) == if s[i].hole then 0 else 1;
  }

  /** The bits past the last word of the final byte are 0. */
  lemma BitmapPaddingIsZero(words: seq<bool>, w: nat)
    requires |words| <= w
    ensures Digit(PackedByte(words, w / 8), w % 8) == 0
  {
    WeightDigits(words, 8 * (w / 8), 8, w % 8);
    assert 8 * (w / 8) + w % 8 == w;
  }
}
