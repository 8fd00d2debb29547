/**
 * Embedding (hideMessage in bitmap.c): each payload bit rewrites one pixel's
 * palette index, in pixel order, to the nearest palette entry whose parity is
 * that bit.  "Nearest" is the first entry of the distance ranking, which is
 * built by inserting every palette index, 0 to 255, into the sorted list.
 */
module Embedding {
  import opened Colors
  import opened SortedList

  /** The ranking list after indices 0 .. k-1 have been inserted for pixel colour `c`. */
  function Ranking(p: seq<Rgb>, c: Byte, k: nat): (s: seq<Node>)
    requires IsPalette(p) && k <= PaletteSize
    ensures |s| == k
  {
    if k == 0 then []
    else InsertSorted(Ranking(p, c, k - 1), Node(SqDist(p[c], p[k - 1]), k - 1))
  }

  lemma RankingStep(p: seq<Rgb>, c: Byte, i: nat)
    requires IsPalette(p) && i < PaletteSize
    ensures Ranking(p, c, i + 1) == InsertSorted(Ranking(p, c, i), Node(SqDist(p[c], p[i]), i))
  {
  }

  /** The node that stands for palette entry `j` in the ranking for colour `c`. */
  function NodeFor(p: seq<Rgb>, c: Byte, j: Byte): Node
    requires IsPalette(p)
  {
    Node(SqDist(p[c], p[j]), j)
  }

  /** The ranking is ordered nearest first and, among equal distances, highest index first. */
  lemma {:induction false} RankingOrdered(p: seq<Rgb>, c: Byte, k: nat)
    requires IsPalette(p) && k <= PaletteSize
    ensures StrictlyRanked(Ranking(p, c, k))
    ensures forall i :: 0 <= i < k ==> Ranking(p, c, k)[i].index < k
  {
    if k > 0 {
      var prev := Ranking(p, c, k - 1);
      var n := NodeFor(p, c, k - 1);
      RankingOrdered(p, c, k - 1);
      InsertNewestFirst(prev, n);
    }
  }

  /** Each node of the ranking carries an inserted index and that entry's true distance. */
  lemma {:induction false} RankingNodes(p: seq<Rgb>, c: Byte, k: nat)
    requires IsPalette(p) && k <= PaletteSize
    ensures forall i :: 0 <= i < k ==>
      0 <= Ranking(p, c, k)[i].index < k && Ranking(p, c, k)[i] == NodeFor(p, c, Ranking(p, c, k)[i].index)
  {
    if k > 0 {
      var prev := Ranking(p, c, k - 1);
      var n := NodeFor(p, c, k - 1);
      var s := Ranking(p, c, k);
      RankingNodes(p, c, k - 1);
      InsertAddsOne(prev, n);
      forall i | 0 <= i < k
        ensures 0 <= s[i].index < k && s[i] == NodeFor(p, c, s[i].index)
      {
        assert s[i] in multiset(s);
        if s[i] != n {
          assert s[i] in multiset(prev);
          var i' :| 0 <= i' < |prev| && prev[i'] == s[i];
        }
      }
    }
  }

  /** Every inserted index has its node in the ranking. */
  lemma {:induction false} RankingComplete(p: seq<Rgb>, c: Byte, k: nat)
    requires IsPalette(p) && k <= PaletteSize
    ensures forall j: Byte :: j < k ==> NodeFor(p, c, j) in Ranking(p, c, k)
  {
    if k > 0 {
      var prev := Ranking(p, c, k - 1);
      var n := NodeFor(p, c, k - 1);
      var s := Ranking(p, c, k);
      RankingComplete(p, c, k - 1);
      InsertAddsOne(prev, n);
      forall j: Byte | j < k
        ensures NodeFor(p, c, j) in s
      {
        if j < k - 1 {
          assert NodeFor(p, c, j) in multiset(prev);
        }
        assert NodeFor(p, c, j) in multiset(s);
      }
    }
  }

  /**
   * The ranking holds exactly one node per inserted index, each with its true
   * distance, ordered nearest first and, among equal distances, highest
   * index first.
   */
  lemma RankingFacts(p: seq<Rgb>, c: Byte, k: nat)
    requires IsPalette(p) && k <= PaletteSize
    ensures var s := Ranking(p, c, k);
      && StrictlyRanked(s)
      && (forall i :: 0 <= i < |s| ==> 0 <= s[i].index < k && s[i] == NodeFor(p, c, s[i].index))
      && (forall j: Byte :: j < k ==> NodeFor(p, c, j) in s)
  {
    RankingOrdered(p, c, k);
    RankingNodes(p, c, k);
    RankingComplete(p, c, k);
  }

  /** Every index in the list is a palette index. */
  ghost predicate IndicesInPalette(s: seq<Node>) {
    forall i :: 0 <= i < |s| ==> 0 <= s[i].index < PaletteSize
  }

  /** Position of the first node whose palette entry has parity `d` (|s| if none). */
  function FirstWithParity(p: seq<Rgb>, s: seq<Node>, d: int): (i: nat)
    requires IsPalette(p) && IndicesInPalette(s)
    ensures i <= |s|
  {
    if s == [] then 0
    else if Parity(p[s[0].index]) == d then 0
    else 1 + FirstWithParity(p, s[1..], d)
  }

  lemma {:induction false} FirstWithParitySpec(p: seq<Rgb>, s: seq<Node>, d: int)
    requires IsPalette(p) && IndicesInPalette(s)
    ensures forall k :: 0 <= k < FirstWithParity(p, s, d) ==> Parity(p[s[k].index]) != d
    ensures FirstWithParity(p, s, d) < |s| ==> Parity(p[s[FirstWithParity(p, s, d)].index]) == d
  {
    if s != [] && Parity(p[s[0].index]) != d {
      FirstWithParitySpec(p, s[1..], d);
      forall k | 1 <= k < FirstWithParity(p, s, d)
        ensures Parity(p[s[k].index]) != d
      {
        assert s[k] == s[1..][k - 1];
      }
    }
  }

  /** Palette entry `j` is at least as good a substitute for `c` as entry `k`. */
  predicate AtLeastAsNear(p: seq<Rgb>, c: Byte, j: Byte, k: Byte)
    requires IsPalette(p)
  {
    SqDist(p[c], p[j]) < SqDist(p[c], p[k])
    || (SqDist(p[c], p[j]) == SqDist(p[c], p[k]) && j >= k)
  }

  /**
   * Independent description of the substitute: an entry of parity `d` that
   * no other entry of parity `d` beats, by distance and then by higher index.
   */
  predicate NearestOfParity(p: seq<Rgb>, c: Byte, d: int, j: Byte)
    requires IsPalette(p)
  {
    && Parity(p[j]) == d
    && forall k: Byte :: Parity(p[k]) == d ==> AtLeastAsNear(p, c, j, k)
  }

  /** Where the scan over the ranking for colour `c` stops for bit `d`. */
  function ScanPos(p: seq<Rgb>, c: Byte, d: int): nat
    requires IsPalette(p)
  {
    RankingFacts(p, c, PaletteSize);
    FirstWithParity(p, Ranking(p, c, PaletteSize), d)
  }

  /** When some entry has parity `d`, the scan stops inside the ranking on an entry of parity `d`. */
  lemma ScanStops(p: seq<Rgb>, c: Byte, d: int)
    requires IsPalette(p) && HasParity(p, d)
    ensures var rank, pos := Ranking(p, c, PaletteSize), ScanPos(p, c, d);
      && IndicesInPalette(rank)
      && pos < |rank|
      && (forall k :: 0 <= k < pos ==> Parity(p[rank[k].index]) != d)
      && Parity(p[rank[pos].index]) == d
  {
    var rank := Ranking(p, c, PaletteSize);
    RankingFacts(p, c, PaletteSize);
    FirstWithParitySpec(p, rank, d);
    var w: Byte :| Parity(p[w]) == d;
    assert NodeFor(p, c, w) in rank;
  }

  /**
   * The substitute hideMessage picks for a pixel whose index is `c` when the
   * bit to hide is `d`: the first index in the ranking whose parity is `d`.
   */
  function Choose(p: seq<Rgb>, c: Byte, d: int): (j: Byte)
    requires IsPalette(p) && HasParity(p, d)
    ensures Parity(p[j]) == d
  {
    ScanStops(p, c, d);
    Ranking(p, c, PaletteSize)[ScanPos(p, c, d)].index
  }

  /**
   * The choice is the nearest entry of the wanted parity: every entry of
   * parity `d` sits later in the ranking, so none is strictly nearer, and
   * among equally near ones the choice has the highest index.
   */
  lemma ChooseIsNearest(p: seq<Rgb>, c: Byte, d: int)
    requires IsPalette(p) && HasParity(p, d)
    ensures NearestOfParity(p, c, d, Choose(p, c, d))
  {
    var rank, pos := Ranking(p, c, PaletteSize), ScanPos(p, c, d);
    RankingFacts(p, c, PaletteSize);
    ScanStops(p, c, d);
    var j: Byte := rank[pos].index;
    forall k: Byte | Parity(p[k]) == d
      ensures AtLeastAsNear(p, c, j, k)
    {
      assert NodeFor(p, c, k) in rank;
      var qk :| 0 <= qk < |rank| && rank[qk] == NodeFor(p, c, k);
      if qk != pos {
        assert pos < qk;
        assert Precedes(rank[pos], rank[qk]);
      }
    }
  }

  /** The choice is exactly the nearest entry of the wanted parity, and no other. */
  lemma ChooseCharacterized(p: seq<Rgb>, c: Byte, d: int, j: Byte)
    requires IsPalette(p) && HasParity(p, d)
    ensures NearestOfParity(p, c, d, j) <==> j == Choose(p, c, d)
  {
    ChooseIsNearest(p, c, d);
    if NearestOfParity(p, c, d, j) {
      var x := Choose(p, c, d);
      assert AtLeastAsNear(p, c, j, x) && AtLeastAsNear(p, c, x, j);
    }
  }

  /**
   * When the pixel's own colour already carries the bit, its colour does not
   * change; the index may still move to a higher index of the same colour.
   */
  lemma ChooseKeepsMatchingColour(p: seq<Rgb>, c: Byte, d: int)
    requires IsPalette(p) && Parity(p[c]) == d
    ensures HasParity(p, d)
    ensures p[Choose(p, c, d)] == p[c]
    ensures Choose(p, c, d) >= c
  {
    var j := Choose(p, c, d);
    ChooseIsNearest(p, c, d);
    assert AtLeastAsNear(p, c, j, c);
    assert SqDist(p[c], p[c]) == 0;
  }

  /** Every bit to be hidden has a palette entry that carries it. */
  ghost predicate Embeddable(p: seq<Rgb>, bits: seq<int>, msgSize: nat)
    requires IsPalette(p) && msgSize <= |bits|
  {
    forall q :: 0 <= q < msgSize ==> HasParity(p, bits[q])
  }

  /**
   * The image after embedding the first `msgSize` bits, computed without the
   * substitution cache.
   */
  function Embedded(p: seq<Rgb>, img: seq<Byte>, bits: seq<int>, msgSize: nat): (r: seq<Byte>)
    requires IsPalette(p) && msgSize <= |img| && msgSize <= |bits|
    requires Embeddable(p, bits, msgSize)
    ensures |r| == |img|
    ensures forall q :: 0 <= q < msgSize ==> Parity(p[r[q]]) == bits[q]
    ensures forall q :: msgSize <= q < |img| ==> r[q] == img[q]
  {
    seq(|img|, q requires 0 <= q < |img| => if q < msgSize then Choose(p, img[q], bits[q]) else img[q])
  }

  /** Every consumed pixel gets the nearest entry carrying its bit. */
  lemma EmbeddedNearest(p: seq<Rgb>, img: seq<Byte>, bits: seq<int>, msgSize: nat, q: nat)
    requires IsPalette(p) && msgSize <= |img| && msgSize <= |bits|
    requires Embeddable(p, bits, msgSize)
    requires q < msgSize
    ensures NearestOfParity(p, img[q], bits[q], Embedded(p, img, bits, msgSize)[q])
  {
    ChooseIsNearest(p, img[q], bits[q]);
  }

  /** Embedding one more bit rewrites exactly the next pixel. */
  lemma EmbeddedStep(p: seq<Rgb>, img: seq<Byte>, bits: seq<int>, msgSize: nat, n: nat)
    requires IsPalette(p) && msgSize <= |img| && msgSize <= |bits|
    requires Embeddable(p, bits, msgSize) && n < msgSize
    ensures Embeddable(p, bits, n) && Embeddable(p, bits, n + 1) && HasParity(p, bits[n])
    ensures Embedded(p, img, bits, n)[n := Choose(p, img[n], bits[n])] == Embedded(p, img, bits, n + 1)
  {
  }

  /** A cache cell is empty (-1) or holds what the ranking scan computes. */
  ghost predicate CacheAgrees(p: seq<Rgb>, cache: array2<int>)
    requires IsPalette(p)
    reads cache
  {
    && cache.Length0 == PaletteSize && cache.Length1 == 2
    && forall c: Byte, d :: 0 <= d < 2 ==>
         cache[c, d] == -1 || (HasParity(p, d) && cache[c, d] == Choose(p, c, d))
  }

  /**
   * The insertion loop of hideMessage: every palette index goes into a
   * fresh set, keyed by its distance to the pixel's colour.
   */
  method RankPalette(p: seq<Rgb>, current: Byte) returns (colorSet: DistanceSet)
    requires IsPalette(p)
    ensures fresh(colorSet) && colorSet.Valid()
    ensures colorSet.nodes == Ranking(p, current, PaletteSize)
  {
    colorSet := new DistanceSet();
    var i := 0;
    while i < PaletteSize
      invariant 0 <= i <= PaletteSize
      invariant fresh(colorSet) && colorSet.Valid() && colorSet.nodes == Ranking(p, current, i)
      modifies colorSet
    {
      RankingStep(p, current, i);
      var _ := colorSet.InsertElementSorted(SqDist(p[current], p[i]), i);
      i := i + 1;
    }
  }

  /**
   * hideMessage: walks pixels 0, 1, 2, ... consuming one bit per pixel and
   * rewriting the pixel's index in place.  A cache hit reuses an earlier
   * choice; a miss ranks the palette through the sorted list, copies the
   * ranked indices out and takes the first of the wanted parity.  The result
   * equals the cache-free embedding.
   */
  method HideMessage(p: seq<Rgb>, cvrImg: array<Byte>, msgDataBin: seq<Byte>, msgSize: nat)
    returns (stego: array<Byte>)
    requires IsPalette(p)
    requires msgSize <= cvrImg.Length && msgSize <= |msgDataBin|
    requires Embeddable(p, msgDataBin, msgSize)
    modifies cvrImg
    ensures stego == cvrImg
    ensures cvrImg[..] == Embedded(p, old(cvrImg[..]), msgDataBin, msgSize)
  {
    ghost var cover := cvrImg[..];
    var cacheOfIndex := new int[PaletteSize, 2]((_, _) => -1);
    assert CacheAgrees(p, cacheOfIndex);
    var pIndex := new int[PaletteSize](k => if k == 0 then -1 else 0);
    var binIndex := 0;
    var pixel := 0;
    while binIndex != msgSize
      invariant 0 <= binIndex == pixel <= msgSize
      invariant CacheAgrees(p, cacheOfIndex)
      invariant Embeddable(p, msgDataBin, pixel)
      invariant cvrImg[..] == Embedded(p, cover, msgDataBin, pixel)
      decreases msgSize - binIndex
    {
      var current := cvrImg[pixel];
      var bit := msgDataBin[binIndex];
      assert HasParity(p, bit);
      ghost var want := Choose(p, current, bit);
      EmbeddedStep(p, cover, msgDataBin, msgSize, pixel);
      if cacheOfIndex[current, bit] != -1 {
        assert cacheOfIndex[current, bit] == want;
        cvrImg[pixel] := cacheOfIndex[current, bit];
        binIndex := binIndex + 1;
        pixel := pixel + 1;
        continue;
      }
      var colorSet := RankPalette(p, current);
      colorSet.ColorDistance(pIndex);
      ScanStops(p, current, bit);
      ghost var rank, pos := Ranking(p, current, PaletteSize), ScanPos(p, current, bit);
      assert forall k :: 0 <= k < PaletteSize ==> pIndex[k] == rank[k].index;
      var i := 0;
      ghost var before := cvrImg[..];
      label scan:
      while i < PaletteSize
        invariant 0 <= i <= pos
        invariant binIndex == pixel
        invariant cvrImg[..] == before && unchanged@scan(cacheOfIndex)
        modifies cvrImg, cacheOfIndex
      {
        if Parity(p[pIndex[i]]) == bit {
          assert i == pos && pIndex[i] == want;
          cacheOfIndex[current, bit] := pIndex[i];
          assert CacheAgrees(p, cacheOfIndex);
          cvrImg[pixel] := pIndex[i];
          binIndex := binIndex + 1;
          pixel := pixel + 1;
          break;
        }
        i := i + 1;
      }
    }
    stego := cvrImg;
  }
}
