/**
 * The ordered list of (distance, palette index) nodes of setLinkedListImp.c.
 * The linked nodes from `start` to `end` are modelled as the sequence of
 * their values in list order.
 */
module SortedList {
  import opened Options

  datatype Node = Node(dist: int, index: int)

  /** Distances never decrease along the list. */
  ghost predicate Sorted(s: seq<Node>) {
    forall i, j :: 0 <= i < j < |s| ==> s[i].dist <= s[j].dist
  }

  /**
   * The order the list ends up in when indices are inserted in increasing
   * order: nearer first, and among equally near nodes the higher index first.
   */
  predicate Precedes(a: Node, b: Node) {
    a.dist < b.dist || (a.dist == b.dist && a.index > b.index)
  }

  ghost predicate StrictlyRanked(s: seq<Node>) {
    forall i, j :: 0 <= i < j < |s| ==> Precedes(s[i], s[j])
  }

  /**
   * Where the walk of setInsertElementSorted stops: at the first node whose
   * distance is at least `d`, or past the end.
   */
  function InsertPos(s: seq<Node>, d: int): (p: nat)
    ensures p <= |s|
  {
    if s == [] || s[0].dist >= d then 0 else 1 + InsertPos(s[1..], d)
  }

  lemma {:induction false} InsertPosSpec(s: seq<Node>, d: int)
    ensures forall k :: 0 <= k < InsertPos(s, d) ==> s[k].dist < d
    ensures InsertPos(s, d) < |s| ==> s[InsertPos(s, d)].dist >= d
  {
    if s != [] && s[0].dist < d {
      InsertPosSpec(s[1..], d);
      forall k | 1 <= k < InsertPos(s, d)
        ensures s[k].dist < d
      {
        assert s[k] == s[1..][k - 1];
      }
    }
  }

  /** The list after setInsertElementSorted links in node `n`. */
  function InsertSorted(s: seq<Node>, n: Node): (r: seq<Node>)
    ensures |r| == |s| + 1
  {
    var p := InsertPos(s, n.dist);
    s[..p] + [n] + s[p..]
  }

  /** Insertion adds exactly one node and removes none. */
  lemma InsertAddsOne(s: seq<Node>, n: Node)
    ensures multiset(InsertSorted(s, n)) == multiset(s) + multiset{n}
  {
    var p := InsertPos(s, n.dist);
    assert s == s[..p] + s[p..];
  }

  /** Element-wise view of an insertion at position `p`. */
  lemma InsertSortedAt(s: seq<Node>, n: Node, k: int)
    requires 0 <= k < |s| + 1
    ensures var p := InsertPos(s, n.dist);
      InsertSorted(s, n)[k] == if k < p then s[k] else if k == p then n else s[k - 1]
  {
    var p := InsertPos(s, n.dist);
    var front, back := s[..p], s[p..];
    assert InsertSorted(s, n) == (front + [n]) + back;
    if k > p {
      assert back[k - p - 1] == s[k - 1];
    }
  }

  /**
   * The new node sits immediately before the first old node whose distance is
   * at least its own, every node before it is strictly nearer, and the old
   * nodes keep their values and relative order.
   */
  lemma InsertPlacement(s: seq<Node>, n: Node, p: nat, r: seq<Node>)
    requires p == InsertPos(s, n.dist) && r == InsertSorted(s, n)
    ensures r[p] == n
    ensures r[..p] + r[p + 1..] == s
    ensures forall k :: 0 <= k < p ==> r[k].dist < n.dist
    ensures p < |s| ==> r[p + 1] == s[p] && s[p].dist >= n.dist
  {
    InsertPosSpec(s, n.dist);
    var front, back := s[..p], s[p..];
    assert r == front + [n] + back;
    assert r[..p] == front;
    assert r[p + 1..] == back;
    assert s == front + back;
    forall k | 0 <= k < p
      ensures r[k].dist < n.dist
    {
      assert r[k] == s[k];
    }
  }

  /** Inserting into a list sorted by distance keeps it sorted. */
  lemma InsertKeepsSorted(s: seq<Node>, n: Node)
    requires Sorted(s)
    ensures Sorted(InsertSorted(s, n))
  {
    var p, r := InsertPos(s, n.dist), InsertSorted(s, n);
    InsertPosSpec(s, n.dist);
    forall i, j | 0 <= i < j < |r|
      ensures r[i].dist <= r[j].dist
    {
      InsertSortedAt(s, n, i);
      InsertSortedAt(s, n, j);
      if i == p {
        assert s[p].dist >= n.dist;
      } else if j == p {
        assert r[i] == s[i];
      }
    }
  }

  /**
   * Tie placement: when every node already in the list has a lower index than
   * the new one, the list stays ordered by distance with the most recently
   * inserted node first among equal distances.
   */
  lemma InsertNewestFirst(s: seq<Node>, n: Node)
    requires StrictlyRanked(s)
    requires forall k :: 0 <= k < |s| ==> s[k].index < n.index
    ensures StrictlyRanked(InsertSorted(s, n))
  {
    var p, r := InsertPos(s, n.dist), InsertSorted(s, n);
    InsertPosSpec(s, n.dist);
    forall i, j | 0 <= i < j < |r|
      ensures Precedes(r[i], r[j])
    {
      InsertSortedAt(s, n, i);
      InsertSortedAt(s, n, j);
      if i == p {
        assert s[p].dist >= n.dist;
        assert j - 1 == p || Precedes(s[p], s[j - 1]);
      }
    }
  }

  function Min(a: int, b: int): int {
    if a < b then a else b
  }

  /** The list object: `nodes` runs from `start` to `end`. */
  class DistanceSet {
    var nodes: seq<Node>
    /** The node `end` designates; None stands for NULL. */
    var end: Option<Node>

    ghost predicate Valid()
      reads this
    {
      if nodes == [] then end == None else end == Some(nodes[|nodes| - 1])
    }

    /** setNew: an empty list, `start == end == NULL`. */
    constructor ()
      ensures Valid()
      ensures nodes == [] && end == None
    {
      nodes := [];
      end := None;
    }

    /**
     * setInsertElementSorted: walks to the first node whose distance is at
     * least `distance`, links the new node in before it, moves `end` only when
     * the new node has no successor, and returns the inserted index.
     */
    method InsertElementSorted(distance: int, index: int) returns (r: int)
      requires Valid()
      modifies this
      ensures Valid()
      ensures nodes == InsertSorted(old(nodes), Node(distance, index))
      ensures r == index
    {
      var insert := Node(distance, index);
      var curr := 0;  // position of `curr`; `prev` is the node before it
      while curr < |nodes|
        invariant curr <= |nodes|
        invariant forall k :: 0 <= k < curr ==> nodes[k].dist < distance
      {
        if nodes[curr].dist >= distance {
          break;
        }
        curr := curr + 1;
      }
      InsertPosSpec(nodes, distance);
      var p := InsertPos(nodes, distance);
      assert curr == p;
      var noSuccessor := curr == |nodes|;
      nodes := nodes[..curr] + [insert] + nodes[curr..];
      if noSuccessor {
        end := Some(insert);
      }
      r := index;
    }

    /**
     * setColorDistance: copies the index of the i-th node into pIndex[i] for
     * the first 256 nodes, and writes nothing else.
     */
    method ColorDistance(pIndex: array<int>)
      requires pIndex.Length >= Min(|nodes|, 256)
      modifies pIndex
      ensures forall i :: 0 <= i < Min(|nodes|, 256) ==> pIndex[i] == nodes[i].index
      ensures forall i :: Min(|nodes|, 256) <= i < pIndex.Length ==> pIndex[i] == old(pIndex[i])
    {
      var i := 0;
      while i < |nodes|
        invariant i <= |nodes| && i <= 256
        invariant forall k :: 0 <= k < i ==> pIndex[k] == nodes[k].index
        invariant forall k :: i <= k < pIndex.Length ==> pIndex[k] == old(pIndex[k])
      {
        if i == 256 {
          return;
        }
        pIndex[i] := nodes[i].index;
        i := i + 1;
      }
    }
  }
}
