/**
 The state of the hash map as plain values: which slots are live and in what order, which are
 free, which pairs they hold; and what each step of the map does to that state.
 */
module NodeTables {
  import opened Common
  import opened SlotLists
  import Bits
  import Arith

  const MAX_SIZE: nat := 0x8000_0000

  /** `get_bucket_index_by_hash`. */
  function BucketOf(hash: nat, bucketCount: nat): (b: nat)
    requires bucketCount > 0
    ensures b < bucketCount
  {
    Bits.AndAtMost(hash % 0x1_0000_0000, bucketCount - 1);
    Bits.And(hash % 0x1_0000_0000, bucketCount - 1)
  }

  /** For a power of two the mask is a remainder. */
  lemma BucketMeans(hash: nat, n: nat)
    requires Bits.IsPow2(n) && n <= MAX_SIZE
    ensures n > 0 && BucketOf(hash, n) == hash % n
  {
    var k: nat :| n == Bits.Pow2(k);
    Bits.AndMask(hash % 0x1_0000_0000, k);
    Bits.Pow2Words();
    if k > 31 { Bits.Pow2Monotone(32, k); }
    Arith.Pow2Add(32 - k, k);
    hide Bits.Pow2;
    var c := Bits.Pow2(32 - k);
    LowWord(hash, c, n);
  }

  /** The low word of a number has the same remainder by a divisor of 2^32. */
  lemma LowWord(hash: nat, c: nat, n: nat)
    requires n > 0 && c * n == 0x1_0000_0000
    ensures (hash % 0x1_0000_0000) % n == hash % n
  {
    var q, r := hash / 0x1_0000_0000, hash % 0x1_0000_0000;
    assert hash == (q * c) * n + r by {
      assert q * (c * n) == (q * c) * n;
    }
    Arith.ModShift(r, q * c, n);
  }

  /** The buckets of a list of pairs. */
  ghost function BucketsOf<K, V>(items: seq<(K, V)>, hash: K -> nat, n: nat): (bs: seq<nat>)
    requires n > 0 || items == []
    ensures |bs| == |items|
    ensures forall i :: 0 <= i < |items| ==> bs[i] == BucketOf(hash(items[i].0), n)
    ensures InRange(bs, n)
  {
    seq<nat>(|items|, i requires 0 <= i < |items| => BucketOf(hash(items[i].0), n))
  }

  ghost predicate HasKey<K, V>(items: seq<(K, V)>, k: K) {
    exists i :: 0 <= i < |items| && items[i].0 == k
  }

  ghost predicate KeysDistinct<K, V>(items: seq<(K, V)>) {
    forall i, j :: 0 <= i < j < |items| ==> items[i].0 != items[j].0
  }

  /** `items` lists exactly the pairs of `m`. */
  ghost predicate Represents<K(!new), V>(items: seq<(K, V)>, m: map<K, V>) {
    && KeysDistinct(items)
    && (forall i :: 0 <= i < |items| ==> items[i].0 in m && m[items[i].0] == items[i].1)
    && (forall k :: k in m ==> HasKey(items, k))
  }

  /** The live slots, in list order, hold the pairs `items`. */
  ghost predicate Holds<K, V>(ns: seq<Node<K, V>>, order: seq<nat>, items: seq<(K, V)>) {
    && |order| == |items|
    && InRange(order, |ns|)
    && (forall i {:trigger ns[order[i]].entry} :: 0 <= i < |order| ==> ns[order[i]].entry == Some(items[i]))
  }

  /** The live slots record the buckets `bs`. */
  ghost predicate Tagged<K, V>(ns: seq<Node<K, V>>, order: seq<nat>, bs: seq<nat>) {
    && |bs| == |order|
    && InRange(order, |ns|)
    && (forall i {:trigger ns[order[i]].bucketIdx} :: 0 <= i < |order| ==> ns[order[i]].bucketIdx == bs[i])
  }

  /** The node lists, without the buckets: `order` are the live slots holding the pairs `items`
      of the map `m`, `spare` the free ones. */
  ghost predicate Listed<K(!new), V>(ns: seq<Node<K, V>>, order: seq<nat>, spare: seq<nat>, items: seq<(K, V)>,
                                     m: map<K, V>) {
    && |ns| <= MAX_SIZE
    && Linked(ns, order)
    && FreeLinked(ns, spare)
    && Partition(|ns|, order, spare)
    && Holds(ns, order, items)
    && Represents(items, m)
  }

  // ---------------------------------------------------------------------------------------
  // Moving a live node
  // ---------------------------------------------------------------------------------------

  lemma RepresentsPermuted<K(!new), V>(items: seq<(K, V)>, from: nat, to: nat, m: map<K, V>)
    requires Represents(items, m) && to <= from < |items|
    ensures Represents(Relocate(items, from, to), m)
  {
    var r := Relocate(items, from, to);
    forall i, j | 0 <= i < j < |r| ensures r[i].0 != r[j].0 {
      var i', j' := MovedFrom(from, to, i), MovedFrom(from, to, j);
      assert i' != j' && items[i'].0 != items[j'].0;
    }
    forall i | 0 <= i < |r| ensures r[i].0 in m && m[r[i].0] == r[i].1 {
      assert r[i] == items[MovedFrom(from, to, i)];
    }
    forall k | k in m ensures HasKey(r, k) {
      assert HasKey(items, k);
      var i :| 0 <= i < |items| && items[i].0 == k;
      RelocateKeepsElement(items, from, to, i);
    }
  }

  lemma PartitionPermuted(n: nat, order: seq<nat>, spare: seq<nat>, from: nat, to: nat)
    requires Partition(n, order, spare) && to <= from < |order|
    ensures Partition(n, Relocate(order, from, to), spare)
  {
    var r := Relocate(order, from, to);
    forall x | 0 <= x < n ensures x in r || x in spare {
      if x in order {
        var i :| 0 <= i < |order| && order[i] == x;
        RelocateKeepsElement(order, from, to, i);
      }
    }
  }

  lemma HoldsPermuted<K, V>(ns: seq<Node<K, V>>, ns': seq<Node<K, V>>, order: seq<nat>, items: seq<(K, V)>, from: nat,
                            to: nat)
    requires Holds(ns, order, items) && OnlyLinksChanged(ns, ns', order) && to <= from < |order|
    ensures Holds(ns', Relocate(order, from, to), Relocate(items, from, to))
  {
    var r := Relocate(order, from, to);
    forall i | 0 <= i < |r| ensures r[i] < |ns| && ns'[r[i]].entry == Some(Relocate(items, from, to)[i]) {
      var i' := MovedFrom(from, to, i);
      assert r[i] == order[i'] && ns[order[i']].entry == Some(items[i']);
    }
  }

  /** Slot `x` is unlinked and then linked in between `p` and `n`. */
  ghost function Relinked<K, V>(ns: seq<Node<K, V>>, x: nat, p: nat, n: nat): (r: seq<Node<K, V>>)
    requires x < |ns| <= INVALID && (p == INVALID || p < |ns|) && (n == INVALID || n < |ns|)
    requires ns[x].prev == INVALID || ns[x].prev < |ns|
    requires ns[x].next == INVALID || ns[x].next < |ns|
    ensures |r| == |ns|
  {
    LinkedIn(Unlinked(ns, x), x, p, n)
  }

  /** The node array after list node `x` is moved in between `p` and `n`. */
  ghost function MovedNode<K, V>(ns: seq<Node<K, V>>, order: seq<nat>, from: nat, to: nat): (r: seq<Node<K, V>>)
    requires Linked(ns, order) && 0 < to < from < |order|
    ensures |r| == |ns|
  {
    RemoveLinked(ns, order, from);
    Relinked(ns, order[from], order[to - 1], order[to])
  }

  lemma MovedNodeLinks<K, V>(ns: seq<Node<K, V>>, order: seq<nat>, from: nat, to: nat)
    requires Linked(ns, order) && 0 < to < from < |order|
    ensures Linked(MovedNode(ns, order, from, to), Relocate(order, from, to))
    ensures OnlyLinksChanged(ns, MovedNode(ns, order, from, to), order)
  {
    hide Linked, OnlyLinksChanged, Distinct;
    LinkedInRange(ns, order);
    RemoveLinked(ns, order, from);
    var ns1, order1, x := Unlinked(ns, order[from]), RemoveAt(order, from), order[from];
    RemovedSlotAbsent(ns, order, from);
    assert At(order1, to - 1) == order[to - 1] && At(order1, to) == order[to];
    InsertLinked(ns1, order1, to, x);
    assert InRange(order1, |ns1|) by { LinkedInRange(ns1, order1); }
    InsertTouchesNeighbours(ns1, order1, to, x);
    OnlyLinksChangedTwice(ns, ns1, MovedNode(ns, order, from, to), order, order1 + [x]);
  }

  lemma OnlyLinksChangedTwice<K, V>(ns: seq<Node<K, V>>, ns1: seq<Node<K, V>>, ns2: seq<Node<K, V>>, s: seq<nat>,
                                    t: seq<nat>)
    requires OnlyLinksChanged(ns, ns1, s) && OnlyLinksChanged(ns1, ns2, t)
    requires forall y :: y in t ==> y in s
    ensures OnlyLinksChanged(ns, ns2, s)
  {
  }

  lemma LinkedInRange<K, V>(ns: seq<Node<K, V>>, order: seq<nat>)
    requires Linked(ns, order)
    ensures InRange(order, |ns|) && |ns| <= INVALID && Distinct(order)
  {
  }

  lemma RemovedSlotAbsent<K, V>(ns: seq<Node<K, V>>, order: seq<nat>, i: nat)
    requires Linked(ns, order) && i < |order|
    ensures order[i] !in RemoveAt(order, i)
  {
  }

  lemma ListedMoved<K(!new), V>(ns: seq<Node<K, V>>, order: seq<nat>, spare: seq<nat>,
                                items: seq<(K, V)>, m: map<K, V>, from: nat, to: nat)
    requires Listed(ns, order, spare, items, m) && 0 < to < from < |order|
    ensures Listed(MovedNode(ns, order, from, to), Relocate(order, from, to), spare, Relocate(items, from, to), m)
  {
    hide Linked, FreeLinked, Partition, Represents;
    MovedNodeLinks(ns, order, from, to);
    var ns' := MovedNode(ns, order, from, to);
    RepresentsPermuted(items, from, to, m);
    PartitionPermuted(|ns|, order, spare, from, to);
    HoldsPermuted(ns, ns', order, items, from, to);
    FreeListUntouched(ns, ns', order, spare);
  }

  // ---------------------------------------------------------------------------------------
  // Regrouping into buckets
  // ---------------------------------------------------------------------------------------

  /** The first `p` live nodes are tagged with and grouped by their buckets. */
  ghost predicate Regrouped<K, V>(ns: seq<Node<K, V>>, heads: seq<nat>, order: seq<nat>, items: seq<(K, V)>,
                                  hash: K -> nat, p: nat) {
    && |heads| > 0
    && p <= |order| == |items|
    && Tagged(ns, order[..p], BucketsOf(items[..p], hash, |heads|))
    && Runs(order[..p], BucketsOf(items[..p], hash, |heads|), heads)
  }

  lemma BucketsPrefix<K, V>(items: seq<(K, V)>, hash: K -> nat, n: nat, p: nat)
    requires n > 0 && p < |items|
    ensures BucketsOf(items[..p + 1], hash, n)
         == InsertAt(BucketsOf(items[..p], hash, n), p, BucketOf(hash(items[p].0), n))
  {
  }

  /** A node of a bucket without nodes stays where it is. */
  lemma RegroupFirst<K, V>(ns: seq<Node<K, V>>, heads: seq<nat>, order: seq<nat>, items: seq<(K, V)>, hash: K -> nat,
                           p: nat)
    requires Regrouped(ns, heads, order, items, hash, p) && p < |order|
    requires InRange(order, |ns|) && |ns| <= INVALID && Distinct(order)
    requires heads[BucketOf(hash(items[p].0), |heads|)] == INVALID
    ensures var b := BucketOf(hash(items[p].0), |heads|);
            Regrouped(ns[order[p] := ns[order[p]].(bucketIdx := b)], heads[b := order[p]], order, items, hash, p + 1)
  {
    hide Distinct;
    var b := BucketOf(hash(items[p].0), |heads|);
    var bs := BucketsOf(items[..p], hash, |heads|);
    hide Runs;
    RunsAppend(order[..p], bs, heads, order[p], b);
    BucketsPrefix(items, hash, |heads|, p);
    assert order[..p + 1] == InsertAt(order[..p], p, order[p]);
    TagNext(ns, order, bs, p, b);
  }

  lemma TagNext<K, V>(ns: seq<Node<K, V>>, order: seq<nat>, bs: seq<nat>, p: nat, b: nat)
    requires p < |order| && Tagged(ns, order[..p], bs) && InRange(order, |ns|) && Distinct(order)
    ensures Tagged(ns[order[p] := ns[order[p]].(bucketIdx := b)], order[..p + 1], InsertAt(bs, p, b))
  {
    var ns', o, o' := ns[order[p] := ns[order[p]].(bucketIdx := b)], order[..p], order[..p + 1];
    forall i | 0 <= i < |o'|
      ensures ns'[o'[i]].bucketIdx == InsertAt(bs, p, b)[i]
    {
      if i < p {
        assert o'[i] == o[i] && ns[o[i]].bucketIdx == bs[i];
      }
    }
  }

  /** A node of a bucket that has nodes ends up right behind the head of its bucket. */
  lemma RegroupNext<K, V>(ns: seq<Node<K, V>>, ns': seq<Node<K, V>>, heads: seq<nat>, order: seq<nat>,
                          items: seq<(K, V)>,
                          hash: K -> nat, p: nat, i: nat)
    requires Regrouped(ns, heads, order, items, hash, p) && i < p < |order|
    requires InRange(order, |ns|) && |ns| <= INVALID && Distinct(order)
    requires var b := BucketOf(hash(items[p].0), |heads|);
             && heads[b] == order[i] && BucketOf(hash(items[i].0), |heads|) == b
             && |ns'| == |ns|
             && ns'[order[p]].bucketIdx == b
             && (forall k {:trigger order[k]} :: 0 <= k < p ==> ns'[order[k]].bucketIdx == ns[order[k]].bucketIdx)
    ensures Regrouped(ns', heads, Relocate(order, p, i + 1), Relocate(items, p, i + 1), hash, p + 1)
  {
    RegroupedFacts(ns, heads, order, items, hash, p);
    hide Runs, Tagged, Distinct, RunStart, InsertAt, Relocate, BucketOf;
    var n := |heads|;
    var b := BucketOf(hash(items[p].0), n);
    var bs := BucketsOf(items[..p], hash, n);
    var items' := Relocate(items, p, i + 1);
    HeadIsStart(order[..p], bs, heads, i);
    RunsInsert(order[..p], bs, heads, order[p], i, true);
    RelocatePrefix(order, p, i + 1);
    RelocatePrefix(items, p, i + 1);
    assert BucketsOf(items'[..p + 1], hash, n) == InsertAt(bs, i + 1, b);
    TagMoved(ns, ns', order, bs, p, i, b);
  }

  lemma RegroupedFacts<K, V>(ns: seq<Node<K, V>>, heads: seq<nat>, order: seq<nat>, items: seq<(K, V)>, hash: K -> nat,
                             p: nat)
    requires Regrouped(ns, heads, order, items, hash, p) && Distinct(order) && InRange(order, INVALID)
    ensures |heads| > 0 && p <= |order| == |items|
    ensures Distinct(order[..p]) && InRange(order[..p], INVALID)
  {
  }

  lemma HeadIsStart(order: seq<nat>, bs: seq<nat>, heads: seq<nat>, i: nat)
    requires Runs(order, bs, heads) && Distinct(order) && InRange(order, INVALID)
    requires i < |order| && heads[bs[i]] == order[i]
    ensures RunStart(bs, i)
  {
    var s := HeadStarts(order, bs, heads, bs[i]);
  }

  lemma TagMoved<K, V>(ns: seq<Node<K, V>>, ns': seq<Node<K, V>>, order: seq<nat>, bs: seq<nat>, p: nat, i: nat, b: nat)
    requires i < p < |order| && InRange(order, |ns|) && |ns'| == |ns| && Tagged(ns, order[..p], bs)
    requires ns'[order[p]].bucketIdx == b
    requires forall k {:trigger order[k]} :: 0 <= k < p ==> ns'[order[k]].bucketIdx == ns[order[k]].bucketIdx
    ensures Tagged(ns', Relocate(order, p, i + 1)[..p + 1], InsertAt(bs, i + 1, b))
  {
    var r, bs' := Relocate(order, p, i + 1), InsertAt(bs, i + 1, b);
    forall k | 0 <= k < p + 1
      ensures r[k] < |ns| && ns'[r[k]].bucketIdx == bs'[k]
    {
      var j := MovedFrom(p, i + 1, k);
      assert r[k] == order[j];
      if j < p {
        assert order[..p][j] == order[j];
        assert ns[order[..p][j]].bucketIdx == bs[j];
      }
    }
  }

  function Retagged<K, V>(ns: seq<Node<K, V>>, x: nat, b: nat): seq<Node<K, V>>
    requires x < |ns|
  {
    ns[x := ns[x].(bucketIdx := b)]
  }

  lemma ListedRetagged<K(!new), V>(ns: seq<Node<K, V>>, order: seq<nat>, spare: seq<nat>, items: seq<(K, V)>, m: map<K,
                                   V>, x: nat, b: nat)
    requires Listed(ns, order, spare, items, m) && x < |ns|
    ensures Listed(Retagged(ns, x, b), order, spare, items, m)
  {
    hide Partition, Represents, Distinct;
    var ns' := Retagged(ns, x, b);
    assert forall y :: 0 <= y < |ns| ==>
          && ns'[y].prev == ns[y].prev && ns'[y].next == ns[y].next
          && ns'[y].entry == ns[y].entry;
  }

  /** The links of the live node at position `i`. */
  lemma LinksAt<K, V>(ns: seq<Node<K, V>>, order: seq<nat>, i: nat)
    requires Linked(ns, order) && i < |order|
    ensures order[i] < |ns| <= INVALID
    ensures ns[order[i]].prev == At(order, i - 1) && ns[order[i]].next == At(order, i + 1)
  {
  }

  /** The pair in the live node at position `i`. */
  lemma EntryAt<K, V>(ns: seq<Node<K, V>>, order: seq<nat>, items: seq<(K, V)>, i: nat)
    requires Holds(ns, order, items) && i < |order|
    ensures |items| == |order| && order[i] < |ns| && ns[order[i]].entry == Some(items[i])
  {
  }

  /** A walk along the list reaches the invalid index exactly behind the last node. */
  lemma AtEnd<K, V>(ns: seq<Node<K, V>>, order: seq<nat>)
    requires Linked(ns, order)
    ensures forall i :: 0 <= i <= |order| ==> (At(order, i) == INVALID <==> i == |order|)
    ensures forall i :: 0 <= i < |order| ==> At(order, i) == order[i]
  {
  }

  lemma TaggedPrefix<K, V>(ns: seq<Node<K, V>>, ns': seq<Node<K, V>>, order: seq<nat>, bs: seq<nat>)
    requires Tagged(ns, order, bs) && |ns| <= |ns'| && ns'[..|ns|] == ns
    ensures Tagged(ns', order, bs)
  {
    assert forall j :: 0 <= j < |ns| ==> ns'[j] == ns[j];
  }

  /** What the walk reads when it moves the node at position `p` behind the one at position `i`. */
  lemma MoveLinks<K, V>(ns: seq<Node<K, V>>, order: seq<nat>, p: nat, i: nat)
    requires Linked(ns, order) && i + 1 < p < |order|
    ensures |ns| <= INVALID && order[p] < |ns| && order[i] < |ns| && order[i + 1] < |ns|
    ensures order[p] != order[i] && order[p] != order[i + 1] && order[i] != INVALID && order[i + 1] != INVALID
    ensures ns[order[p]].prev == order[p - 1] && ns[order[i]].next == order[i + 1]
    ensures ns[order[p]].prev == INVALID || ns[order[p]].prev < |ns|
    ensures ns[order[p]].next == INVALID || ns[order[p]].next < |ns|
    ensures Relinked(ns, order[p], order[i], order[i + 1]) == MovedNode(ns, order, p, i + 1)
    ensures At(order, |order| - 1) == order[|order| - 1] && (order[|order| - 1] == order[p] <==> p + 1 == |order|)
    ensures order[p - 1] != order[p] && order[i] != order[i + 1]
  {
    LinksAt(ns, order, p);
    LinksAt(ns, order, i);
    AtInRange(ns, order, p + 1);
  }

  lemma RelocateEnds(order: seq<nat>, from: nat, to: nat)
    requires 0 < to < from < |order|
    ensures |Relocate(order, from, to)| == |order|
    ensures At(Relocate(order, from, to), 0) == At(order, 0)
    ensures At(Relocate(order, from, to), from + 1) == At(order, from + 1)
    ensures At(Relocate(order, from, to), |order| - 1) == if from + 1 == |order| then order[from - 1]
            else order[|order| - 1]
  {
  }

  lemma PositionUnique(order: seq<nat>, i: nat, j: nat)
    requires Distinct(order) && i < |order| && j < |order| && order[i] == order[j]
    ensures i == j
  {
  }

  /** The walk meets a node that is already right behind the head of its bucket. */
  lemma RegroupAdjacent<K, V>(ns: seq<Node<K, V>>, heads: seq<nat>, order: seq<nat>, items: seq<(K, V)>,
                              hash: K -> nat, p: nat)
    requires Linked(ns, order) && Regrouped(ns, heads, order, items, hash, p) && p < |order|
    requires order[p] < |ns| && ns[order[p]].prev != INVALID
    requires heads[BucketOf(hash(items[p].0), |heads|)] == ns[order[p]].prev
    ensures Regrouped(Retagged(ns, order[p], BucketOf(hash(items[p].0), |heads|)), heads, order, items, hash, p + 1)
  {
    LinksAt(ns, order, p);
    LinkedInRange(ns, order);
    RegroupedFacts(ns, heads, order, items, hash, p);
    var b := BucketOf(hash(items[p].0), |heads|);
    var i := BucketHead(ns, heads, order, items, hash, p, b);
    PositionUnique(order, i, p - 1);
    hide Linked, Distinct, Retagged, Runs, Tagged, RunStart, BucketOf;
    var bs := BucketsOf(items[..p], hash, |heads|);
    HeadIsStart(order[..p], bs, heads, p - 1);
    RunsInsert(order[..p], bs, heads, order[p], p - 1, true);
    BucketsPrefix(items, hash, |heads|, p);
    assert order[..p + 1] == InsertAt(order[..p], p, order[p]);
    TagNext(ns, order, bs, p, b);
    assert Retagged(ns, order[p], b) == ns[order[p] := ns[order[p]].(bucketIdx := b)] by
        { RetaggedIs(ns, order[p], b); }
  }

  lemma RetaggedIs<K, V>(ns: seq<Node<K, V>>, x: nat, b: nat)
    requires x < |ns|
    ensures Retagged(ns, x, b) == ns[x := ns[x].(bucketIdx := b)]
  {
  }

  lemma RetaggedElsewhere<K, V>(ns: seq<Node<K, V>>, order: seq<nat>, p: nat, b: nat)
    requires p < |order| && InRange(order, |ns|) && Distinct(order)
    ensures |Retagged(ns, order[p], b)| == |ns|
    ensures Retagged(ns, order[p], b)[order[p]].bucketIdx == b
    ensures forall k {:trigger order[k]} :: 0 <= k < p ==>
              Retagged(ns, order[p], b)[order[k]].bucketIdx == ns[order[k]].bucketIdx
  {
  }

  /** The recorded head of a bucket is one of the regrouped nodes. */
  lemma BucketHead<K, V>(ns: seq<Node<K, V>>, heads: seq<nat>, order: seq<nat>, items: seq<(K, V)>, hash: K -> nat,
                         p: nat, b: nat) returns (i: nat)
    requires Regrouped(ns, heads, order, items, hash, p) && b < |heads| && heads[b] != INVALID && Distinct(order)
    ensures i < p <= |order| == |items|
    ensures order[i] == heads[b] && BucketOf(hash(items[i].0), |heads|) == b
  {
    i := HeadStarts(order[..p], BucketsOf(items[..p], hash, |heads|), heads, b);
  }

  /** The walk meets a node that has to move right behind the head of its bucket. */
  lemma RegroupMove<K, V>(ns: seq<Node<K, V>>, heads: seq<nat>, order: seq<nat>, items: seq<(K, V)>, hash: K -> nat,
                          p: nat) returns (i: nat)
    requires Linked(ns, order) && Regrouped(ns, heads, order, items, hash, p) && p < |order|
    requires order[p] < |ns|
    requires var h := heads[BucketOf(hash(items[p].0), |heads|)]; h != INVALID && ns[order[p]].prev != h
    ensures i + 1 < p && order[i] == heads[BucketOf(hash(items[p].0), |heads|)]
    ensures var ns' := Retagged(ns, order[p], BucketOf(hash(items[p].0), |heads|));
            && Linked(ns', order)
            && Regrouped(MovedNode(ns', order, p, i + 1), heads, Relocate(order, p, i + 1), Relocate(items, p, i + 1),
                         hash, p + 1)
  {
    var b := BucketOf(hash(items[p].0), |heads|);
    RetaggedLinked(ns, order, order[p], b);
    LinksAt(ns, order, p);
    LinkedInRange(ns, order);
    RegroupedFacts(ns, heads, order, items, hash, p);
    hide Linked, Distinct, Regrouped, Retagged, Relocate, MovedNode, BucketOf;
    i := BucketHead(ns, heads, order, items, hash, p, b);
    assert i != p - 1;
    MovedNodeBuckets(ns, order, p, i + 1, b);
    RegroupNext(ns, MovedNode(Retagged(ns, order[p], b), order, p, i + 1), heads, order, items, hash, p, i);
  }

  /** What the walk reads at position `p`. */
  lemma WalkReads<K(!new), V>(ns: seq<Node<K, V>>, heads: seq<nat>, order: seq<nat>, spare: seq<nat>,
                              items: seq<(K, V)>, m: map<K, V>,
                              hash: K -> nat, p: nat)
    requires Listed(ns, order, spare, items, m) && Regrouped(ns, heads, order, items, hash, p) && p < |order|
    ensures |heads| > 0 && |items| == |order| && order[p] < |ns| <= INVALID
    ensures ns[order[p]].next == At(order, p + 1) && ns[order[p]].entry == Some(items[p])
  {
    LinksAt(ns, order, p);
    EntryAt(ns, order, items, p);
  }

  /** The walk meets a node of a bucket without nodes. */
  lemma RegroupFirstStep<K(!new), V>(ns: seq<Node<K, V>>, heads: seq<nat>, order: seq<nat>, spare: seq<nat>,
                                     items: seq<(K, V)>, m: map<K, V>,
                                     hash: K -> nat, p: nat, b: nat)
    requires Listed(ns, order, spare, items, m) && Regrouped(ns, heads, order, items, hash, p) && p < |order| == |items|
    requires order[p] < |ns| && |heads| > 0 && b == BucketOf(hash(items[p].0), |heads|) && heads[b] == INVALID
    ensures Listed(Retagged(ns, order[p], b), order, spare, items, m)
    ensures Regrouped(Retagged(ns, order[p], b), heads[b := order[p]], order, items, hash, p + 1)
    ensures SameEntries(ns, Retagged(ns, order[p], b))
  {
    LinkedInRange(ns, order);
    ListedRetagged(ns, order, spare, items, m, order[p], b);
    RetaggedSameEntries(ns, order[p], b);
    RetaggedIs(ns, order[p], b);
    hide Linked, FreeLinked, Partition, Holds, Represents, Regrouped, Retagged;
    RegroupFirst(ns, heads, order, items, hash, p);
  }

  /** The walk meets a node that is already in place. */
  lemma RegroupAdjacentStep<K(!new), V>(ns: seq<Node<K, V>>, heads: seq<nat>, order: seq<nat>, spare: seq<nat>,
                                        items: seq<(K, V)>, m: map<K, V>,
                                        hash: K -> nat, p: nat, b: nat)
    requires Listed(ns, order, spare, items, m) && Regrouped(ns, heads, order, items, hash, p) && p < |order| == |items|
    requires order[p] < |ns| && |heads| > 0 && b == BucketOf(hash(items[p].0), |heads|)
    requires heads[b] != INVALID && heads[b] == ns[order[p]].prev
    ensures Listed(Retagged(ns, order[p], b), order, spare, items, m)
    ensures Regrouped(Retagged(ns, order[p], b), heads, order, items, hash, p + 1)
    ensures SameEntries(ns, Retagged(ns, order[p], b))
  {
    ListedRetagged(ns, order, spare, items, m, order[p], b);
    RetaggedSameEntries(ns, order[p], b);
    hide Linked, FreeLinked, Partition, Holds, Represents, Regrouped, Retagged;
    RegroupAdjacent(ns, heads, order, items, hash, p);
  }

  /** Everything a move by the walk keeps or establishes. */
  lemma RegroupMoveStep<K(!new), V>(ns: seq<Node<K, V>>, heads: seq<nat>, order: seq<nat>, spare: seq<nat>,
                                    items: seq<(K, V)>,
                                    m: map<K, V>, hash: K -> nat, p: nat) returns (i: nat)
    requires Listed(ns, order, spare, items, m) && Regrouped(ns, heads, order, items, hash, p) && p < |order|
             && order[p] < |ns|
    requires var h := heads[BucketOf(hash(items[p].0), |heads|)]; h != INVALID && ns[order[p]].prev != h
    ensures i + 1 < p && order[i] == heads[BucketOf(hash(items[p].0), |heads|)]
    ensures Linked(Retagged(ns, order[p], BucketOf(hash(items[p].0), |heads|)), order)
    ensures var ns' := MovedNode(Retagged(ns, order[p], BucketOf(hash(items[p].0), |heads|)), order, p, i + 1);
            && Listed(ns', Relocate(order, p, i + 1), spare, Relocate(items, p, i + 1), m)
            && Regrouped(ns', heads, Relocate(order, p, i + 1), Relocate(items, p, i + 1), hash, p + 1)
            && SameEntries(ns, ns')
    ensures At(Relocate(order, p, i + 1), p + 1) == At(order, p + 1)
    ensures multiset(Relocate(order, p, i + 1)) == multiset(order)
    ensures multiset(Relocate(items, p, i + 1)) == multiset(items)
  {
    hide Linked, FreeLinked, Partition, Holds, Represents, Regrouped, BucketOf, Relocate, MovedNode, Retagged;
    RegroupedFacts(ns, heads, order, items, hash, p) by { LinkedInRange(ns, order); }
    i := RegroupMove(ns, heads, order, items, hash, p);
    var ns1 := Retagged(ns, order[p], BucketOf(hash(items[p].0), |heads|));
    ListedRetagged(ns, order, spare, items, m, order[p], BucketOf(hash(items[p].0), |heads|));
    ListedMoved(ns1, order, spare, items, m, p, i + 1);
    MovedNodeLinks(ns1, order, p, i + 1);
    RetaggedSameEntries(ns, order[p], BucketOf(hash(items[p].0), |heads|));
    RelocateEnds(order, p, i + 1);
    RelocatePermutes(order, p, i + 1);
    RelocatePermutes(items, p, i + 1);
  }

  ghost predicate SameEntries<K, V>(ns: seq<Node<K, V>>, ns': seq<Node<K, V>>) {
    |ns'| == |ns| && forall x :: 0 <= x < |ns| ==> ns'[x].entry == ns[x].entry
  }

  lemma RetaggedSameEntries<K, V>(ns: seq<Node<K, V>>, x: nat, b: nat)
    requires x < |ns|
    ensures SameEntries(ns, Retagged(ns, x, b))
  {
  }

  lemma MovedNodeBuckets<K, V>(ns: seq<Node<K, V>>, order: seq<nat>, p: nat, to: nat, b: nat)
    requires Linked(ns, order) && 0 < to < p < |order| && order[p] < |ns|
    requires Linked(Retagged(ns, order[p], b), order)
    ensures var ns' := MovedNode(Retagged(ns, order[p], b), order, p, to);
            && |ns'| == |ns| && InRange(order, |ns|)
            && ns'[order[p]].bucketIdx == b
            && (forall k {:trigger order[k]} :: 0 <= k < p ==> ns'[order[k]].bucketIdx == ns[order[k]].bucketIdx)
  {
    LinkedInRange(ns, order);
    hide Linked, MovedNode;
    RetaggedElsewhere(ns, order, p, b);
    MovedNodeLinks(Retagged(ns, order[p], b), order, p, to);
  }

  lemma RetaggedLinked<K, V>(ns: seq<Node<K, V>>, order: seq<nat>, x: nat, b: nat)
    requires Linked(ns, order) && x < |ns|
    ensures Linked(Retagged(ns, x, b), order)
  {
    var ns' := Retagged(ns, x, b);
    assert forall y :: 0 <= y < |ns| ==> ns'[y].prev == ns[y].prev && ns'[y].next == ns[y].next;
  }

  /** A walk over the whole list has tagged and grouped all of it. */
  lemma RegroupedAll<K, V>(ns: seq<Node<K, V>>, heads: seq<nat>, order: seq<nat>, items: seq<(K, V)>, hash: K -> nat)
    requires Regrouped(ns, heads, order, items, hash, |order|)
    ensures Tagged(ns, order, BucketsOf(items, hash, |heads|))
    ensures Runs(order, BucketsOf(items, hash, |heads|), heads)
  {
    assert order[..|order|] == order && items[..|order|] == items;
  }

  lemma RegroupedNone<K, V>(ns: seq<Node<K, V>>, heads: seq<nat>, order: seq<nat>, items: seq<(K, V)>, hash: K -> nat)
    requires |heads| > 0 && |order| == |items| && forall b :: 0 <= b < |heads| ==> heads[b] == INVALID
    ensures Regrouped(ns, heads, order, items, hash, 0)
  {
  }

  // ---------------------------------------------------------------------------------------
  // Moving all nodes to a bigger array
  // ---------------------------------------------------------------------------------------

  /** The slots `from`, `from + 1`, ..., `to - 1`. */
  ghost function Ascending(from: nat, to: nat): (s: seq<nat>)
    requires from <= to
    ensures |s| == to - from
    ensures forall i :: 0 <= i < |s| ==> s[i] == from + i
  {
    seq<nat>(to - from, i requires 0 <= i => from + i)
  }

  /** The new slots of `ns'` from `i` on are empty and chained upwards to `rest`. */
  ghost predicate Chained<K, V>(ns': seq<Node<K, V>>, i: nat, rest: nat) {
    && (forall j :: i <= j < |ns'| ==> ns'[j].entry.None?)
    && (forall j :: i <= j < |ns'| ==> ns'[j].next == if j + 1 < |ns'| then j + 1 else rest)
  }

  /** The first slots of `ns'` have the links of `ns`, but no entries. */
  ghost predicate LinksCopied<K, V>(ns: seq<Node<K, V>>, ns': seq<Node<K, V>>, i: nat) {
    i <= |ns| <= |ns'| && forall j :: 0 <= j < i ==> ns'[j] == ns[j].(entry := None)
  }

  /** The entries of the first `cnt` live slots have moved from `ns` (was `ns0`) to `ns'`. */
  ghost predicate EntriesMoved<K, V>(ns0: seq<Node<K, V>>, ns: seq<Node<K, V>>, ns': seq<Node<K, V>>, order: seq<nat>,
                                     cnt: nat) {
    && |ns| == |ns0| <= |ns'|
    && cnt <= |order|
    && (forall j :: 0 <= j < |ns0| ==> ns[j] == if j in order[..cnt] then ns0[j].(entry := None) else ns0[j])
    && (forall j :: 0 <= j < |ns0| ==> ns'[j] == if j in order[..cnt] then ns0[j] else ns0[j].(entry := None))
  }

  lemma EntriesMovedStep<K, V>(ns0: seq<Node<K, V>>, ns: seq<Node<K, V>>, ns': seq<Node<K, V>>, order: seq<nat>,
                               cnt: nat)
    requires EntriesMoved(ns0, ns, ns', order, cnt) && Linked(ns0, order) && cnt < |order|
    ensures order[cnt] < |ns| && order[cnt] < |ns'|
    ensures ns[order[cnt]] == ns0[order[cnt]] && ns[order[cnt]].next == At(order, cnt + 1)
    ensures var x := order[cnt];
            EntriesMoved(ns0, ns[x := ns[x].(entry := None)], ns'[x := ns'[x].(entry := ns[x].entry)], order, cnt + 1)
  {
    LinkedInRange(ns0, order);
    LinksAt(ns0, order, cnt);
    var x := order[cnt];
    assert x !in order[..cnt];
    assert order[..cnt + 1] == order[..cnt] + [x];
  }

  lemma AllEntriesMoved<K(!new), V>(ns0: seq<Node<K, V>>, ns: seq<Node<K, V>>, ns': seq<Node<K, V>>, order: seq<nat>,
                                    spare: seq<nat>,
                                    items: seq<(K, V)>, m: map<K, V>)
    requires Listed(ns0, order, spare, items, m) && EntriesMoved(ns0, ns, ns', order, |order|)
    requires Chained(ns', |ns0|, At(spare, 0)) && |ns'| <= MAX_SIZE
    ensures |ns'| >= |ns0| && ns'[..|ns0|] == ns0
    ensures Listed(ns', order, Ascending(|ns0|, |ns'|) + spare, items, m)
  {
    assert order[..|order|] == order;
    forall j | 0 <= j < |ns0| ensures ns'[j] == ns0[j] {
      if j !in order {
        var k :| 0 <= k < |spare| && spare[k] == j;
        assert ns0[spare[k]].entry.None?;
      }
    }
    hide Represents, Distinct, EntriesMoved;
    assert Linked(ns', order) by { hide FreeLinked, Holds, Partition; }
    assert Holds(ns', order, items) by { hide FreeLinked, Linked, Partition; }
    SpareExtended(ns0, ns', spare);
    PartitionExtended(|ns0|, |ns'|, order, spare);
  }

  lemma SpareExtended<K, V>(ns0: seq<Node<K, V>>, ns': seq<Node<K, V>>, spare: seq<nat>)
    requires FreeLinked(ns0, spare) && |ns0| <= |ns'| && Chained(ns', |ns0|, At(spare, 0))
    requires forall j :: 0 <= j < |ns0| ==> ns'[j] == ns0[j]
    ensures FreeLinked(ns', Ascending(|ns0|, |ns'|) + spare)
  {
    var up := Ascending(|ns0|, |ns'|);
    var r := up + spare;
    forall j | 0 <= j < |r| ensures r[j] < |ns'| && ns'[r[j]].next == At(r, j + 1) && ns'[r[j]].entry.None? {
      if j < |up| {
        assert r[j] == |ns0| + j;
      } else {
        var k := j - |up|;
        assert r[j] == spare[k] && ns0[spare[k]].next == At(spare, k + 1) && ns0[spare[k]].entry.None?;
      }
    }
    forall i, j | 0 <= i < j < |r| ensures r[i] != r[j] {
      if i >= |up| {
        assert spare[i - |up|] != spare[j - |up|];
      }
    }
  }

  lemma PartitionExtended(n: nat, n': nat, order: seq<nat>, spare: seq<nat>)
    requires Partition(n, order, spare) && n <= n' && InRange(order, n)
    ensures Partition(n', order, Ascending(n, n') + spare)
  {
    var up := Ascending(n, n');
    var r := up + spare;
    forall x | 0 <= x < n' ensures x in order || x in r {
      if x >= n {
        assert r[x - n] == x;
      } else if x !in order {
        var k :| 0 <= k < |spare| && spare[k] == x;
        assert r[|up| + k] == x;
      }
    }
    forall i, j | 0 <= i < |order| && 0 <= j < |r| ensures order[i] != r[j] {
      if j >= |up| { assert r[j] == spare[j - |up|]; }
    }
  }

  // ---------------------------------------------------------------------------------------
  // Adding and erasing a node
  // ---------------------------------------------------------------------------------------

  /** The node array after free slot `x` is filled with `kv` and linked in between `p` and `n`. */
  ghost function AddedNode<K, V>(ns: seq<Node<K, V>>, x: nat, p: nat, n: nat, b: nat, kv: (K, V)): (r: seq<Node<K, V>>)
    requires x < |ns| <= INVALID && (p == INVALID || p < |ns|) && (n == INVALID || n < |ns|)
    ensures |r| == |ns|
  {
    LinkedIn(ns[x := ns[x].(bucketIdx := b, entry := Some(kv))], x, p, n)
  }

  lemma AddedNodeKeeps<K, V>(ns: seq<Node<K, V>>, x: nat, p: nat, n: nat, b: nat, kv: (K, V))
    requires x < |ns| <= INVALID && (p == INVALID || p < |ns|) && (n == INVALID || n < |ns|) && p != x && n != x
    ensures var r := AddedNode(ns, x, p, n, b, kv);
            forall k :: 0 <= k < |ns| && k != x ==> r[k].bucketIdx == ns[k].bucketIdx && r[k].entry == ns[k].entry
  {
  }

  lemma InsertedInto(order: seq<nat>, i: nat, x: nat)
    requires i <= |order|
    ensures forall y :: y in InsertAt(order, i, x) <==> y in order || y == x
  {
    var r := InsertAt(order, i, x);
    assert forall k :: 0 <= k < |order| ==> order[k] == r[if k < i then k else k + 1];
    assert forall k :: 0 <= k < |r| ==> r[k] == if k < i then order[k] else if k == i then x else order[k - 1];
  }

  lemma AddedNodeLinks<K, V>(ns: seq<Node<K, V>>, order: seq<nat>, i: nat, x: nat, b: nat, kv: (K, V))
    requires Linked(ns, order) && i <= |order| && x < |ns| && x !in order
    ensures At(order, i - 1) == INVALID || At(order, i - 1) < |ns|
    ensures At(order, i) == INVALID || At(order, i) < |ns|
    ensures Linked(AddedNode(ns, x, At(order, i - 1), At(order, i), b, kv), InsertAt(order, i, x))
    ensures OnlyLinksChanged(ns[x := ns[x].(bucketIdx := b, entry := Some(kv))],
                             AddedNode(ns, x, At(order, i - 1), At(order, i), b, kv), order + [x])
  {
    var ns1 := ns[x := ns[x].(bucketIdx := b, entry := Some(kv))];
    FilledSlotKeepsList(ns, order, x, b, kv);
    hide Linked, OnlyLinksChanged;
    InsertLinked(ns1, order, i, x);
    assert InRange(order, |ns1|) && |ns1| <= INVALID by { LinkedInRange(ns1, order); }
    InsertTouchesNeighbours(ns1, order, i, x);
  }

  lemma FilledSlotKeepsList<K, V>(ns: seq<Node<K, V>>, order: seq<nat>, x: nat, b: nat, kv: (K, V))
    requires Linked(ns, order) && x < |ns| && x !in order
    ensures Linked(ns[x := ns[x].(bucketIdx := b, entry := Some(kv))], order)
  {
    assert forall k {:trigger order[k]} :: 0 <= k < |order| ==> order[k] != x;
  }

  lemma ListedAdded<K(!new), V>(ns: seq<Node<K, V>>, order: seq<nat>, spare: seq<nat>, items: seq<(K, V)>, m: map<K, V>,
                                i: nat, b: nat, kv: (K, V))
    requires Listed(ns, order, spare, items, m) && spare != [] && i <= |order| && kv.0 !in m
    ensures spare[0] < |ns| && spare[0] !in order
    ensures At(order, i - 1) == INVALID || At(order, i - 1) < |ns|
    ensures At(order, i) == INVALID || At(order, i) < |ns|
    ensures Listed(AddedNode(ns, spare[0], At(order, i - 1), At(order, i), b, kv),
                   InsertAt(order, i, spare[0]), spare[1..], InsertAt(items, i, kv), m[kv.0 := kv.1])
  {
    var x := spare[0];
    SpareFacts(ns, order, spare);
    hide Linked, FreeLinked, Partition, Represents, OnlyLinksChanged;
    AddedNodeLinks(ns, order, i, x, b, kv);
    var ns' := AddedNode(ns, x, At(order, i - 1), At(order, i), b, kv);
    RepresentsAdded(items, m, i, kv);
    PartitionAdded(|ns|, order, spare, i);
    HoldsAdded(ns, ns', order, items, i, x, b, kv);
    SpareTail(ns, ns', order, spare, b, kv);
  }

  lemma SpareFacts<K, V>(ns: seq<Node<K, V>>, order: seq<nat>, spare: seq<nat>)
    requires FreeLinked(ns, spare) && Partition(|ns|, order, spare) && spare != []
    ensures spare[0] < |ns| && spare[0] !in order
  {
  }

  lemma RepresentsAdded<K(!new), V>(items: seq<(K, V)>, m: map<K, V>, i: nat, kv: (K, V))
    requires Represents(items, m) && i <= |items| && kv.0 !in m
    ensures Represents(InsertAt(items, i, kv), m[kv.0 := kv.1])
  {
    var r, m' := InsertAt(items, i, kv), m[kv.0 := kv.1];
    forall j, k | 0 <= j < k < |r| ensures r[j].0 != r[k].0 {
      var j' := if j < i then j else j - 1;
      var k' := if k < i then k else k - 1;
      if j == i {
        assert items[k'].0 in m;
      } else if k == i {
        assert items[j'].0 in m;
      } else {
        assert items[j'].0 != items[k'].0;
      }
    }
    forall k | k in m' ensures HasKey(r, k) {
      if k == kv.0 {
        assert r[i].0 == k;
      } else {
        assert HasKey(items, k);
        var j :| 0 <= j < |items| && items[j].0 == k;
        assert r[if j < i then j else j + 1] == items[j];
      }
    }
    forall j | 0 <= j < |r| ensures r[j].0 in m' && m'[r[j].0] == r[j].1 {
      if j != i {
        var j' := if j < i then j else j - 1;
        assert r[j] == items[j'] && items[j'].0 in m;
      }
    }
  }

  lemma PartitionAdded(n: nat, order: seq<nat>, spare: seq<nat>, i: nat)
    requires Partition(n, order, spare) && spare != [] && i <= |order| && Distinct(spare)
    ensures Partition(n, InsertAt(order, i, spare[0]), spare[1..])
  {
    var r := InsertAt(order, i, spare[0]);
    forall x | 0 <= x < n ensures x in r || x in spare[1..] {
      if x in order {
        var j :| 0 <= j < |order| && order[j] == x;
        assert r[if j < i then j else j + 1] == x;
      } else {
        assert x in spare;
        if x == spare[0] { assert r[i] == x; }
      }
    }
    forall j, k | 0 <= j < |r| && 0 <= k < |spare[1..]| ensures r[j] != spare[1..][k] {
      assert spare[1..][k] == spare[k + 1];
    }
  }

  lemma HoldsAdded<K, V>(ns: seq<Node<K, V>>, ns': seq<Node<K, V>>, order: seq<nat>, items: seq<(K, V)>, i: nat,
                         x: nat, b: nat, kv: (K, V))
    requires Holds(ns, order, items) && i <= |order| && x < |ns| && x !in order
    requires OnlyLinksChanged(ns[x := ns[x].(bucketIdx := b, entry := Some(kv))], ns', order + [x])
    ensures Holds(ns', InsertAt(order, i, x), InsertAt(items, i, kv))
  {
    var r, t := InsertAt(order, i, x), InsertAt(items, i, kv);
    forall j | 0 <= j < |r| ensures r[j] < |ns| && ns'[r[j]].entry == Some(t[j]) {
      if j != i {
        var j' := if j < i then j else j - 1;
        assert r[j] == order[j'] && ns[order[j']].entry == Some(items[j']);
      }
    }
  }

  lemma TaggedAdded<K, V>(ns: seq<Node<K, V>>, ns': seq<Node<K, V>>, order: seq<nat>, bs: seq<nat>, i: nat, x: nat,
                          b: nat, kv: (K, V))
    requires Tagged(ns, order, bs) && i <= |order| && x < |ns| && x !in order
    requires OnlyLinksChanged(ns[x := ns[x].(bucketIdx := b, entry := Some(kv))], ns', order + [x])
    ensures Tagged(ns', InsertAt(order, i, x), InsertAt(bs, i, b))
  {
    var r, t := InsertAt(order, i, x), InsertAt(bs, i, b);
    forall j | 0 <= j < |r| ensures r[j] < |ns| && ns'[r[j]].bucketIdx == t[j] {
      if j != i {
        var j' := if j < i then j else j - 1;
        assert r[j] == order[j'] && ns[order[j']].bucketIdx == bs[j'];
      }
    }
  }

  lemma SpareTail<K, V>(ns: seq<Node<K, V>>, ns': seq<Node<K, V>>, order: seq<nat>, spare: seq<nat>, b: nat, kv: (K, V))
    requires FreeLinked(ns, spare) && Partition(|ns|, order, spare) && spare != []
    requires var x := spare[0];
             OnlyLinksChanged(ns[x := ns[x].(bucketIdx := b, entry := Some(kv))], ns', order + [x])
    ensures FreeLinked(ns', spare[1..])
  {
    var r := spare[1..];
    forall j | 0 <= j < |r| ensures r[j] < |ns| && ns'[r[j]].next == At(r, j + 1) && ns'[r[j]].entry.None? {
      assert r[j] == spare[j + 1] && r[j] !in order + [spare[0]];
      assert ns[spare[j + 1]].next == At(spare, j + 2) && ns[spare[j + 1]].entry.None?;
    }
  }

  /** The node array after the list node `x` is returned to the free list headed by `free`. */
  ghost function ErasedNode<K, V>(ns: seq<Node<K, V>>, x: nat, free: nat): (r: seq<Node<K, V>>)
    requires x < |ns| <= INVALID
    requires ns[x].prev == INVALID || ns[x].prev < |ns|
    requires ns[x].next == INVALID || ns[x].next < |ns|
    ensures |r| == |ns|
  {
    var u := Unlinked(ns, x);
    u[x := u[x].(next := free, entry := None)]
  }

  /** Apart from one slot, all entries stay, and all slots keep their buckets. */
  ghost predicate OthersKept<K, V>(ns: seq<Node<K, V>>, ns': seq<Node<K, V>>, x: nat) {
    && |ns'| == |ns|
    && (forall k :: 0 <= k < |ns| ==> ns'[k].bucketIdx == ns[k].bucketIdx)
    && (forall k :: 0 <= k < |ns| && k != x ==> ns'[k].entry == ns[k].entry)
  }

  lemma ErasedNodeKeeps<K, V>(ns: seq<Node<K, V>>, x: nat, free: nat)
    requires x < |ns| <= INVALID
    requires ns[x].prev == INVALID || ns[x].prev < |ns|
    requires ns[x].next == INVALID || ns[x].next < |ns|
    ensures OthersKept(ns, ErasedNode(ns, x, free), x)
  {
  }

  /** Removing one of several different elements removes only that one. */
  lemma RemovedFrom<K, V>(ns: seq<Node<K, V>>, order: seq<nat>, i: nat)
    requires Linked(ns, order) && i < |order|
    ensures forall x :: x in RemoveAt(order, i) <==> x in order && x != order[i]
  {
    var r := RemoveAt(order, i);
    assert forall k :: 0 <= k < |order| && k != i ==> order[k] == r[if k < i then k else k - 1];
    assert forall k :: 0 <= k < |r| ==> r[k] == order[if k < i then k else k + 1];
  }

  /** Two live slots with the same key are the same slot. */
  lemma KeySlotUnique<K(!new), V>(ns: seq<Node<K, V>>, order: seq<nat>, spare: seq<nat>, items: seq<(K, V)>, m: map<K,
                                  V>, x: nat)
    requires Listed(ns, order, spare, items, m) && x in order
    ensures x < |ns| && ns[x].entry.Some? && ns[x].entry.value.0 in m
    ensures forall y :: y in order ==>
              && y < |ns| && ns[y].entry.Some?
              && (ns[y].entry.value.0 == ns[x].entry.value.0 <==> y == x)
  {
    hide FreeLinked, Partition;
    LinkedInRange(ns, order);
    forall i | 0 <= i < |order| ensures i < |items| && order[i] < |ns| && ns[order[i]].entry == Some(items[i]) {
      EntryAt(ns, order, items, i);
    }
  }

  lemma ErasedNodeLinks<K, V>(ns: seq<Node<K, V>>, order: seq<nat>, i: nat, free: nat)
    requires Linked(ns, order) && i < |order|
    ensures ns[order[i]].prev == INVALID || ns[order[i]].prev < |ns|
    ensures ns[order[i]].next == INVALID || ns[order[i]].next < |ns|
    ensures Linked(ErasedNode(ns, order[i], free), RemoveAt(order, i))
    ensures ErasedNode(ns, order[i], free)[order[i]] == ns[order[i]].(next := free, entry := None)
    ensures forall y :: 0 <= y < |ns| && y != order[i] ==>
              ErasedNode(ns, order[i], free)[y].entry == ns[y].entry
                  && ErasedNode(ns, order[i], free)[y].bucketIdx == ns[y].bucketIdx
    ensures forall y :: 0 <= y < |ns| && y !in order ==> ErasedNode(ns, order[i], free)[y] == ns[y]
  {
    RemoveLinked(ns, order, i);
    RemovedSlotAbsent(ns, order, i);
    var u, x := Unlinked(ns, order[i]), order[i];
    ErasedSlotKeepsList(u, RemoveAt(order, i), x, free);
  }

  lemma ErasedSlotKeepsList<K, V>(ns: seq<Node<K, V>>, order: seq<nat>, x: nat, free: nat)
    requires Linked(ns, order) && x < |ns| && x !in order
    ensures Linked(ns[x := ns[x].(next := free, entry := None)], order)
  {
    assert forall k {:trigger order[k]} :: 0 <= k < |order| ==> order[k] != x;
  }

  lemma ListedErased<K(!new), V>(ns: seq<Node<K, V>>, order: seq<nat>, spare: seq<nat>, items: seq<(K, V)>, m: map<K,
                                 V>, i: nat)
    requires Listed(ns, order, spare, items, m) && i < |order|
    ensures ns[order[i]].prev == INVALID || ns[order[i]].prev < |ns|
    ensures ns[order[i]].next == INVALID || ns[order[i]].next < |ns|
    ensures Listed(ErasedNode(ns, order[i], At(spare, 0)), RemoveAt(order, i), [order[i]] + spare, RemoveAt(items, i),
                   m - {items[i].0})
  {
    hide Linked, FreeLinked, Partition, Represents;
    var x, free := order[i], At(spare, 0);
    LinkedInRange(ns, order);
    ErasedNodeLinks(ns, order, i, free);
    var ns' := ErasedNode(ns, x, free);
    RepresentsErased(items, m, i);
    PartitionErased(|ns|, order, spare, i);
    HoldsErased(ns, ns', order, items, i);
    SpareGrown(ns, ns', order, spare, i);
  }

  lemma RepresentsErased<K(!new), V>(items: seq<(K, V)>, m: map<K, V>, i: nat)
    requires Represents(items, m) && i < |items|
    ensures Represents(RemoveAt(items, i), m - {items[i].0})
  {
    var r, m' := RemoveAt(items, i), m - {items[i].0};
    forall j, k | 0 <= j < k < |r| ensures r[j].0 != r[k].0 {
      var j' := if j < i then j else j + 1;
      var k' := if k < i then k else k + 1;
      assert items[j'].0 != items[k'].0;
    }
    forall j | 0 <= j < |r| ensures r[j].0 in m' && m'[r[j].0] == r[j].1 {
      var j' := if j < i then j else j + 1;
      assert r[j] == items[j'] && items[j'].0 in m && items[j'].0 != items[i].0;
    }
    forall k | k in m' ensures HasKey(r, k) {
      assert HasKey(items, k);
      var j :| 0 <= j < |items| && items[j].0 == k;
      assert r[if j < i then j else j - 1] == items[j];
    }
  }

  lemma PartitionErased(n: nat, order: seq<nat>, spare: seq<nat>, i: nat)
    requires Partition(n, order, spare) && i < |order| && Distinct(order)
    ensures Partition(n, RemoveAt(order, i), [order[i]] + spare)
  {
    var r, t := RemoveAt(order, i), [order[i]] + spare;
    forall x | 0 <= x < n ensures x in r || x in t {
      if x in order {
        var j :| 0 <= j < |order| && order[j] == x;
        if j == i {
          assert t[0] == x;
        } else {
          assert r[if j < i then j else j - 1] == x;
        }
      }
    }
    forall j, k | 0 <= j < |r| && 0 <= k < |t| ensures r[j] != t[k] {
      var j' := if j < i then j else j + 1;
      assert r[j] == order[j'] && order[j'] != order[i];
      if k > 0 { assert t[k] == spare[k - 1]; }
    }
  }

  lemma HoldsErased<K, V>(ns: seq<Node<K, V>>, ns': seq<Node<K, V>>, order: seq<nat>, items: seq<(K, V)>, i: nat)
    requires Holds(ns, order, items) && i < |order| && |ns'| == |ns| && Distinct(order)
    requires forall y :: 0 <= y < |ns| && y != order[i] ==> ns'[y].entry == ns[y].entry
    ensures Holds(ns', RemoveAt(order, i), RemoveAt(items, i))
  {
    var r, t := RemoveAt(order, i), RemoveAt(items, i);
    forall j | 0 <= j < |r| ensures r[j] < |ns| && ns'[r[j]].entry == Some(t[j]) {
      var j' := if j < i then j else j + 1;
      assert r[j] == order[j'] && order[j'] != order[i] && ns[order[j']].entry == Some(items[j']);
    }
  }

  lemma TaggedErased<K, V>(ns: seq<Node<K, V>>, ns': seq<Node<K, V>>, order: seq<nat>, bs: seq<nat>, i: nat)
    requires Tagged(ns, order, bs) && i < |order| && |ns'| == |ns| && Distinct(order)
    requires forall y :: 0 <= y < |ns| && y != order[i] ==> ns'[y].bucketIdx == ns[y].bucketIdx
    ensures Tagged(ns', RemoveAt(order, i), RemoveAt(bs, i))
  {
    var r, t := RemoveAt(order, i), RemoveAt(bs, i);
    forall j | 0 <= j < |r| ensures r[j] < |ns| && ns'[r[j]].bucketIdx == t[j] {
      var j' := if j < i then j else j + 1;
      assert r[j] == order[j'] && order[j'] != order[i] && ns[order[j']].bucketIdx == bs[j'];
    }
  }

  lemma SpareGrown<K, V>(ns: seq<Node<K, V>>, ns': seq<Node<K, V>>, order: seq<nat>, spare: seq<nat>, i: nat)
    requires FreeLinked(ns, spare) && Partition(|ns|, order, spare) && InRange(order, |ns|) && i < |order|
             && |ns'| == |ns|
    requires ns'[order[i]].next == At(spare, 0) && ns'[order[i]].entry.None?
    requires forall y :: 0 <= y < |ns| && y !in order ==> ns'[y] == ns[y]
    ensures FreeLinked(ns', [order[i]] + spare)
  {
    var r := [order[i]] + spare;
    forall j | 0 <= j < |r| ensures r[j] < |ns| && ns'[r[j]].next == At(r, j + 1) && ns'[r[j]].entry.None? {
      if j > 0 {
        assert r[j] == spare[j - 1] && r[j] !in order;
        assert ns[spare[j - 1]].next == At(spare, j) && ns[spare[j - 1]].entry.None?;
      }
    }
    assert forall j {:trigger r[j]} :: 0 < j < |r| ==> r[j] == spare[j - 1] && r[0] != spare[j - 1];
  }

  // ---------------------------------------------------------------------------------------
  // Looking a key up
  // ---------------------------------------------------------------------------------------

  /** No node of a bucket without head. */
  lemma NoHeadNoNode(order: seq<nat>, bs: seq<nat>, heads: seq<nat>, b: nat)
    requires Runs(order, bs, heads) && b < |heads| && heads[b] == INVALID && InRange(order, INVALID)
    ensures forall i :: 0 <= i < |bs| ==> bs[i] != b
  {
    forall i | 0 <= i < |bs| ensures bs[i] != b {
      if bs[i] == b {
        var s := RunOf(order, bs, heads, i);
      }
    }
  }

  /** A run that has been walked from its start to its end contains all nodes of its bucket. */
  lemma WalkedRunIsBucket(order: seq<nat>, bs: seq<nat>, heads: seq<nat>, s: nat, j: nat)
    requires Runs(order, bs, heads) && Distinct(order) && InRange(order, INVALID)
    requires s < j <= |bs| && RunStart(bs, s) && (j == |bs| || bs[j] != bs[s])
    ensures forall i :: 0 <= i < |bs| && bs[i] == bs[s] ==> s <= i < j
  {
    forall i | 0 <= i < |bs| && bs[i] == bs[s] ensures s <= i < j {
      var r := RunOf(order, bs, heads, i);
      assert heads[bs[s]] == order[s];
      PositionUnique(order, r, s);
    }
  }

  /** What a look-up reads before it walks. */
  lemma SearchReads<K(!new), V>(ns: seq<Node<K, V>>, heads: seq<nat>, order: seq<nat>, spare: seq<nat>,
                                items: seq<(K, V)>, m: map<K, V>,
                                hash: K -> nat, b: nat) returns (s: nat)
    requires Listed(ns, order, spare, items, m) && b < |heads|
    requires Runs(order, BucketsOf(items, hash, |heads|), heads)
    ensures Linked(ns, order) && Holds(ns, order, items) && Represents(items, m) && |order| == |items|
    ensures Distinct(order) && InRange(order, INVALID)
    ensures forall i :: 0 <= i <= |order| ==> (At(order, i) == INVALID <==> i == |order|)
    ensures heads[b] == INVALID ==> s == 0
    ensures heads[b] != INVALID ==>
              s < |order| && heads[b] == At(order, s) && BucketsOf(items, hash, |heads|)[s] == b
              && RunStart(BucketsOf(items, hash, |heads|), s)
  {
    LinkedInRange(ns, order);
    AtEnd(ns, order);
    EntriesListed(ns, order, items);
    s := 0;
    if heads[b] != INVALID {
      s := HeadStarts(order, BucketsOf(items, hash, |heads|), heads, b);
    }
  }

  /** What a look-up in bucket `b` has seen: positions `s` to `j` are in the bucket and hold other keys. */
  ghost predicate Searched<K, V>(items: seq<(K, V)>, bs: seq<nat>, b: nat, key: K, s: nat, j: nat) {
    && s <= j <= |items| == |bs|
    && (forall i :: s <= i < j ==> items[i].0 != key && bs[i] == b)
  }

  lemma SearchedNone<K, V>(items: seq<(K, V)>, bs: seq<nat>, b: nat, key: K, s: nat)
    requires s <= |items| == |bs|
    ensures Searched(items, bs, b, key, s, s)
  {
  }

  lemma SearchedNext<K, V>(items: seq<(K, V)>, bs: seq<nat>, b: nat, key: K, s: nat, j: nat)
    requires Searched(items, bs, b, key, s, j) && j < |items|
    ensures items[j].0 != key && bs[j] == b ==> Searched(items, bs, b, key, s, j + 1)
  {
  }

  /** What the search reads at a live node. */
  lemma SearchAt<K, V>(ns: seq<Node<K, V>>, order: seq<nat>, items: seq<(K, V)>, bs: seq<nat>, j: nat)
    requires Linked(ns, order) && Holds(ns, order, items) && Tagged(ns, order, bs) && j < |order|
    ensures At(order, j) == order[j] && order[j] in order && order[j] < |ns| <= INVALID && j < |items| && j < |bs|
    ensures ns[order[j]].entry == Some(items[j]) && ns[order[j]].bucketIdx == bs[j]
            && ns[order[j]].next == At(order, j + 1)
  {
    assert |bs| == |order|;
    TagAt(ns, order, bs, j);
  }

  lemma SearchEnds<K(!new), V>(order: seq<nat>, items: seq<(K, V)>, m: map<K, V>, heads: seq<nat>, hash: K -> nat,
                               key: K, s: nat, j: nat)
    requires |heads| > 0 && |order| == |items| && Represents(items, m)
    requires Runs(order, BucketsOf(items, hash, |heads|), heads) && Distinct(order) && InRange(order, INVALID)
    requires var b := BucketOf(hash(key), |heads|); var bs := BucketsOf(items, hash, |heads|);
             && Searched(items, bs, b, key, s, j)
             && (heads[b] != INVALID ==> s < |bs| && bs[s] == b && RunStart(bs, s))
             && (heads[b] == INVALID || j == |bs| || bs[j] != b)
    ensures key !in m
  {
    var b := BucketOf(hash(key), |heads|);
    var bs := BucketsOf(items, hash, |heads|);
    if key in m {
      assert HasKey(items, key);
      var i :| 0 <= i < |items| && items[i].0 == key;
      assert bs[i] == b;
      if heads[b] == INVALID {
        NoHeadNoNode(order, bs, heads, b);
      } else {
        WalkedRunIsBucket(order, bs, heads, s, j);
      }
    }
  }

  lemma PairAt<K(!new), V>(items: seq<(K, V)>, m: map<K, V>, i: nat)
    requires Represents(items, m) && i < |items|
    ensures items[i].0 in m && m[items[i].0] == items[i].1
  {
  }

  // ---------------------------------------------------------------------------------------
  // The buckets after an insertion or an erasure
  // ---------------------------------------------------------------------------------------

  /** The position at which a new node of bucket `b` goes: right before the run of the bucket, or
      at the end of the list. */
  lemma AddPosition(order: seq<nat>, bs: seq<nat>, heads: seq<nat>, b: nat, x: nat) returns (i: nat)
    requires Runs(order, bs, heads) && Distinct(order) && InRange(order, INVALID) && b < |heads|
    ensures i <= |order| && heads[b] == At(order, i)
    ensures heads[b] == INVALID <==> i == |order|
    ensures Runs(InsertAt(order, i, x), InsertAt(bs, i, b), heads[b := x])
  {
    if heads[b] == INVALID {
      i := |order|;
      RunsAppend(order, bs, heads, x, b);
    } else {
      i := HeadStarts(order, bs, heads, b);
      RunsInsert(order, bs, heads, x, i, false);
    }
  }

  lemma BucketsInserted<K, V>(items: seq<(K, V)>, hash: K -> nat, n: nat, i: nat, kv: (K, V))
    requires n > 0 && i <= |items|
    ensures BucketsOf(InsertAt(items, i, kv), hash, n)
            == InsertAt(BucketsOf(items, hash, n), i, BucketOf(hash(kv.0), n))
  {
  }

  lemma BucketsRemoved<K, V>(items: seq<(K, V)>, hash: K -> nat, n: nat, i: nat)
    requires n > 0 && i < |items|
    ensures BucketsOf(RemoveAt(items, i), hash, n) == RemoveAt(BucketsOf(items, hash, n), i)
  {
  }

  /** Everything an insertion at position `i` keeps or establishes. */
  lemma AddStep<K(!new), V>(ns: seq<Node<K, V>>, heads: seq<nat>, order: seq<nat>, spare: seq<nat>, items: seq<(K, V)>,
                            m: map<K, V>,
                            hash: K -> nat, kv: (K, V)) returns (i: nat)
    requires Listed(ns, order, spare, items, m) && spare != [] && kv.0 !in m && |heads| > 0
    requires Tagged(ns, order, BucketsOf(items, hash, |heads|)) && Runs(order, BucketsOf(items, hash, |heads|), heads)
    ensures i <= |order| == |items| && spare[0] < |ns| <= INVALID && spare[0] !in order
    ensures var b := BucketOf(hash(kv.0), |heads|);
            && heads[b] == At(order, i)
            && (heads[b] == INVALID <==> i == |order|)
            && (heads[b] != INVALID ==> heads[b] < |ns| && ns[heads[b]].prev == At(order, i - 1))
    ensures At(order, i - 1) == INVALID <==> i == 0
    ensures At(order, i - 1) == INVALID || At(order, i - 1) < |ns|
    ensures At(order, i - 1) != spare[0] && At(order, i) != spare[0]
    ensures ns[spare[0]].next == At(spare[1..], 0)
    ensures var b, x := BucketOf(hash(kv.0), |heads|), spare[0];
            var ns' := AddedNode(ns, x, At(order, i - 1), At(order, i), b, kv);
            var items' := InsertAt(items, i, kv);
            && Listed(ns', InsertAt(order, i, x), spare[1..], items', m[kv.0 := kv.1])
            && Tagged(ns', InsertAt(order, i, x), BucketsOf(items', hash, |heads|))
            && Runs(InsertAt(order, i, x), BucketsOf(items', hash, |heads|), heads[b := x])
  {
    var bs := BucketsOf(items, hash, |heads|);
    var b, x := BucketOf(hash(kv.0), |heads|), spare[0];
    LinkedInRange(ns, order);
    AtEnd(ns, order);
    SpareFacts(ns, order, spare);
    EntriesListed(ns, order, items);
    SpareNext(ns, spare);
    hide Linked, FreeLinked, Partition, Represents, Holds, Runs, Tagged, Distinct, BucketOf, OnlyLinksChanged;
    i := AddPosition(order, bs, heads, b, x);
    if i < |order| { LinksAt(ns, order, i); }
    ListedAdded(ns, order, spare, items, m, i, b, kv);
    AddedNodeLinks(ns, order, i, x, b, kv);
    TaggedAdded(ns, AddedNode(ns, x, At(order, i - 1), At(order, i), b, kv), order, bs, i, x, b, kv);
    BucketsInserted(items, hash, |heads|, i, kv);
  }

  /** Without free slots, all slots are live. */
  lemma AllSlotsLive(n: nat, order: seq<nat>, spare: seq<nat>)
    requires Partition(n, order, spare) && Distinct(order) && InRange(order, n) && spare == []
    ensures |order| == n
  {
    DistinctCount(order);
    assert Below(n) == Elements(order);
  }

  function Below(n: nat): (s: set<nat>)
    ensures |s| == n
    ensures forall x: nat :: x in s <==> x < n
  {
    if n == 0 then {} else Below(n - 1) + {n - 1}
  }

  function Elements(s: seq<nat>): set<nat> {
    set x | x in s
  }

  lemma {:induction false} DistinctCount(s: seq<nat>)
    requires Distinct(s)
    ensures |Elements(s)| == |s|
  {
    if s == [] {
      assert Elements(s) == {};
    } else {
      var t, x := s[..|s| - 1], s[|s| - 1];
      DistinctCount(t);
      assert s == t + [x];
      assert x !in Elements(t);
      assert Elements(s) == Elements(t) + {x};
    }
  }

  /** There are no more live nodes than slots. */
  lemma LiveAtMost(n: nat, order: seq<nat>)
    requires Distinct(order) && InRange(order, n)
    ensures |order| <= n
  {
    DistinctCount(order);
    SubsetSize(Elements(order), Below(n));
  }

  lemma {:induction false} SubsetSize(a: set<nat>, b: set<nat>)
    requires a <= b
    ensures |a| <= |b|
  {
    if a != {} {
      var x :| x in a;
      SubsetSize(a - {x}, b - {x});
    }
  }

  lemma EntriesListed<K, V>(ns: seq<Node<K, V>>, order: seq<nat>, items: seq<(K, V)>)
    requires Holds(ns, order, items)
    ensures |order| == |items|
  {
  }

  lemma InsertEnds(order: seq<nat>, i: nat, x: nat)
    requires i <= |order|
    ensures At(InsertAt(order, i, x), 0) == if i == 0 then x else At(order, 0)
    ensures At(InsertAt(order, i, x), |order|) == if i == |order| then x else At(order, |order| - 1)
  {
  }

  lemma RemoveEnds(order: seq<nat>, i: nat)
    requires i < |order|
    ensures At(RemoveAt(order, i), 0) == if i == 0 then At(order, 1) else At(order, 0)
    ensures At(RemoveAt(order, i), |order| - 2) == if i + 1 == |order| then At(order, i - 1) else At(order, |order| - 1)
  {
  }

  lemma SpareNext<K, V>(ns: seq<Node<K, V>>, spare: seq<nat>)
    requires FreeLinked(ns, spare) && spare != []
    ensures spare[0] < |ns| && ns[spare[0]].next == At(spare[1..], 0)
  {
  }

  /** The bucket heads after the node `x` leaves, read off the nodes. */
  ghost function HeadsAfterErase<K, V>(ns: seq<Node<K, V>>, heads: seq<nat>, x: nat): seq<nat>
    requires x < |ns| && (ns[x].next == INVALID || ns[x].next < |ns|) && ns[x].bucketIdx < |heads|
  {
    var b, n := ns[x].bucketIdx, ns[x].next;
    if heads[b] != x then heads
    else heads[b := if n != INVALID && ns[n].bucketIdx == b then n else INVALID]
  }

  /** What an erasure of the node at position `i` reads, and where the list ends then. */
  lemma EraseReads<K(!new), V>(ns: seq<Node<K, V>>, heads: seq<nat>, order: seq<nat>, spare: seq<nat>,
                               items: seq<(K, V)>, m: map<K, V>,
                               hash: K -> nat, i: nat)
    requires Listed(ns, order, spare, items, m) && i < |order| == |items| && |heads| > 0
    requires Tagged(ns, order, BucketsOf(items, hash, |heads|))
    ensures order[i] < |ns| <= INVALID
    ensures ns[order[i]].prev == INVALID || ns[order[i]].prev < |ns|
    ensures ns[order[i]].next == INVALID || ns[order[i]].next < |ns|
    ensures ns[order[i]].prev != order[i] && ns[order[i]].next != order[i]
    ensures ns[order[i]].bucketIdx == BucketOf(hash(items[i].0), |heads|)
    ensures ns[order[i]].entry == Some(items[i])
    ensures At(RemoveAt(order, i), 0) == if ns[order[i]].prev == INVALID then ns[order[i]].next else At(order, 0)
    ensures At(RemoveAt(order, i), |order| - 2) == if ns[order[i]].next == INVALID then ns[order[i]].prev
            else At(order, |order| - 1)
  {
    LinksAt(ns, order, i);
    AtEnd(ns, order);
    TagAt(ns, order, BucketsOf(items, hash, |heads|), i);
    EntryAt(ns, order, items, i);
    if i + 1 < |order| { LinksAt(ns, order, i + 1); }
    if i > 0 { LinksAt(ns, order, i - 1); }
    LinkedInRange(ns, order);
    if i > 0 { assert order[i - 1] != order[i]; }
    if i + 1 < |order| { assert order[i + 1] != order[i]; }
    hide Linked, FreeLinked, Partition, Represents, Holds, Tagged, Distinct, BucketOf, Listed;
    RemoveEnds(order, i);
  }

  /** Everything an erasure of the node at position `i` keeps or establishes. */
  lemma EraseStep<K(!new), V>(ns: seq<Node<K, V>>, heads: seq<nat>, order: seq<nat>, spare: seq<nat>,
                              items: seq<(K, V)>, m: map<K, V>,
                              hash: K -> nat, i: nat)
    requires Listed(ns, order, spare, items, m) && i < |order| == |items| && |heads| > 0
    requires Tagged(ns, order, BucketsOf(items, hash, |heads|)) && Runs(order, BucketsOf(items, hash, |heads|), heads)
    requires order[i] < |ns| <= INVALID
    requires ns[order[i]].prev == INVALID || ns[order[i]].prev < |ns|
    requires ns[order[i]].next == INVALID || ns[order[i]].next < |ns|
    requires ns[order[i]].bucketIdx == BucketOf(hash(items[i].0), |heads|)
    ensures var ns' := ErasedNode(ns, order[i], At(spare, 0));
            && Listed(ns', RemoveAt(order, i), [order[i]] + spare, RemoveAt(items, i), m - {items[i].0})
            && Tagged(ns', RemoveAt(order, i), BucketsOf(RemoveAt(items, i), hash, |heads|))
            && Runs(RemoveAt(order, i), BucketsOf(RemoveAt(items, i), hash, |heads|),
                    HeadsAfterErase(ns, heads, order[i]))
  {
    var bs := BucketsOf(items, hash, |heads|);
    LinkedInRange(ns, order);
    hide Linked, FreeLinked, Partition, Represents, Holds, Runs, Tagged, Distinct, BucketOf, HeadsAfterErase,
        HeadsAfterRemove;
    HeadsAgree(ns, order, bs, heads, i);
    ListedErased(ns, order, spare, items, m, i);
    ErasedNodeLinks(ns, order, i, At(spare, 0));
    TaggedErased(ns, ErasedNode(ns, order[i], At(spare, 0)), order, bs, i);
    RunsRemove(order, bs, heads, i);
    BucketsRemoved(items, hash, |heads|, i);
  }

  lemma HeadsAgree<K, V>(ns: seq<Node<K, V>>, order: seq<nat>, bs: seq<nat>, heads: seq<nat>, i: nat)
    requires Linked(ns, order) && Tagged(ns, order, bs) && i < |order| && InRange(bs, |heads|)
    requires order[i] < |ns| && (ns[order[i]].next == INVALID || ns[order[i]].next < |ns|)
             && ns[order[i]].bucketIdx < |heads|
    ensures HeadsAfterErase(ns, heads, order[i]) == HeadsAfterRemove(order, bs, heads, i)
  {
    LinksAt(ns, order, i);
    TagAt(ns, order, bs, i);
    if i + 1 < |order| { TagAt(ns, order, bs, i + 1); }
  }

  lemma TagAt<K, V>(ns: seq<Node<K, V>>, order: seq<nat>, bs: seq<nat>, i: nat)
    requires Tagged(ns, order, bs) && i < |order|
    ensures order[i] < |ns| && ns[order[i]].bucketIdx == bs[i]
  {
  }

  // ---------------------------------------------------------------------------------------
  // Clearing, copying and writing through an iterator
  // ---------------------------------------------------------------------------------------

  /** The entries of the first `cnt` live slots are destroyed. */
  ghost predicate EntriesDropped<K, V>(ns0: seq<Node<K, V>>, ns: seq<Node<K, V>>, order: seq<nat>, cnt: nat) {
    && |ns| == |ns0|
    && cnt <= |order|
    && (forall j :: 0 <= j < |ns0| ==> ns[j] == if j in order[..cnt] then ns0[j].(entry := None) else ns0[j])
  }

  lemma EntriesDroppedStep<K, V>(ns0: seq<Node<K, V>>, ns: seq<Node<K, V>>, order: seq<nat>, cnt: nat)
    requires EntriesDropped(ns0, ns, order, cnt) && Linked(ns0, order) && cnt < |order|
    ensures order[cnt] < |ns| && ns[order[cnt]].next == At(order, cnt + 1)
    ensures EntriesDropped(ns0, ns[order[cnt] := ns[order[cnt]].(entry := None)], order, cnt + 1)
  {
    LinkedInRange(ns0, order);
    LinksAt(ns0, order, cnt);
    assert order[cnt] !in order[..cnt];
    assert order[..cnt + 1] == order[..cnt] + [order[cnt]];
  }

  lemma AllEntriesDropped<K, V>(ns0: seq<Node<K, V>>, ns: seq<Node<K, V>>, order: seq<nat>, spare: seq<nat>)
    requires EntriesDropped(ns0, ns, order, |order|) && FreeLinked(ns0, spare) && Partition(|ns0|, order, spare)
    ensures forall j :: 0 <= j < |ns| ==> ns[j].entry.None?
  {
    assert order[..|order|] == order;
    forall j | 0 <= j < |ns| ensures ns[j].entry.None? {
      if j !in order {
        var k :| 0 <= k < |spare| && spare[k] == j;
        assert ns0[spare[k]].entry.None?;
      }
    }
  }

  /** All slots free, in ascending order. */
  lemma ListedEmpty<K(!new), V>(ns: seq<Node<K, V>>)
    requires |ns| <= MAX_SIZE && Chained(ns, 0, INVALID)
    ensures Listed(ns, [], Ascending(0, |ns|), [], map[])
  {
    var up := Ascending(0, |ns|);
    forall x | 0 <= x < |ns| ensures x in up { assert up[x] == x; }
  }

  lemma RepresentsNext<K(!new), V>(items: seq<(K, V)>, j: nat, m: map<K, V>)
    requires KeysDistinct(items) && j < |items| && Represents(items[..j], m)
    ensures items[j].0 !in m
    ensures Represents(items[..j + 1], m[items[j].0 := items[j].1])
  {
    var p := items[..j];
    assert forall i :: 0 <= i < |p| ==> p[i].0 != items[j].0;
    assert !HasKey(p, items[j].0);
    RepresentsAdded(p, m, j, items[j]);
    assert InsertAt(p, j, items[j]) == items[..j + 1];
  }

  /** The pairs determine the map. */
  lemma RepresentsNone<K(!new), V>(items: seq<(K, V)>)
    ensures Represents<K, V>(items[..0], map[])
  {
  }

  lemma RepresentsUnique<K(!new), V>(items: seq<(K, V)>, m: map<K, V>, m': map<K, V>)
    requires Represents(items, m) && Represents(items, m')
    ensures m == m'
  {
    forall k | k in m ensures k in m' && m'[k] == m[k] {
      assert HasKey(items, k);
    }
    forall k | k in m' ensures k in m {
      assert HasKey(items, k);
    }
  }

  lemma {:induction false} RepresentsCount<K(!new), V>(items: seq<(K, V)>, m: map<K, V>)
    requires Represents(items, m)
    ensures |m| == |items|
  {
    if items == [] {
      assert forall k :: k in m ==> HasKey(items, k);
      assert m == map[];
    } else {
      var i := |items| - 1;
      RepresentsErased(items, m, i);
      RepresentsCount(RemoveAt(items, i), m - {items[i].0});
      var k := items[i].0;
      assert m.Keys == (m - {k}).Keys + {k};
      assert |m.Keys| == |m| && |(m - {k}).Keys| == |m - {k}|;
    }
  }

  /** Writing the value of the live node at position `i`. */
  lemma ListedValueSet<K(!new), V>(ns: seq<Node<K, V>>, order: seq<nat>, spare: seq<nat>, items: seq<(K, V)>, m: map<K,
                                   V>, i: nat, v: V)
    requires Listed(ns, order, spare, items, m) && i < |order| == |items| && order[i] < |ns|
    ensures var kv := (items[i].0, v);
            Listed(ns[order[i] := ns[order[i]].(entry := Some(kv))], order, spare, items[i := kv], m[kv.0 := v])
  {
    var kv := (items[i].0, v);
    var ns', items', m' := ns[order[i] := ns[order[i]].(entry := Some(kv))], items[i := kv], m[kv.0 := v];
    assert forall y :: 0 <= y < |ns| ==> ns'[y].prev == ns[y].prev && ns'[y].next == ns[y].next;
    assert Linked(ns', order) by { hide Represents, Holds, Partition, FreeLinked, Distinct; }
    assert FreeLinked(ns', spare) by { hide Represents, Holds, Linked; }
    assert Holds(ns', order, items') by {
      hide Represents, FreeLinked, Partition;
      forall j | 0 <= j < |order| ensures ns'[order[j]].entry == Some(items'[j]) {
        EntryAt(ns, order, items, j);
        if j != i { LinkedInRange(ns, order); assert order[j] != order[i]; }
      }
    }
    assert Represents(items', m') by {
      hide Linked, Holds, FreeLinked, Partition;
      forall j, k | 0 <= j < k < |items'| ensures items'[j].0 != items'[k].0 {
        assert items[j].0 != items[k].0;
      }
      forall j | 0 <= j < |items'| ensures items'[j].0 in m' && m'[items'[j].0] == items'[j].1 {
        if j != i { assert items[j].0 != items[i].0; }
      }
      forall k | k in m' ensures HasKey(items', k) {
        assert HasKey(items, k);
        var j :| 0 <= j < |items| && items[j].0 == k;
        assert items'[j].0 == k;
      }
    }
  }

  lemma BucketsValueSet<K, V>(items: seq<(K, V)>, hash: K -> nat, n: nat, i: nat, v: V)
    requires n > 0 && i < |items|
    ensures BucketsOf(items[i := (items[i].0, v)], hash, n) == BucketsOf(items, hash, n)
  {
  }

  lemma TaggedValueSet<K, V>(ns: seq<Node<K, V>>, order: seq<nat>, bs: seq<nat>, x: nat, e: Option<(K, V)>)
    requires Tagged(ns, order, bs) && x < |ns|
    ensures Tagged(ns[x := ns[x].(entry := e)], order, bs)
  {
    assert forall y :: 0 <= y < |ns| ==> ns[x := ns[x].(entry := e)][y].bucketIdx == ns[y].bucketIdx;
  }

  lemma ListedSize<K(!new), V>(ns: seq<Node<K, V>>, order: seq<nat>, spare: seq<nat>, items: seq<(K, V)>, m: map<K, V>)
    requires Listed(ns, order, spare, items, m)
    ensures |order| == |items| <= |ns| <= MAX_SIZE && KeysDistinct(items)
  {
    hide FreeLinked, Partition, HasKey;
    LinkedInRange(ns, order);
    LiveAtMost(|ns|, order);
  }

  lemma ListedFacts<K(!new), V>(ns: seq<Node<K, V>>, order: seq<nat>, spare: seq<nat>, items: seq<(K, V)>, m: map<K, V>)
    requires Listed(ns, order, spare, items, m)
    ensures Linked(ns, order) && FreeLinked(ns, spare) && Partition(|ns|, order, spare) && Holds(ns, order, items)
            && Represents(items, m)
    ensures |order| == |items| && |ns| <= MAX_SIZE
    ensures forall i :: 0 <= i <= |order| ==> (At(order, i) == INVALID <==> i == |order|)
  {
    AtEnd(ns, order);
    EntriesListed(ns, order, items);
  }

  lemma SameEntriesReflexive<K, V>(ns: seq<Node<K, V>>)
    ensures SameEntries(ns, ns)
  {
  }

  lemma SameEntriesTransitive<K, V>(a: seq<Node<K, V>>, b: seq<Node<K, V>>, c: seq<Node<K, V>>)
    requires SameEntries(a, b) && SameEntries(b, c)
    ensures SameEntries(a, c)
  {
  }

  lemma NoRuns<K, V>(ns: seq<Node<K, V>>, heads: seq<nat>)
    requires forall b :: 0 <= b < |heads| ==> heads[b] == INVALID
    ensures Tagged(ns, [], []) && Runs([], [], heads)
  {
  }

  lemma SpareInRange<K, V>(ns: seq<Node<K, V>>, spare: seq<nat>)
    requires FreeLinked(ns, spare)
    ensures InRange(spare, |ns|) && Distinct(spare)
  {
  }

  lemma SpareAt<K, V>(ns: seq<Node<K, V>>, spare: seq<nat>, i: nat)
    requires FreeLinked(ns, spare) && i < |spare|
    ensures spare[i] < |ns| && ns[spare[i]].next == At(spare, i + 1)
  {
  }

  lemma ListsApart(n: nat, order: seq<nat>, spare: seq<nat>)
    requires Partition(n, order, spare)
    ensures forall i, j :: 0 <= i < |order| && 0 <= j < |spare| ==> order[i] != spare[j]
  {
  }

  /** Live and free slots together are all slots. */
  lemma SlotCount(n: nat, order: seq<nat>, spare: seq<nat>)
    requires Partition(n, order, spare) && Distinct(order) && Distinct(spare) && InRange(order, n) && InRange(spare, n)
    ensures |order| + |spare| == n
  {
    DistinctCount(order);
    DistinctCount(spare);
    assert Elements(order) !! Elements(spare);
    assert Below(n) == Elements(order) + Elements(spare);
  }

  /** The recorded heads are exactly the first nodes of their buckets. */
  lemma HeadIsFirst(order: seq<nat>, bs: seq<nat>, heads: seq<nat>, i: nat)
    requires Runs(order, bs, heads) && Distinct(order) && InRange(order, INVALID) && i < |bs|
    ensures heads[bs[i]] == order[i] <==> forall j :: 0 <= j < i ==> bs[j] != bs[i]
  {
    if heads[bs[i]] == order[i] {
      forall j | 0 <= j < i ensures bs[j] != bs[i] {
        var s := RunOf(order, bs, heads, j);
        if bs[j] == bs[i] { PositionUnique(order, s, i); }
      }
    } else {
      var s := RunOf(order, bs, heads, i);
    }
  }
}
