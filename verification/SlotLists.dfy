/**
 Lists of slots threaded through a node array, as sequences of slot indices: what linking a
 node in, unlinking it and cutting the list into one run per bucket do to those sequences.
 */
module SlotLists {
  import opened Common

  /** `(size_type)-1`. */
  const INVALID: nat := 0xFFFF_FFFF

  /** `value_node`; `entry` is `None` while no key/value pair is constructed in the slot. */
  datatype Node<+K, +V> = Node(prev: nat, next: nat, bucketIdx: nat, entry: Option<(K, V)>)

  /** Element `i` of a list of slots, or the invalid index just outside of it. */
  function At(s: seq<nat>, i: int): nat {
    if 0 <= i < |s| then s[i] else INVALID
  }

  function InsertAt<T>(s: seq<T>, i: nat, x: T): (r: seq<T>)
    requires i <= |s|
    ensures |r| == |s| + 1
    ensures forall k :: 0 <= k < i ==> r[k] == s[k]
    ensures r[i] == x
    ensures forall k :: i < k < |r| ==> r[k] == s[k - 1]
  {
    s[..i] + [x] + s[i..]
  }

  function RemoveAt<T>(s: seq<T>, i: nat): (r: seq<T>)
    requires i < |s|
    ensures |r| == |s| - 1
    ensures forall k :: 0 <= k < i ==> r[k] == s[k]
    ensures forall k :: i <= k < |r| ==> r[k] == s[k + 1]
  {
    s[..i] + s[i + 1..]
  }

  ghost predicate Distinct<T(!new)>(s: seq<T>) {
    forall i, j :: 0 <= i < j < |s| ==> s[i] != s[j]
  }

  ghost predicate InRange(s: seq<nat>, n: nat) {
    forall i :: 0 <= i < |s| ==> s[i] < n
  }

  /** The doubly linked list through `ns` visits exactly `order`. */
  ghost predicate Linked<K, V>(ns: seq<Node<K, V>>, order: seq<nat>) {
    && |ns| <= INVALID
    && InRange(order, |ns|)
    && Distinct(order)
    && (forall i {:trigger ns[order[i]].prev} :: 0 <= i < |order| ==> ns[order[i]].prev == At(order, i - 1))
    && (forall i {:trigger ns[order[i]].next} :: 0 <= i < |order| ==> ns[order[i]].next == At(order, i + 1))
  }

  /** The singly linked free list through `ns` visits exactly `spare`. */
  ghost predicate FreeLinked<K, V>(ns: seq<Node<K, V>>, spare: seq<nat>) {
    && InRange(spare, |ns|)
    && Distinct(spare)
    && (forall i {:trigger ns[spare[i]].next} :: 0 <= i < |spare| ==> ns[spare[i]].next == At(spare, i + 1))
    && (forall i {:trigger ns[spare[i]].entry} :: 0 <= i < |spare| ==> ns[spare[i]].entry.None?)
  }

  function SetNext<K, V>(ns: seq<Node<K, V>>, i: nat, x: nat): (r: seq<Node<K, V>>)
    requires i == INVALID || i < |ns|
    ensures |r| == |ns|
  {
    if i == INVALID then ns else ns[i := ns[i].(next := x)]
  }

  function SetPrev<K, V>(ns: seq<Node<K, V>>, i: nat, x: nat): (r: seq<Node<K, V>>)
    requires i == INVALID || i < |ns|
    ensures |r| == |ns|
  {
    if i == INVALID then ns else ns[i := ns[i].(prev := x)]
  }

  /** The node array after the neighbours of slot `x` are linked to each other. */
  function Unlinked<K, V>(ns: seq<Node<K, V>>, x: nat): (r: seq<Node<K, V>>)
    requires x < |ns| <= INVALID
    requires ns[x].prev == INVALID || ns[x].prev < |ns|
    requires ns[x].next == INVALID || ns[x].next < |ns|
    ensures |r| == |ns|
    ensures forall y :: 0 <= y < |ns| ==> r[y] == ns[y].(prev := if y == ns[x].next then ns[x].prev else ns[y].prev,
                                                        next := if y == ns[x].prev then ns[x].next else ns[y].next)
  {
    SetPrev(SetNext(ns, ns[x].prev, ns[x].next), ns[x].next, ns[x].prev)
  }

  /** The node array after slot `x` is linked in between `p` and `n`. */
  function LinkedIn<K, V>(ns: seq<Node<K, V>>, x: nat, p: nat, n: nat): (r: seq<Node<K, V>>)
    requires x < |ns| <= INVALID && (p == INVALID || p < |ns|) && (n == INVALID || n < |ns|)
    ensures |r| == |ns|
    ensures forall y :: 0 <= y < |ns| ==> r[y] == ns[y].(prev := if y == n then x else if y == x then p else ns[y].prev,
                                                        next := if y == p then x else if y == x then n else ns[y].next)
  {
    SetPrev(SetNext(ns[x := ns[x].(prev := p, next := n)], p, x), n, x)
  }

  /** Two node arrays agree outside of the given list, and in everything but the links. */
  ghost predicate OnlyLinksChanged<K, V>(ns: seq<Node<K, V>>, ns': seq<Node<K, V>>, order: seq<nat>) {
    && |ns'| == |ns|
    && (forall x :: 0 <= x < |ns| ==> ns'[x].entry == ns[x].entry && ns'[x].bucketIdx == ns[x].bucketIdx)
    && (forall x :: 0 <= x < |ns| && x !in order ==> ns'[x] == ns[x])
  }

  lemma AtInRange<K, V>(ns: seq<Node<K, V>>, order: seq<nat>, i: int)
    requires InRange(order, |ns|)
    ensures At(order, i) == INVALID || At(order, i) < |ns|
  {
  }

  /** Linking slot `x` in before position `i`. */
  lemma InsertLinked<K, V>(ns: seq<Node<K, V>>, order: seq<nat>, i: nat, x: nat)
    requires Linked(ns, order) && i <= |order| && x < |ns| && x !in order
    ensures At(order, i - 1) == INVALID || At(order, i - 1) < |ns|
    ensures At(order, i) == INVALID || At(order, i) < |ns|
    ensures Linked(LinkedIn(ns, x, At(order, i - 1), At(order, i)), InsertAt(order, i, x))
  {
    hide Distinct;
    AtInRange(ns, order, i - 1);
    AtInRange(ns, order, i);
    InsertDistinct(order, i, x);
    var ns' := LinkedIn(ns, x, At(order, i - 1), At(order, i));
    var r := InsertAt(order, i, x);
    forall k | 0 <= k < |r|
      ensures ns'[r[k]].prev == At(r, k - 1) && ns'[r[k]].next == At(r, k + 1)
    {
      InsertLinkedAt(ns, order, i, x, k);
    }
  }

  lemma InsertDistinct(order: seq<nat>, i: nat, x: nat)
    requires Distinct(order) && i <= |order| && x !in order
    ensures Distinct(InsertAt(order, i, x))
  {
  }

  lemma InsertTouchesNeighbours<K, V>(ns: seq<Node<K, V>>, order: seq<nat>, i: nat, x: nat)
    requires x < |ns| <= INVALID && InRange(order, |ns|) && i <= |order|
    requires At(order, i - 1) == INVALID || At(order, i - 1) < |ns|
    requires At(order, i) == INVALID || At(order, i) < |ns|
    ensures OnlyLinksChanged(ns, LinkedIn(ns, x, At(order, i - 1), At(order, i)), order + [x])
  {
    assert i > 0 ==> order[i - 1] in order + [x];
    assert i < |order| ==> order[i] in order + [x];
  }

  lemma InsertLinkedAt<K, V>(ns: seq<Node<K, V>>, order: seq<nat>, i: nat, x: nat, k: nat)
    requires Linked(ns, order) && i <= |order| && x < |ns| && x !in order && k <= |order|
    requires At(order, i - 1) == INVALID || At(order, i - 1) < |ns|
    requires At(order, i) == INVALID || At(order, i) < |ns|
    ensures var r := InsertAt(order, i, x);
            var y := LinkedIn(ns, x, At(order, i - 1), At(order, i))[r[k]];
            y.prev == At(r, k - 1) && y.next == At(r, k + 1)
  {
    if k != i {
      var j := if k < i then k else k - 1;
      assert ns[order[j]].prev == At(order, j - 1) && ns[order[j]].next == At(order, j + 1);
      assert order[j] == At(order, i) <==> j == i;
      assert order[j] == At(order, i - 1) <==> j == i - 1;
    }
  }

  /** Unlinking the slot at position `i`. */
  lemma RemoveLinked<K, V>(ns: seq<Node<K, V>>, order: seq<nat>, i: nat)
    requires Linked(ns, order) && i < |order|
    ensures ns[order[i]].prev == INVALID || ns[order[i]].prev < |ns|
    ensures ns[order[i]].next == INVALID || ns[order[i]].next < |ns|
    ensures Linked(Unlinked(ns, order[i]), RemoveAt(order, i))
    ensures OnlyLinksChanged(ns, Unlinked(ns, order[i]), order)
    ensures Unlinked(ns, order[i])[order[i]] == ns[order[i]]
  {
    AtInRange(ns, order, i - 1);
    AtInRange(ns, order, i + 1);
    assert ns[order[i]].prev == At(order, i - 1) && ns[order[i]].next == At(order, i + 1);
    var ns' := Unlinked(ns, order[i]);
    var r := RemoveAt(order, i);
    forall k | 0 <= k < |r|
      ensures ns'[r[k]].prev == At(r, k - 1) && ns'[r[k]].next == At(r, k + 1)
    {
      RemoveLinkedAt(ns, order, i, k);
    }
  }

  lemma RemoveLinkedAt<K, V>(ns: seq<Node<K, V>>, order: seq<nat>, i: nat, k: nat)
    requires Linked(ns, order) && i < |order| && k < |order| - 1
    requires ns[order[i]].prev == INVALID || ns[order[i]].prev < |ns|
    requires ns[order[i]].next == INVALID || ns[order[i]].next < |ns|
    ensures var r := RemoveAt(order, i);
            var y := Unlinked(ns, order[i])[r[k]];
            y.prev == At(r, k - 1) && y.next == At(r, k + 1)
  {
    var j := if k < i then k else k + 1;
    assert ns[order[i]].prev == At(order, i - 1) && ns[order[i]].next == At(order, i + 1);
    assert ns[order[j]].prev == At(order, j - 1) && ns[order[j]].next == At(order, j + 1);
    assert order[j] == At(order, i + 1) <==> j == i + 1;
    assert order[j] == At(order, i - 1) <==> j == i - 1;
  }

  // ---------------------------------------------------------------------------------------
  // Runs: position `i` of the list belongs to bucket `bs[i]`; `heads[b]` is the first slot of
  // the run of bucket `b`, or invalid.
  // ---------------------------------------------------------------------------------------

  ghost predicate RunStart(bs: seq<nat>, i: nat)
    requires i < |bs|
  {
    i == 0 || bs[i - 1] != bs[i]
  }

  ghost predicate HoldsHead(order: seq<nat>, bs: seq<nat>, heads: seq<nat>, b: nat)
    requires |order| == |bs|
  {
    b < |heads| && exists i :: 0 <= i < |order| && order[i] == heads[b] && bs[i] == b
  }

  /** Every run of equal buckets starts at the recorded head of its bucket, and every recorded
      head is a listed slot of its bucket. */
  ghost predicate Runs(order: seq<nat>, bs: seq<nat>, heads: seq<nat>) {
    && |order| == |bs|
    && InRange(bs, |heads|)
    && (forall i {:trigger RunStart(bs, i)} :: 0 <= i < |bs| && RunStart(bs, i) ==> heads[bs[i]] == order[i])
    && (forall b {:trigger heads[b]} :: 0 <= b < |heads| && heads[b] != INVALID ==> HoldsHead(order, bs, heads, b))
  }

  /** The run that position `k` belongs to, and where it starts. */
  lemma {:induction false} RunOf(order: seq<nat>, bs: seq<nat>, heads: seq<nat>, k: nat) returns (s: nat)
    requires Runs(order, bs, heads) && k < |bs|
    ensures s <= k && RunStart(bs, s) && heads[bs[k]] == order[s]
    ensures forall j :: s <= j <= k ==> bs[j] == bs[k]
  {
    if RunStart(bs, k) {
      s := k;
    } else {
      s := RunOf(order, bs, heads, k - 1);
    }
  }

  /** Members of one bucket are contiguous in the list. */
  lemma Contiguous(order: seq<nat>, bs: seq<nat>, heads: seq<nat>, i: nat, j: nat, k: nat)
    requires Runs(order, bs, heads) && Distinct(order)
    requires i <= j <= k < |bs| && bs[i] == bs[k]
    ensures bs[j] == bs[k]
  {
    var s := RunOf(order, bs, heads, i);
    var t := RunOf(order, bs, heads, k);
    assert order[s] == order[t];
  }

  /** The recorded head of a nonempty bucket starts its run. */
  lemma HeadStarts(order: seq<nat>, bs: seq<nat>, heads: seq<nat>, b: nat) returns (i: nat)
    requires Runs(order, bs, heads) && Distinct(order)
    requires b < |heads| && heads[b] != INVALID
    ensures i < |order| && order[i] == heads[b] && bs[i] == b && RunStart(bs, i)
  {
    assert HoldsHead(order, bs, heads, b);
    i :| 0 <= i < |order| && order[i] == heads[b] && bs[i] == b;
    var s := RunOf(order, bs, heads, i);
    assert order[s] == order[i];
  }

  lemma HoldsHeadAt(order: seq<nat>, bs: seq<nat>, heads: seq<nat>, b: nat, i: nat)
    requires |order| == |bs| && b < |heads| && i < |order| && order[i] == heads[b] && bs[i] == b
    ensures HoldsHead(order, bs, heads, b)
  {
  }

  /** Appending a slot of a bucket that had none. */
  lemma RunsAppend(order: seq<nat>, bs: seq<nat>, heads: seq<nat>, x: nat, b: nat)
    requires Runs(order, bs, heads) && b < |heads| && heads[b] == INVALID && InRange(order, INVALID)
    ensures Runs(InsertAt(order, |order|, x), InsertAt(bs, |bs|, b), heads[b := x])
  {
    var order', bs', heads' := InsertAt(order, |order|, x), InsertAt(bs, |bs|, b), heads[b := x];
    forall i | 0 <= i < |bs'| && RunStart(bs', i)
      ensures heads'[bs'[i]] == order'[i]
    {
      if i < |bs| {
        assert RunStart(bs, i);
      }
    }
    forall c | 0 <= c < |heads'| && heads'[c] != INVALID
      ensures HoldsHead(order', bs', heads', c)
    {
      if c == b {
        HoldsHeadAt(order', bs', heads', c, |order|);
      } else {
        assert HoldsHead(order, bs, heads, c);
        var i :| 0 <= i < |order| && order[i] == heads[c] && bs[i] == c;
        HoldsHeadAt(order', bs', heads', c, i);
      }
    }
  }

  /** Inserting a slot `x` of the bucket of position `i` next to the run start `i`:
      before it, becoming the new head, or right after it. */
  lemma RunsInsert(order: seq<nat>, bs: seq<nat>, heads: seq<nat>, x: nat, i: nat, after: bool)
    requires Runs(order, bs, heads) && Distinct(order)
    requires i < |order| && RunStart(bs, i)
    ensures var at := if after then i + 1 else i;
            Runs(InsertAt(order, at, x), InsertAt(bs, at, bs[i]), if after then heads else heads[bs[i] := x])
  {
    var at := if after then i + 1 else i;
    var order', bs' := InsertAt(order, at, x), InsertAt(bs, at, bs[i]);
    var heads' := if after then heads else heads[bs[i] := x];
    forall k | 0 <= k < |bs'| && RunStart(bs', k)
      ensures heads'[bs'[k]] == order'[k]
    {
      InsertKeepsStart(order, bs, heads, x, i, after, k);
    }
    forall c | 0 <= c < |heads'| && heads'[c] != INVALID
      ensures HoldsHead(order', bs', heads', c)
    {
      InsertKeepsHead(order, bs, heads, x, i, after, c);
    }
  }

  lemma InsertKeepsStart(order: seq<nat>, bs: seq<nat>, heads: seq<nat>, x: nat, i: nat, after: bool, k: nat)
    requires Runs(order, bs, heads) && Distinct(order)
    requires i < |order| && RunStart(bs, i) && k < |bs| + 1
    requires RunStart(InsertAt(bs, if after then i + 1 else i, bs[i]), k)
    ensures var at := if after then i + 1 else i;
            (if after then heads else heads[bs[i] := x])[InsertAt(bs, at, bs[i])[k]] == InsertAt(order, at, x)[k]
  {
    var at := if after then i + 1 else i;
    var bs' := InsertAt(bs, at, bs[i]);
    assert heads[bs[i]] == order[i];
    if k != at {
      var j := if k < at then k else k - 1;
      assert bs'[k] == bs[j];
      assert RunStart(bs, j) by {
        if k > at && k - 1 > at { assert bs'[k - 1] == bs[j - 1]; }
      }
    }
  }

  lemma InsertKeepsHead(order: seq<nat>, bs: seq<nat>, heads: seq<nat>, x: nat, i: nat, after: bool, c: nat)
    requires Runs(order, bs, heads) && i < |order| && c < |heads|
    requires (if after then heads else heads[bs[i] := x])[c] != INVALID
    ensures var at := if after then i + 1 else i;
            HoldsHead(InsertAt(order, at, x), InsertAt(bs, at, bs[i]), if after then heads else heads[bs[i] := x], c)
  {
    var at := if after then i + 1 else i;
    var order', bs' := InsertAt(order, at, x), InsertAt(bs, at, bs[i]);
    var heads' := if after then heads else heads[bs[i] := x];
    if c == bs[i] && !after {
      HoldsHeadAt(order', bs', heads', c, at);
    } else {
      assert HoldsHead(order, bs, heads, c);
      var j :| 0 <= j < |order| && order[j] == heads[c] && bs[j] == c;
      HoldsHeadAt(order', bs', heads', c, if j < at then j else j + 1);
    }
  }

  /** `heads` after position `i` leaves: its bucket's head moves on if it was the head. */
  function HeadsAfterRemove(order: seq<nat>, bs: seq<nat>, heads: seq<nat>, i: nat): seq<nat>
    requires |order| == |bs| && i < |order| && bs[i] < |heads|
  {
    if heads[bs[i]] != order[i] then heads
    else heads[bs[i] := if i + 1 < |bs| && bs[i + 1] == bs[i] then order[i + 1] else INVALID]
  }

  lemma RunsRemove(order: seq<nat>, bs: seq<nat>, heads: seq<nat>, i: nat)
    requires Runs(order, bs, heads) && Distinct(order) && InRange(order, INVALID)
    requires i < |order|
    ensures Runs(RemoveAt(order, i), RemoveAt(bs, i), HeadsAfterRemove(order, bs, heads, i))
  {
    var order', bs', heads' := RemoveAt(order, i), RemoveAt(bs, i), HeadsAfterRemove(order, bs, heads, i);
    forall k | 0 <= k < |bs'| && RunStart(bs', k)
      ensures heads'[bs'[k]] == order'[k]
    {
      RemoveKeepsStart(order, bs, heads, i, k);
    }
    forall c | 0 <= c < |heads'| && heads'[c] != INVALID
      ensures HoldsHead(order', bs', heads', c)
    {
      RemoveKeepsHead(order, bs, heads, i, c);
    }
  }

  lemma RemoveKeepsHead(order: seq<nat>, bs: seq<nat>, heads: seq<nat>, i: nat, c: nat)
    requires Runs(order, bs, heads) && i < |order| && c < |heads|
    requires HeadsAfterRemove(order, bs, heads, i)[c] != INVALID
    ensures HoldsHead(RemoveAt(order, i), RemoveAt(bs, i), HeadsAfterRemove(order, bs, heads, i), c)
  {
    var order', bs', heads' := RemoveAt(order, i), RemoveAt(bs, i), HeadsAfterRemove(order, bs, heads, i);
    if c == bs[i] && heads[c] == order[i] {
      HoldsHeadAt(order', bs', heads', c, i);
    } else {
      assert heads'[c] == heads[c];
      assert HoldsHead(order, bs, heads, c);
      var j :| 0 <= j < |order| && order[j] == heads[c] && bs[j] == c;
      HoldsHeadAt(order', bs', heads', c, if j < i then j else j - 1);
    }
  }

  lemma RemoveKeepsStart(order: seq<nat>, bs: seq<nat>, heads: seq<nat>, i: nat, k: nat)
    requires Runs(order, bs, heads) && Distinct(order)
    requires i < |order| && k < |bs| - 1 && RunStart(RemoveAt(bs, i), k)
    ensures HeadsAfterRemove(order, bs, heads, i)[RemoveAt(bs, i)[k]] == RemoveAt(order, i)[k]
  {
    var bs' := RemoveAt(bs, i);
    var j := if k < i then k else k + 1;
    assert bs'[k] == bs[j];
    var s := RunOf(order, bs, heads, i);
    if k == i && bs[j] == bs[i] {
      assert s == i;
    } else {
      assert RunStart(bs, j) by {
        if k != i && k > 0 { assert bs'[k - 1] == bs[j - 1]; }
      }
    }
  }

  // ---------------------------------------------------------------------------------------
  // Relocation: moving one list element towards the front, as regrouping into buckets does.
  // ---------------------------------------------------------------------------------------

  /** Where the element at position `k` after a move from `from` to `to` comes from. */
  function MovedFrom(from: nat, to: nat, k: nat): nat {
    if k < to then k else if k == to then from else if k <= from then k - 1 else k
  }

  /** Where the element at position `k` goes in a move from `from` to `to`. */
  function MovedTo(from: nat, to: nat, k: nat): nat {
    if k < to then k else if k < from then k + 1 else if k == from then to else k
  }

  /** `s` with the element at position `from` moved to position `to`, before it. */
  function Relocate<T>(s: seq<T>, from: nat, to: nat): (r: seq<T>)
    requires to <= from < |s|
    ensures |r| == |s|
    ensures forall k :: 0 <= k < |s| ==> r[k] == s[MovedFrom(from, to, k)]
  {
    InsertAt(RemoveAt(s, from), to, s[from])
  }

  lemma RelocatePermutes<T>(s: seq<T>, from: nat, to: nat)
    requires to <= from < |s|
    ensures multiset(Relocate(s, from, to)) == multiset(s)
  {
    var a, b, c := s[..to], s[to..from], s[from + 1..];
    assert s == a + b + [s[from]] + c;
    assert Relocate(s, from, to) == a + [s[from]] + b + c;
  }

  lemma RelocatePrefix<T>(s: seq<T>, from: nat, to: nat)
    requires to <= from < |s|
    ensures Relocate(s, from, to)[..from + 1] == InsertAt(s[..from], to, s[from])
    ensures Relocate(s, from, to)[from + 1..] == s[from + 1..]
  {
  }

  /** A move loses no element. */
  lemma RelocateKeepsElement<T>(s: seq<T>, from: nat, to: nat, k: nat)
    requires to <= from < |s| && k < |s|
    ensures MovedTo(from, to, k) < |s| && Relocate(s, from, to)[MovedTo(from, to, k)] == s[k]
  {
    var j := MovedTo(from, to, k);
    assert MovedFrom(from, to, j) == k;
  }

  /** Live and free slots are disjoint and cover all slots. */
  ghost predicate Partition(n: nat, order: seq<nat>, spare: seq<nat>) {
    && (forall i, j :: 0 <= i < |order| && 0 <= j < |spare| ==> order[i] != spare[j])
    && (forall x :: 0 <= x < n ==> x in order || x in spare)
  }

  lemma FreeListUntouched<K, V>(ns: seq<Node<K, V>>, ns': seq<Node<K, V>>, order: seq<nat>, spare: seq<nat>)
    requires FreeLinked(ns, spare) && OnlyLinksChanged(ns, ns', order) && Partition(|ns|, order, spare)
    ensures FreeLinked(ns', spare)
  {
    forall j | 0 <= j < |spare| ensures ns'[spare[j]] == ns[spare[j]] {
      assert spare[j] !in order;
    }
  }
}
