/**
 `bq::hash_map`: one array of nodes that carries the doubly linked list of live nodes, the
 singly linked free list, and one contiguous run of live nodes per bucket.
 */
module HashMaps {
  import opened Common
  import opened SlotLists
  import opened NodeTables
  import Bits

  /** An iterator: a node and the bucket it was obtained for. */
  datatype Iter = Iter(nodeIndex: nat, bucketIdx: nat)

  /** The operations of a client, and what it observes. */
  datatype Op<K, V> =
    | OpAdd(key: K, value: V)
    | OpSubscript(key: K)
    | OpSubscriptAssign(key: K, value: V)
    | OpFind(key: K)
    | OpErase(key: K)
    | OpClear
    | OpAssign
    | OpAssignSelf

  datatype Answer<V> = Done | Found(value: Option<V>) | Erased(ok: bool)

  /** What the operations refer to: the default value, and the map that is assigned from. */
  datatype Client<K, V> = Client(default: V, other: map<K, V>)

  /** What an operation does to, and observes of, an abstract map. */
  function Effect<K, V>(c: Client<K, V>, m: map<K, V>, op: Op<K, V>): map<K, V> {
    match op
    case OpAdd(k, v) => m[k := v]
    case OpSubscript(k) => if k in m then m else m[k := c.default]
    case OpSubscriptAssign(k, v) => m[k := v]
    case OpFind(_) => m
    case OpErase(k) => m - {k}
    case OpClear => map[]
    case OpAssign => c.other
    case OpAssignSelf => map[]
  }

  function Observe<K, V>(c: Client<K, V>, m: map<K, V>, op: Op<K, V>): Answer<V> {
    match op
    case OpSubscript(k) => Found(Some(if k in m then m[k] else c.default))
    case OpFind(k) => Found(if k in m then Some(m[k]) else None)
    case OpErase(k) => Erased(k in m)
    case _ => Done
  }

  /** `add` is for new keys only. */
  predicate Allowed<K, V>(m: map<K, V>, op: Op<K, V>) {
    op.OpAdd? ==> op.key !in m
  }

  predicate AllAllowed<K, V>(c: Client<K, V>, m: map<K, V>, ops: seq<Op<K, V>>)
    decreases |ops|
  {
    ops == [] || (Allowed(m, ops[0]) && AllAllowed(c, Effect(c, m, ops[0]), ops[1..]))
  }

  function EffectOfAll<K, V>(c: Client<K, V>, m: map<K, V>, ops: seq<Op<K, V>>): map<K, V>
    decreases |ops|
  {
    if ops == [] then m else EffectOfAll(c, Effect(c, m, ops[0]), ops[1..])
  }

  function ObserveAll<K, V>(c: Client<K, V>, m: map<K, V>, ops: seq<Op<K, V>>): seq<Answer<V>>
    decreases |ops|
  {
    if ops == [] then [] else [Observe(c, m, ops[0])] + ObserveAll(c, Effect(c, m, ops[0]), ops[1..])
  }

  /** What `find` shows of a key after an operation on a key. */
  lemma FindAfter<K, V>(c: Client<K, V>, m: map<K, V>, k: K, j: K, v: V)
    ensures Observe(c, m, OpFind(k)) == Found(if k in m then Some(m[k]) else None)
    ensures Observe(c, Effect(c, m, OpAdd(k, v)), OpFind(k)) == Found(Some(v))
    ensures Observe(c, Effect(c, m, OpSubscriptAssign(k, v)), OpFind(k)) == Found(Some(v))
    ensures Observe(c, Effect(c, m, OpSubscript(k)), OpFind(k)) == Observe(c, m, OpSubscript(k))
            == Found(Some(if k in m then m[k] else c.default))
    ensures Observe(c, m, OpErase(k)) == Erased(k in m)
    ensures Observe(c, Effect(c, m, OpErase(k)), OpFind(k)) == Found(None)
    ensures Observe(c, Effect(c, m, OpClear), OpFind(k)) == Found(None)
    ensures Observe(c, Effect(c, m, OpAssignSelf), OpFind(k)) == Found(None)
    ensures Observe(c, Effect(c, m, OpAssign), OpFind(k)) == Found(if k in c.other then Some(c.other[k]) else None)
    ensures forall op ::
              op in [OpFind(k), OpAdd(k, v), OpSubscript(k), OpSubscriptAssign(k, v), OpErase(k)] && j != k ==>
                Observe(c, Effect(c, m, op), OpFind(j)) == Observe(c, m, OpFind(j))
  {
  }

  class HashMap<K(==, !new), V(0)> {
    const hash: K -> nat
    /** The float formula of the growth policy: the bucket count wanted for a number of pairs. */
    const growth: nat -> nat
    /** What uninitialized slots hold. */
    const junk: nat -> nat
    var buckets: array<nat>
    var nodes: array<Node<K, V>>
    var head: nat
    var tail: nat
    var free: nat
    var size: nat
    /** The live slots in list order, the free slots in list order, the pairs in the live
        slots, and the abstract map. */
    ghost var order: seq<nat>
    ghost var spare: seq<nat>
    ghost var items: seq<(K, V)>
    ghost var model: map<K, V>

    ghost predicate GrowthInRange() {
      forall n: nat {:trigger growth(n)} :: 1 <= growth(n) <= MAX_SIZE
    }

    ghost predicate Headed()
      reads this
    {
      size == |order| && head == At(order, 0) && tail == At(order, |order| - 1) && free == At(spare, 0)
    }

    /** The number of buckets is a power of two, or there are none. */
    ghost predicate Doubled()
      reads this
    {
      buckets.Length == 0 || Bits.IsPow2(buckets.Length)
    }

    ghost predicate Valid()
      reads this, nodes, buckets
    {
      && GrowthInRange()
      && Doubled()
      && Headed()
      && Listed(nodes[..], order, spare, items, model)
      && buckets.Length <= MAX_SIZE
      && (buckets.Length > 0 || items == [])
      && Tagged(nodes[..], order, BucketsOf(items, hash, buckets.Length))
      && Runs(order, BucketsOf(items, hash, buckets.Length), buckets[..])
    }

    /** A node that the map currently holds, with the bucket it belongs to. */
    ghost predicate IsLive(it: Iter)
      reads this, nodes
    {
      it.nodeIndex in order && it.nodeIndex < nodes.Length && nodes[it.nodeIndex].bucketIdx == it.bucketIdx
    }

    constructor (hash: K -> nat, growth: nat -> nat, junk: nat -> nat, initBucketSize: nat)
      requires initBucketSize <= MAX_SIZE && forall n: nat :: 1 <= growth(n) <= MAX_SIZE
      ensures Valid() && fresh(nodes) && fresh(buckets)
      ensures model == map[] && items == [] && this.hash == hash && this.growth == growth && this.junk == junk
    {
      this.hash, this.growth, this.junk := hash, growth, junk;
      size, head, tail, free := 0, INVALID, INVALID, INVALID;
      buckets := new nat[0];
      nodes := new Node<K, V>[0];
      order, spare, items, model := [], [], [], map[];
      new;
      ExpandBuckets(initBucketSize);
      ExpandNodes(buckets.Length);
    }

    /** `expand_buckets`: the whole list is regrouped in place, in one walk. */
    method ExpandBuckets(n: nat)
      requires Valid() && n <= MAX_SIZE
      modifies this, nodes
      ensures Valid()
      ensures nodes == old(nodes) && (buckets == old(buckets) || fresh(buckets))
      ensures n <= buckets.Length && old(buckets.Length) <= buckets.Length
      ensures model == old(model) && spare == old(spare) && free == old(free) && size == old(size)
      ensures multiset(order) == multiset(old(order)) && multiset(items) == multiset(old(items))
      ensures n <= old(buckets.Length) ==> buckets == old(buckets) && order == old(order)
      ensures SameEntries(old(nodes[..]), nodes[..])
    {
      if n <= buckets.Length {
        return;
      }
      hide GrowthInRange, Listed, Regrouped, SameEntries, Tagged, Runs, Bits.IsPow2;
      assert SameEntries(nodes[..], nodes[..]) by { SameEntriesReflexive(nodes[..]); }
      ListedFacts(nodes[..], order, spare, items, model);
      var capacity := Bits.RoundupPowOfTwo32(n);
      buckets := new nat[capacity](_ => INVALID);
      if buckets.Length > 0 {
        RegroupList();
      }
    }

    /** The walk of `expand_buckets`. */
    method RegroupList()
      requires Headed() && Listed(nodes[..], order, spare, items, model)
      requires buckets.Length > 0 && forall b :: 0 <= b < buckets.Length ==> buckets[b] == INVALID
      modifies nodes, buckets, `order, `items, `tail
      ensures Headed() && Listed(nodes[..], order, spare, items, model)
      ensures Tagged(nodes[..], order, BucketsOf(items, hash, buckets.Length))
      ensures Runs(order, BucketsOf(items, hash, buckets.Length), buckets[..])
      ensures multiset(order) == multiset(old(order)) && multiset(items) == multiset(old(items))
      ensures SameEntries(old(nodes[..]), nodes[..])
    {
      hide GrowthInRange, Listed, Regrouped, SameEntries, Tagged, Runs, BucketsOf;
      SameEntriesReflexive(nodes[..]);
      ListedFacts(nodes[..], order, spare, items, model);
      RegroupedNone(nodes[..], buckets[..], order, items, hash);
      var cnt := 0;
      var index := head;
      while index != INVALID
        invariant Headed() && Listed(nodes[..], order, spare, items, model)
        invariant cnt <= |order| && index == At(order, cnt)
        invariant Regrouped(nodes[..], buckets[..], order, items, hash, cnt)
        invariant multiset(order) == multiset(old(order)) && multiset(items) == multiset(old(items))
        invariant SameEntries(old(nodes[..]), nodes[..])
        decreases |order| - cnt
      {
        ListedFacts(nodes[..], order, spare, items, model);
        ghost var s1 := nodes[..];
        index := RegroupOne(index, cnt);
        SameEntriesTransitive(old(nodes[..]), s1, nodes[..]);
        cnt := cnt + 1;
      }
      ListedFacts(nodes[..], order, spare, items, model);
      assert cnt == size;
      RegroupedAll(nodes[..], buckets[..], order, items, hash);
    }

    /** One step of the walk of `expand_buckets`. */
    method RegroupOne(curIndex: nat, ghost p: nat) returns (index: nat)
      requires Headed() && Listed(nodes[..], order, spare, items, model)
      requires p < |order| && curIndex == order[p]
      requires Regrouped(nodes[..], buckets[..], order, items, hash, p)
      modifies nodes, buckets, `order, `items, `tail
      ensures Headed() && Listed(nodes[..], order, spare, items, model)
      ensures Regrouped(nodes[..], buckets[..], order, items, hash, p + 1)
      ensures |order| == old(|order|) && index == At(order, p + 1)
      ensures multiset(order) == multiset(old(order)) && multiset(items) == multiset(old(items))
      ensures SameEntries(old(nodes[..]), nodes[..])
    {
      hide GrowthInRange, Listed, Regrouped, BucketOf, Retagged, Relocate, MovedFrom, MovedNode, SameEntries, At,
          Linked;
      ghost var s0, heads0 := nodes[..], buckets[..];
      WalkReads(s0, heads0, order, spare, items, model, hash, p);
      index := nodes[curIndex].next;
      var bucketIdx := BucketOf(hash(nodes[curIndex].entry.value.0), buckets.Length);
      nodes[curIndex] := nodes[curIndex].(bucketIdx := bucketIdx);
      RetaggedIs(s0, curIndex, bucketIdx);
      assert nodes[..] == Retagged(s0, curIndex, bucketIdx);
      if buckets[bucketIdx] == INVALID {
        RegroupFirstStep(s0, heads0, order, spare, items, model, hash, p, bucketIdx);
        buckets[bucketIdx] := curIndex;
        assert buckets[..] == heads0[bucketIdx := curIndex];
      } else if nodes[curIndex].prev != buckets[bucketIdx] {
        ghost var i := RegroupMoveStep(s0, heads0, order, spare, items, model, hash, p);
        MoveBehind(curIndex, buckets[bucketIdx], p, i);
        assert buckets[..] == heads0;
      } else {
        RegroupAdjacentStep(s0, heads0, order, spare, items, model, hash, p, bucketIdx);
      }
    }

    /** Moves list node `curIndex` right behind `newPrev`, further to the front. */
    method MoveBehind(curIndex: nat, newPrev: nat, ghost p: nat, ghost i: nat)
      requires Headed() && Linked(nodes[..], order) && |items| == |order|
      requires i + 1 < p < |order| && order[p] == curIndex && order[i] == newPrev
      modifies nodes, `order, `items, `tail
      ensures Headed()
      ensures order == Relocate(old(order), p, i + 1) && items == Relocate(old(items), p, i + 1)
      ensures nodes[..] == MovedNode(old(nodes[..]), old(order), p, i + 1)
    {
      hide GrowthInRange, Linked, Distinct, Relinked, MovedNode, Relocate, MovedFrom, At;
      MoveLinks(nodes[..], order, p, i);
      RelocateEnds(order, p, i + 1);
      var oldPrev := nodes[curIndex].prev;
      Relink(curIndex, newPrev);
      if tail == curIndex {
        tail := oldPrev;
      }
      if nodes[curIndex].prev == nodes[curIndex].next {
        assert false;  // here the source clears `tail_`
      }
      order, items := Relocate(order, p, i + 1), Relocate(items, p, i + 1);
    }

    /** Takes a node out of the list and links it in behind another one. */
    method Relink(curIndex: nat, newPrev: nat)
      requires curIndex < nodes.Length <= INVALID && newPrev < nodes.Length && newPrev != curIndex
      requires nodes[curIndex].prev == INVALID || nodes[curIndex].prev < nodes.Length
      requires nodes[curIndex].next == INVALID || nodes[curIndex].next < nodes.Length
      requires nodes[newPrev].next == INVALID || (nodes[newPrev].next < nodes.Length && nodes[newPrev].next != curIndex)
      modifies nodes
      ensures nodes[..] == Relinked(old(nodes[..]), curIndex, newPrev, old(nodes[newPrev].next))
      ensures nodes[curIndex].prev == newPrev && nodes[curIndex].next == old(nodes[newPrev].next)
    {
      hide Unlinked, LinkedIn;
      var newNext := nodes[newPrev].next;
      Unlink(curIndex);
      LinkBetween(curIndex, newPrev, newNext);
    }

    /** Links the neighbours of a node to each other. */
    method Unlink(curIndex: nat)
      requires curIndex < nodes.Length <= INVALID
      requires nodes[curIndex].prev == INVALID || nodes[curIndex].prev < nodes.Length
      requires nodes[curIndex].next == INVALID || nodes[curIndex].next < nodes.Length
      modifies nodes
      ensures nodes[..] == Unlinked(old(nodes[..]), curIndex)
    {
      var oldPrev, oldNext := nodes[curIndex].prev, nodes[curIndex].next;
      if oldPrev != INVALID {
        nodes[oldPrev] := nodes[oldPrev].(next := oldNext);
      }
      if oldNext != INVALID {
        nodes[oldNext] := nodes[oldNext].(prev := oldPrev);
      }
    }

    /** Links an unlinked node in between two neighbours. */
    method LinkBetween(curIndex: nat, newPrev: nat, newNext: nat)
      requires curIndex < nodes.Length <= INVALID && newPrev != curIndex && newNext != curIndex
      requires newPrev < nodes.Length && (newNext == INVALID || newNext < nodes.Length)
      modifies nodes
      ensures nodes[..] == LinkedIn(old(nodes[..]), curIndex, newPrev, newNext)
      ensures nodes[curIndex].prev == newPrev && nodes[curIndex].next == newNext
    {
      nodes[curIndex] := nodes[curIndex].(prev := newPrev, next := newNext);
      nodes[newPrev] := nodes[newPrev].(next := curIndex);
      if newNext != INVALID {
        nodes[newNext] := nodes[newNext].(prev := curIndex);
      }
    }

    /** `expand_nodes`: a bigger node array takes over the nodes; the new slots are free. */
    method ExpandNodes(n: nat)
      requires Valid() && n <= MAX_SIZE
      modifies this, nodes
      ensures Valid()
      ensures buckets == old(buckets) && (nodes == old(nodes) || fresh(nodes))
      ensures n <= nodes.Length
      ensures model == old(model) && order == old(order) && items == old(items) && size == old(size)
      ensures n > old(nodes.Length) ==> spare != []
      ensures old(nodes.Length) <= nodes.Length && nodes[..old(nodes.Length)] == old(nodes[..])
    {
      if n <= nodes.Length {
        return;
      }
      hide GrowthInRange, Listed, Linked, Tagged, Runs, Chained, EntriesMoved, LinksCopied, At, Bits.IsPow2;
      ghost var s0 := nodes[..];
      var newSpace := Bits.RoundupPowOfTwo32(n);
      var newData := new Node<K, V>[newSpace](i => Node(junk(i), junk(i), junk(i), None));
      CopyLinks(newData);
      ChainFree(newData);
      MoveEntries(newData);
      AllEntriesMoved(s0, nodes[..], newData[..], order, spare, items, model);
      TaggedPrefix(s0, newData[..], order, BucketsOf(items, hash, buckets.Length));
      spare := Ascending(nodes.Length, newSpace) + spare;
      nodes := newData;
    }

    /** The links of the old nodes, without their entries. */
    method CopyLinks(newData: array<Node<K, V>>)
      requires nodes.Length < newData.Length && newData != nodes
      requires forall j :: 0 <= j < newData.Length ==> newData[j].entry.None?
      modifies newData
      ensures LinksCopied(nodes[..], newData[..], nodes.Length)
      ensures forall j :: nodes.Length <= j < newData.Length ==> newData[j].entry.None?
    {
      for i := 0 to nodes.Length
        invariant forall j :: 0 <= j < i ==> newData[j] == nodes[j].(entry := None)
        invariant forall j :: i <= j < newData.Length ==> newData[j].entry.None?
      {
        newData[i] := newData[i].(bucketIdx := nodes[i].bucketIdx, prev := nodes[i].prev, next := nodes[i].next);
      }
    }

    /** The new slots go to the front of the free list, lowest first. */
    method ChainFree(newData: array<Node<K, V>>)
      requires nodes.Length < newData.Length && newData != nodes
      requires LinksCopied(nodes[..], newData[..], nodes.Length)
      requires forall j :: nodes.Length <= j < newData.Length ==> newData[j].entry.None?
      modifies newData, `free
      ensures LinksCopied(nodes[..], newData[..], nodes.Length)
      ensures Chained(newData[..], nodes.Length, old(free)) && free == nodes.Length
    {
      ghost var rest := free;
      var i := newData.Length;
      while i > nodes.Length
        invariant nodes.Length <= i <= newData.Length
        invariant free == if i < newData.Length then i else rest
        invariant forall j :: 0 <= j < nodes.Length ==> newData[j] == nodes[j].(entry := None)
        invariant forall j :: nodes.Length <= j < newData.Length ==> newData[j].entry.None?
        invariant forall j :: i <= j < newData.Length ==> newData[j].next == if j + 1 < newData.Length then j + 1
                  else rest
      {
        newData[i - 1] := newData[i - 1].(prev := INVALID, next := free);
        free := i - 1;
        i := i - 1;
      }
    }

    /** The walk over the live nodes that moves their entries. */
    method MoveEntries(newData: array<Node<K, V>>)
      requires nodes.Length < newData.Length && newData != nodes
      requires Linked(nodes[..], order) && head == At(order, 0)
      requires LinksCopied(nodes[..], newData[..], nodes.Length)
      modifies newData, nodes
      ensures EntriesMoved(old(nodes[..]), nodes[..], newData[..], order, |order|)
      ensures newData[nodes.Length..] == old(newData[nodes.Length..])
    {
      ghost var s0 := nodes[..];
      assert EntriesMoved(s0, nodes[..], newData[..], order, 0);
      AtEnd(s0, order);
      hide GrowthInRange, Linked, EntriesMoved, LinksCopied, At;
      var it := head;
      ghost var cnt := 0;
      while it != INVALID
        invariant cnt <= |order| && it == At(order, cnt)
        invariant EntriesMoved(s0, nodes[..], newData[..], order, cnt)
        invariant newData[nodes.Length..] == old(newData[nodes.Length..])
        decreases |order| - cnt
      {
        ghost var s1, t1 := nodes[..], newData[..];
        AtEnd(s0, order);
        EntriesMovedStep(s0, s1, t1, order, cnt);
        newData[it] := newData[it].(entry := nodes[it].entry);
        nodes[it] := nodes[it].(entry := None);
        it := nodes[it].next;
        assert nodes[..] == s1[order[cnt] := s1[order[cnt]].(entry := None)];
        assert newData[..] == t1[order[cnt] := t1[order[cnt]].(entry := s1[order[cnt]].entry)];
        cnt := cnt + 1;
      }
    }

    /** `find_index_and_bucket_idx_by_key`: the walk along the run of the key's bucket. */
    method FindIndex(key: K) returns (index: nat, bucketIdx: nat)
      requires Valid()
      ensures bucketIdx == if buckets.Length > 0 then BucketOf(hash(key), buckets.Length) else INVALID
      ensures index != INVALID <==> key in model
      ensures index != INVALID ==>
                && IsLive(Iter(index, bucketIdx))
                && nodes[index].entry == Some((key, model[key]))
    {
      index, bucketIdx := INVALID, INVALID;
      if buckets.Length > 0 {
        hide GrowthInRange, Listed, Linked, Tagged, Runs, Represents, Holds, BucketOf, At, Distinct, RunStart, InRange,
            BucketsOf, Searched;
        ghost var s0, bs := nodes[..], BucketsOf(items, hash, buckets.Length);
        bucketIdx := BucketOf(hash(key), buckets.Length);
        ghost var s := SearchReads(s0, buckets[..], order, spare, items, model, hash, bucketIdx);
        ghost var j := s;
        SearchedNone(items, bs, bucketIdx, key, s);
        var validIndex := buckets[bucketIdx];
        while validIndex != INVALID
          invariant Searched(items, bs, bucketIdx, key, s, j)
          invariant buckets[bucketIdx] != INVALID ==> validIndex == At(order, j)
          invariant buckets[bucketIdx] == INVALID ==> validIndex == INVALID
          decreases |order| - j
        {
          SearchAt(s0, order, items, bs, j);
          SearchedNext(items, bs, bucketIdx, key, s, j);
          if nodes[validIndex].bucketIdx != bucketIdx {
            SearchEnds(order, items, model, buckets[..], hash, key, s, j);
            return INVALID, bucketIdx;
          }
          if nodes[validIndex].entry.value.0 == key {
            PairAt(items, model, j);
            return validIndex, bucketIdx;
          }
          validIndex := nodes[validIndex].next;
          j := j + 1;
        }
        SearchEnds(order, items, model, buckets[..], hash, key, s, j);
      }
    }

    /** `find`. */
    method Find(key: K) returns (it: Iter)
      requires Valid()
      ensures LegalCheck(it) <==> key in model
      ensures key in model ==> IsLive(it) && nodes[it.nodeIndex].entry == Some((key, model[key]))
    {
      var index, bucketIdx := FindIndex(key);
      it := Iter(index, bucketIdx);
    }

    /** `iterator_legal_check`, for an iterator of this map. */
    predicate LegalCheck(it: Iter)
      reads this, nodes
    {
      && it.nodeIndex != INVALID
      && it.nodeIndex < nodes.Length
      && nodes[it.nodeIndex].bucketIdx == it.bucketIdx
    }

    /** `add` with a value; the key must be new. */
    method Add(key: K, value: V) returns (it: Iter)
      requires Valid() && key !in model && size < MAX_SIZE
      modifies this, nodes, buckets
      ensures Valid() && Grown()
      ensures model == old(model)[key := value] && size == old(size) + 1
      ensures IsLive(it) && nodes[it.nodeIndex].entry == Some((key, value))
      ensures growth(size) <= buckets.Length
      ensures growth(size) <= old(buckets.Length) ==> buckets == old(buckets)
      ensures buckets == old(buckets) ==> forall other: Iter :: old(IsLive(other)) ==>
                IsLive(other) && nodes[other.nodeIndex].entry == old(nodes[other.nodeIndex].entry)
    {
      hide GrowthInRange, Listed, Tagged, Runs, BucketOf, Valid, IsLive;
      var bucketIdx := MakeRoom(key);
      it := AddToBucket(key, value, bucketIdx);
    }

    /** The part of `add` that makes both arrays big enough. */
    method MakeRoom(key: K) returns (bucketIdx: nat)
      requires Valid() && key !in model && size < MAX_SIZE
      modifies this, nodes
      ensures Valid() && Grown() && spare != [] && model == old(model) && size == old(size)
      ensures buckets.Length > 0 && bucketIdx == BucketOf(hash(key), buckets.Length)
      ensures growth(size + 1) <= buckets.Length
      ensures growth(size + 1) <= old(buckets.Length) ==> buckets == old(buckets)
      ensures buckets == old(buckets) ==> forall other: Iter :: old(IsLive(other)) ==>
                IsLive(other) && nodes[other.nodeIndex].entry == old(nodes[other.nodeIndex].entry)
    {
      var expectedBuckets := growth(size + 1);
      if expectedBuckets > buckets.Length {
        ExpandBuckets(expectedBuckets);
      }
      var _, b := FindIndex(key);
      bucketIdx := b;
      if free == INVALID {
        FreeExhausted();
        ExpandNodes(nodes.Length + 1);
      }
    }

    /** The part of `add` after both arrays are big enough. */
    method AddToBucket(key: K, value: V, bucketIdx: nat) returns (it: Iter)
      requires Valid() && spare != [] && key !in model && buckets.Length > 0
      requires bucketIdx == BucketOf(hash(key), buckets.Length)
      modifies nodes, buckets, `head, `tail, `free, `order, `spare, `items, `model, `size
      ensures Valid()
      ensures model == old(model)[key := value] && size == old(size) + 1
      ensures IsLive(it) && nodes[it.nodeIndex].entry == Some((key, value))
      ensures forall other: Iter :: old(IsLive(other)) ==>
                IsLive(other) && nodes[other.nodeIndex].entry == old(nodes[other.nodeIndex].entry)
    {
      hide GrowthInRange, Listed, Linked, Tagged, Runs, BucketOf, InsertAt, At, AddedNode;
      ghost var s0, heads0 := nodes[..], buckets[..];
      FreeAvailable();
      ghost var i: int := AddStep(s0, heads0, order, spare, items, model, hash, (key, value));
      AddEnds(i);
      FirstFree();
      AddedNodeKeeps(s0, free, At(order, i - 1), heads0[bucketIdx], bucketIdx, (key, value));
      InsertedInto(order, i, free);
      it := AllocNode(key, value, bucketIdx, At(order, i - 1));
      order, spare := InsertAt(order, i, it.nodeIndex), spare[1..];
      items, model := InsertAt(items, i, (key, value)), model[key := value];
      size := size + 1;
    }

    lemma FirstFree()
      requires Valid() && spare != []
      ensures free !in order
    {
      assert free == spare[0];
    }

    lemma FreeExhausted()
      requires Valid() && free == INVALID
      ensures size == nodes.Length
    {
      hide GrowthInRange, Tagged, Runs, Represents, Holds;
      LinkedInRange(nodes[..], order);
      if spare != [] { SpareFacts(nodes[..], order, spare); }
      AllSlotsLive(nodes.Length, order, spare);
    }

    lemma AddEnds(i: nat)
      requires Valid() && i <= |order| && spare != []
      ensures tail == At(order, |order| - 1) && head == At(order, 0) && size == |order|
      ensures At(InsertAt(order, i, spare[0]), 0) == if i == 0 then free else head
      ensures At(InsertAt(order, i, spare[0]), |order|) == if i == |order| then free else tail
    {
      InsertEnds(order, i, spare[0]);
    }

    lemma FreeAvailable()
      requires Valid() && spare != []
      ensures free == spare[0]
    {
    }

    /** Takes the first free node, fills it and links it in before the run of its bucket, or at
        the end of the list. */
    method AllocNode(key: K, value: V, bucketIdx: nat, ghost prev: nat) returns (it: Iter)
      requires nodes.Length <= INVALID && free < nodes.Length && bucketIdx < buckets.Length
      requires buckets[bucketIdx] == INVALID || buckets[bucketIdx] < nodes.Length
      requires buckets[bucketIdx] != free && prev != free
      requires prev == if buckets[bucketIdx] == INVALID then tail else nodes[buckets[bucketIdx]].prev
      requires prev == INVALID || prev < nodes.Length
      modifies nodes, buckets, `head, `tail, `free
      ensures it == Iter(old(free), bucketIdx)
      ensures nodes[..] == AddedNode(old(nodes[..]), old(free), prev, old(buckets[bucketIdx]), bucketIdx, (key, value))
      ensures buckets[..] == old(buckets[..])[bucketIdx := old(free)]
      ensures free == old(nodes[free].next)
      ensures head == if prev == INVALID then old(free) else old(head)
      ensures tail == if old(buckets[bucketIdx]) == INVALID then old(free) else old(tail)
      ensures nodes[it.nodeIndex].bucketIdx == bucketIdx && nodes[it.nodeIndex].entry == Some((key, value))
    {
      var nextIndex := buckets[bucketIdx];
      var prevIndex := if nextIndex == INVALID then tail else nodes[nextIndex].prev;
      var newIndex := free;
      free := nodes[newIndex].next;
      buckets[bucketIdx] := newIndex;
      nodes[newIndex] := nodes[newIndex].(next := nextIndex, prev := prevIndex, bucketIdx := bucketIdx);
      if prevIndex != INVALID {
        nodes[prevIndex] := nodes[prevIndex].(next := newIndex);
      } else {
        head := newIndex;
      }
      if nextIndex != INVALID {
        nodes[nextIndex] := nodes[nextIndex].(prev := newIndex);
      } else {
        tail := newIndex;
      }
      nodes[newIndex] := nodes[newIndex].(entry := Some((key, value)));
      it := Iter(newIndex, bucketIdx);
    }

    /** `erase` of an iterator. The check cannot tell a live node from a freed one: the iterator
        still passes it afterwards. So the caller has to pass a live iterator or one that fails. */
    method Erase(it: Iter) returns (ok: bool)
      requires Valid() && (LegalCheck(it) ==> IsLive(it))
      modifies this, nodes, buckets
      ensures Valid() && Grown()
      ensures ok == old(LegalCheck(it)) && size <= old(size)
      ensures !ok ==> model == old(model) && order == old(order) && items == old(items)
      ensures ok ==>
                && old(nodes[it.nodeIndex].entry.Some?)
                && model == old(model) - {old(nodes[it.nodeIndex].entry.value.0)}
      ensures ok ==> LegalCheck(it) && it.nodeIndex !in order
      ensures nodes == old(nodes) && buckets == old(buckets)
      ensures forall other: Iter :: LegalCheck(other) <==> old(LegalCheck(other))
      ensures forall other: Iter :: IsLive(other) <==> old(IsLive(other)) && (ok ==> other.nodeIndex != it.nodeIndex)
      ensures forall other: Iter :: IsLive(other) ==> nodes[other.nodeIndex].entry == old(nodes[other.nodeIndex].entry)
    {
      if !LegalCheck(it) {
        return false;
      }
      ghost var i :| 0 <= i < |order| && order[i] == it.nodeIndex;
      EraseAt(it, i);
      return true;
    }

    method EraseAt(it: Iter, ghost i: nat)
      requires Valid() && i < |order| && order[i] == it.nodeIndex && LegalCheck(it)
      modifies nodes, buckets, `head, `tail, `free, `order, `spare, `items, `model, `size
      ensures Valid() && size < old(size)
      ensures LegalCheck(it) && it.nodeIndex !in order
      ensures old(nodes[it.nodeIndex].entry.Some?) && model == old(model) - {old(nodes[it.nodeIndex].entry.value.0)}
      ensures OthersKept(old(nodes[..]), nodes[..], it.nodeIndex)
      ensures forall x :: x in order <==> x in old(order) && x != it.nodeIndex
    {
      hide GrowthInRange, Listed, Linked, Tagged, Runs, BucketOf, RemoveAt, At, ErasedNode, HeadsAfterErase, BucketsOf,
          InRange, IsLive, OthersKept;
      Nonempty(i);
      RemovedSlotAbsent(nodes[..], order, i);
      RemovedFrom(nodes[..], order, i);
      SlotErased(it.nodeIndex, i);
      EraseReads(nodes[..], buckets[..], order, spare, items, model, hash, i);
      EraseStep(nodes[..], buckets[..], order, spare, items, model, hash, i);
      AtFirst(it.nodeIndex, spare);
      UnlinkLive(it);
      order, spare := RemoveAt(order, i), [it.nodeIndex] + spare;
      items, model := RemoveAt(items, i), model - {items[i].0};
    }

    lemma SlotErased(x: nat, i: nat)
      requires Valid() && i < |order| && order[i] == x && x < nodes.Length
      ensures nodes.Length <= INVALID
      ensures nodes[x].prev == INVALID || nodes[x].prev < nodes.Length
      ensures nodes[x].next == INVALID || nodes[x].next < nodes.Length
      ensures OthersKept(nodes[..], ErasedNode(nodes[..], x, free), x)
    {
      LinksAt(nodes[..], order, i);
      LinkedInRange(nodes[..], order);
      hide Linked, FreeLinked, Partition, Holds, Represents, Tagged, Runs, OthersKept;
      ErasedNodeKeeps(nodes[..], x, free);
    }

    lemma Nonempty(i: nat)
      requires Valid() && i < |order|
      ensures |items| == |order| && buckets.Length > 0 && Linked(nodes[..], order)
    {
      EntriesListed(nodes[..], order, items);
    }

    lemma AtFirst(x: nat, rest: seq<nat>)
      ensures At([x] + rest, 0) == x
    {
    }

    /** Takes a live node out of the list and of its bucket and returns it to the free list. */
    method UnlinkLive(it: Iter)
      requires LegalCheck(it) && nodes.Length <= INVALID && it.bucketIdx < buckets.Length && size > 0
      requires nodes[it.nodeIndex].prev == INVALID || nodes[it.nodeIndex].prev < nodes.Length
      requires nodes[it.nodeIndex].next == INVALID || nodes[it.nodeIndex].next < nodes.Length
      requires nodes[it.nodeIndex].prev != it.nodeIndex && nodes[it.nodeIndex].next != it.nodeIndex
      modifies nodes, buckets, `head, `tail, `free, `size
      ensures nodes[..] == ErasedNode(old(nodes[..]), it.nodeIndex, old(free))
      ensures buckets[..] == HeadsAfterErase(old(nodes[..]), old(buckets[..]), it.nodeIndex)
      ensures head == if old(nodes[it.nodeIndex].prev) == INVALID then old(nodes[it.nodeIndex].next) else old(head)
      ensures tail == if old(nodes[it.nodeIndex].next) == INVALID then old(nodes[it.nodeIndex].prev) else old(tail)
      ensures free == it.nodeIndex && size == old(size) - 1 && LegalCheck(it)
    {
      var curIndex := it.nodeIndex;
      var prevIndex, nextIndex := nodes[curIndex].prev, nodes[curIndex].next;
      if prevIndex != INVALID {
        nodes[prevIndex] := nodes[prevIndex].(next := nodes[curIndex].next);
      } else {
        head := nodes[curIndex].next;
      }
      if nextIndex != INVALID {
        nodes[nextIndex] := nodes[nextIndex].(prev := nodes[curIndex].prev);
      } else {
        tail := nodes[curIndex].prev;
      }
      var bucketIdx := it.bucketIdx;
      if curIndex == buckets[bucketIdx] {
        if nextIndex != INVALID && nodes[nextIndex].bucketIdx == bucketIdx {
          buckets[bucketIdx] := nextIndex;
        } else {
          buckets[bucketIdx] := INVALID;
        }
      }
      nodes[curIndex] := nodes[curIndex].(next := free);
      free := curIndex;
      size := size - 1;
      nodes[curIndex] := nodes[curIndex].(entry := None);
    }

    /** `erase` of a key. */
    method EraseKey(key: K) returns (ok: bool)
      requires Valid()
      modifies this, nodes, buckets
      ensures Valid() && Grown()
      ensures ok == (key in old(model)) && model == old(model) - {key} && size <= old(size)
      ensures nodes == old(nodes) && buckets == old(buckets)
      ensures forall other: Iter :: LegalCheck(other) <==> old(LegalCheck(other))
      ensures forall other: Iter :: old(IsLive(other)) ==>
                old(nodes[other.nodeIndex].entry.Some?)
                    && (IsLive(other) <==> old(nodes[other.nodeIndex].entry.value.0) != key)
      ensures forall other: Iter :: IsLive(other) ==>
                && old(IsLive(other))
                && nodes[other.nodeIndex].entry == old(nodes[other.nodeIndex].entry)
    {
      hide GrowthInRange, Listed, Linked, Tagged, Runs;
      LiveKeys();
      var it := Find(key);
      if !LegalCheck(it) {
        return false;
      }
      ok := Erase(it);
    }

    /** A node that passes the check is live or on the free list; which one, the check cannot tell. */
    lemma LegalMeans(it: Iter)
      requires Valid() && LegalCheck(it)
      ensures IsLive(it) <==> it.nodeIndex !in spare
      ensures it.nodeIndex in spare <==> nodes[it.nodeIndex].entry.None?
    {
      if it.nodeIndex in order {
        ListedFacts(nodes[..], order, spare, items, model);
        KeySlotUnique(nodes[..], order, spare, items, model, it.nodeIndex);
      }
    }

    /** Live nodes hold different keys of the map. */
    lemma LiveKeys()
      requires Valid()
      ensures forall x :: x in order ==> x < nodes.Length && nodes[x].entry.Some? && nodes[x].entry.value.0 in model
      ensures forall x, y :: x in order && y in order ==> (nodes[x].entry.value.0 == nodes[y].entry.value.0 <==> x == y)
    {
      hide GrowthInRange, Listed, Tagged, Runs;
      forall x | x in order
        ensures x < nodes.Length && nodes[x].entry.Some? && nodes[x].entry.value.0 in model
        ensures forall y :: y in order ==>
                  && y < nodes.Length && nodes[y].entry.Some?
                  && (nodes[y].entry.value.0 == nodes[x].entry.value.0 <==> y == x)
      {
        KeySlotUnique(nodes[..], order, spare, items, model, x);
      }
    }

    /** What becomes of an iterator when another key, or the same one, is erased: it stays live
        exactly if the keys differ. It passes the check in any case. */
    method FindThenErase(key: K, erased: K) returns (it: Iter)
      requires Valid() && key in model
      modifies this, nodes, buckets
      ensures Valid() && model == old(model) - {erased}
      ensures LegalCheck(it) && (IsLive(it) <==> key != erased)
      ensures key != erased ==> nodes[it.nodeIndex].entry == Some((key, model[key]))
    {
      hide GrowthInRange, Listed, Linked, Tagged, Runs;
      it := Find(key);
      var ok := EraseKey(erased);
    }

    /** After `clear` no iterator is live, but those that passed the check still do. */
    method FindThenClear(key: K) returns (it: Iter)
      requires Valid() && key in model
      modifies this, nodes, buckets
      ensures Valid() && model == map[]
      ensures LegalCheck(it) && !IsLive(it)
    {
      hide GrowthInRange, Listed, Linked, Tagged, Runs;
      it := Find(key);
      Clear();
    }

    /** Replaces the value that the reference behind an iterator denotes. */
    method SetValue(it: Iter, value: V)
      requires Valid() && IsLive(it) && nodes[it.nodeIndex].entry.Some?
      modifies nodes, `items, `model
      ensures Valid()
      ensures model == old(model)[old(nodes[it.nodeIndex].entry.value.0) := value]
      ensures nodes[it.nodeIndex].entry == Some((old(nodes[it.nodeIndex].entry.value.0), value)) && IsLive(it)
    {
      ghost var i :| 0 <= i < |order| && order[i] == it.nodeIndex;
      EntryAt(nodes[..], order, items, i);
      SetValueAt(it.nodeIndex, value, i);
    }

    method SetValueAt(x: nat, value: V, ghost i: nat)
      requires Valid() && i < |order| == |items| && order[i] == x && x < nodes.Length
               && nodes[x].entry == Some(items[i])
      modifies nodes, `items, `model
      ensures Valid()
      ensures model == old(model)[old(items[i].0) := value]
      ensures nodes[x] == old(nodes[x].(entry := Some((items[i].0, value))))
    {
      hide GrowthInRange, Listed, Tagged, Runs, BucketsOf, Holds;
      ghost var s0, bs, kv := nodes[..], BucketsOf(items, hash, buckets.Length), (items[i].0, value);
      ListedValueSet(s0, order, spare, items, model, i, value);
      BucketsValueSet(items, hash, buckets.Length, i, value);
      TaggedValueSet(s0, order, bs, x, Some(kv));
      nodes[x] := nodes[x].(entry := Some((nodes[x].entry.value.0, value)));
      assert nodes[..] == s0[x := s0[x].(entry := Some(kv))];
      items, model := items[i := kv], model[items[i].0 := value];
    }

    /** `operator[]`: the node of the key, added with the default value if it is not there. */
    method Subscript(key: K, default: V) returns (it: Iter)
      requires Valid() && (key !in model ==> size < MAX_SIZE)
      modifies this, nodes, buckets
      ensures Valid() && Grown()
      ensures model == if key in old(model) then old(model) else old(model)[key := default]
      ensures size == if key in old(model) then old(size) else old(size) + 1
      ensures IsLive(it) && nodes[it.nodeIndex].entry == Some((key, model[key]))
    {
      it := Find(key);
      if !LegalCheck(it) {
        it := Add(key, default);
      }
    }

    /** The walk over the live nodes that destroys their entries. */
    method DestroyEntries()
      requires Linked(nodes[..], order) && head == At(order, 0)
      requires FreeLinked(nodes[..], spare) && Partition(nodes.Length, order, spare)
      modifies nodes
      ensures forall j :: 0 <= j < nodes.Length ==>
                && nodes[j].entry.None?
                && nodes[j].bucketIdx == old(nodes[j].bucketIdx)
    {
      ghost var s0 := nodes[..];
      assert EntriesDropped(s0, s0, order, 0);
      AtEnd(s0, order);
      hide GrowthInRange, Linked, EntriesDropped, At, FreeLinked, Partition;
      var it := head;
      ghost var cnt := 0;
      while it != INVALID
        invariant cnt <= |order| && it == At(order, cnt)
        invariant EntriesDropped(s0, nodes[..], order, cnt)
        decreases |order| - cnt
      {
        ghost var s1 := nodes[..];
        AtEnd(s0, order);
        EntriesDroppedStep(s0, s1, order, cnt);
        nodes[it] := nodes[it].(entry := None);
        it := nodes[it].next;
        assert nodes[..] == s1[order[cnt] := s1[order[cnt]].(entry := None)];
        cnt := cnt + 1;
      }
      AllEntriesDropped(s0, nodes[..], order, spare);
    }

    /** `clear`: destroys all pairs and keeps both arrays. */
    method Clear()
      requires Valid()
      modifies this, nodes, buckets
      ensures Valid() && nodes == old(nodes) && buckets == old(buckets)
      ensures model == map[] && items == [] && size == 0 && order == []
      ensures forall it: Iter :: LegalCheck(it) <==> old(LegalCheck(it))
    {
      hide GrowthInRange, Listed, Linked, Runs, Tagged, FreeLinked, Partition, Represents, Chained, Holds, At,
          Bits.IsPow2, BucketsOf;
      ListedFacts(nodes[..], order, spare, items, model);
      DestroyEntries();
      DropBuckets();
      ChainAll();
      size, tail, head := 0, INVALID, INVALID;
      ListedEmpty(nodes[..]);
      NoRuns(nodes[..], buckets[..]);
      AtEmpty(nodes.Length);
      order, spare, items, model := [], Ascending(0, nodes.Length), [], map[];
    }

    lemma AtEmpty(n: nat)
      ensures At([], 0) == INVALID && At([], -1) == INVALID
      ensures At(Ascending(0, n), 0) == if n > 0 then 0 else INVALID
    {
    }

    method DropBuckets()
      modifies buckets
      ensures forall b :: 0 <= b < buckets.Length ==> buckets[b] == INVALID
    {
      for i := 0 to buckets.Length
        invariant forall b :: 0 <= b < i ==> buckets[b] == INVALID
      {
        buckets[i] := INVALID;
      }
    }

    /** All nodes form the free list, lowest first. */
    method ChainAll()
      requires nodes.Length <= MAX_SIZE && forall j :: 0 <= j < nodes.Length ==> nodes[j].entry.None?
      modifies nodes, `free
      ensures Chained(nodes[..], 0, INVALID) && free == if nodes.Length > 0 then 0 else INVALID
      ensures forall j :: 0 <= j < nodes.Length ==> nodes[j].bucketIdx == old(nodes[j].bucketIdx)
    {
      if nodes.Length > 0 {
        free := 0;
        for i := 0 to nodes.Length
          modifies nodes
          invariant forall j :: 0 <= j < nodes.Length ==>
                      && nodes[j].entry.None?
                      && nodes[j].bucketIdx == old(nodes[j].bucketIdx)
          invariant forall j :: 0 <= j < i ==> nodes[j].next == j + 1
        {
          nodes[i] := nodes[i].(prev := INVALID, next := i + 1);
        }
        nodes[nodes.Length - 1] := nodes[nodes.Length - 1].(next := INVALID);
      } else {
        free := INVALID;
      }
    }

    /** `reset`: destroys all pairs and gives both arrays up. */
    method Reset()
      requires Valid()
      modifies this, nodes
      ensures Valid() && fresh(nodes) && fresh(buckets)
      ensures model == map[] && items == [] && size == 0 && nodes.Length == buckets.Length == 0
    {
      hide GrowthInRange, Listed, Linked, Runs, Tagged, FreeLinked, Partition, Represents, Chained, Holds, At,
          Bits.IsPow2, BucketsOf;
      ListedFacts(nodes[..], order, spare, items, model);
      DestroyEntries();
      buckets, nodes := new nat[0], new Node<K, V>[0];
      NothingStored();
      size, head, tail, free := 0, INVALID, INVALID, INVALID;
      order, spare, items, model := [], [], [], map[];
    }

    lemma NothingStored()
      requires nodes.Length == 0 && buckets.Length == 0
      ensures Listed(nodes[..], [], [], [], map[])
      ensures Tagged(nodes[..], [], []) && Runs([], [], buckets[..])
      ensures At([], 0) == INVALID && At([], -1) == INVALID
    {
      assert nodes[..] == [];
      ListedEmpty<K, V>([]);
      NoRuns(nodes[..], buckets[..]);
    }

    /** Copy assignment. The map is cleared first, so that assigning it to itself empties it. */
    method CopyFrom(rhs: HashMap<K, V>)
      requires Valid() && rhs.Valid() && (rhs != this ==> rhs.nodes != nodes && rhs.buckets != buckets)
      modifies this, nodes, buckets
      ensures Valid() && Grown()
      ensures model == (if rhs == this then map[] else rhs.model) && size == (if rhs == this then 0 else rhs.size)
    {
      hide GrowthInRange, Listed, Tagged, Runs;
      ListedSize(rhs.nodes[..], rhs.order, rhs.spare, rhs.items, rhs.model);
      Clear();
      ExpandBuckets(rhs.buckets.Length);
      ExpandNodes(rhs.nodes.Length);
      if rhs == this {
        assert head == At(order, 0) == INVALID;
      }
      AddAllOf(rhs);
    }

    /** Adds all pairs of another map to an empty one, in iteration order. */
    method AddAllOf(rhs: HashMap<K, V>)
      requires Valid() && rhs.Valid() && size == 0 && model == map[]
      requires rhs.head == INVALID || (rhs != this && rhs.nodes != nodes && rhs.buckets != buckets)
      modifies this, nodes, buckets
      ensures Valid() && Grown()
      ensures model == old(rhs.model) && size == old(rhs.size)
    {
      hide GrowthInRange, Listed, Linked, Tagged, Runs, Represents, Holds, At, KeysDistinct, HasKey, Partition,
          FreeLinked;
      ghost var rs, ro, ri := rhs.nodes[..], rhs.order, rhs.items;
      ListedFacts(rs, ro, rhs.spare, ri, rhs.model);
      ListedSize(rs, ro, rhs.spare, ri, rhs.model);
      AtEnd(rs, ro);
      var it := rhs.head;
      ghost var cnt := 0;
      assert ri[..0] == [];
      RepresentsNone(ri);
      while it != INVALID
        invariant Valid() && Grown() && size == cnt <= |ro| && it == At(ro, cnt)
        invariant it != INVALID ==> rhs != this && rhs.nodes != nodes && rhs.buckets != buckets && rhs.nodes[..] == rs
        invariant Represents(ri[..cnt], model)
        decreases |ro| - cnt
      {
        LinksAt(rs, ro, cnt);
        EntryAt(rs, ro, ri, cnt);
        RepresentsNext(ri, cnt, model);
        var _ := Add(rhs.nodes[it].entry.value.0, rhs.nodes[it].entry.value.1);
        it := rhs.nodes[it].next;
        cnt := cnt + 1;
      }
      assert ri[..cnt] == ri;
      RepresentsUnique(ri, model, old(rhs.model));
    }

    /** `begin`, `operator++` until `end`: the pairs in iteration order. */
    method Iterate() returns (pairs: seq<(K, V)>)
      requires Valid()
      ensures pairs == items && Represents(pairs, model) && |pairs| == size
    {
      ghost var s0 := nodes[..];
      AtEnd(s0, order);
      EntriesListed(s0, order, items);
      hide GrowthInRange, Linked, At, Tagged, Runs, Represents, Partition, FreeLinked, Holds;
      pairs := [];
      var it := head;
      while it != INVALID
        invariant |pairs| <= |order| && it == At(order, |pairs|) && pairs == items[..|pairs|]
        decreases |order| - |pairs|
      {
        LinksAt(s0, order, |pairs|);
        EntryAt(s0, order, items, |pairs|);
        pairs := pairs + [nodes[it].entry.value];
        it := nodes[it].next;
      }
    }

    /** One operation answers as the abstract map does. */
    method Perform(op: Op<K, V>, default: V, other: HashMap<K, V>) returns (a: Answer<V>)
      requires Valid() && Allowed(model, op) && size < MAX_SIZE
      requires other.Valid() && other != this && other.nodes != nodes && other.buckets != buckets
      modifies this, nodes, buckets
      ensures Valid() && Grown()
      ensures size <= old(size) + 1 || size <= other.size
      ensures model == Effect(Client(default, other.model), old(model), op)
      ensures a == Observe(Client(default, other.model), old(model), op)
    {
      hide GrowthInRange, Listed, Linked, Tagged, Runs;
      a := Done;
      match op {
        case OpAdd(k, v) =>
          var _ := Add(k, v);
        case OpSubscript(k) =>
          var it := Subscript(k, default);
          a := Found(Some(nodes[it.nodeIndex].entry.value.1));
        case OpSubscriptAssign(k, v) =>
          var it := Subscript(k, default);
          SetValue(it, v);
        case OpFind(k) =>
          var it := Find(k);
          a := Found(if LegalCheck(it) then Some(nodes[it.nodeIndex].entry.value.1) else None);
        case OpErase(k) =>
          var ok := EraseKey(k);
          a := Erased(ok);
        case OpClear =>
          Clear();
        case OpAssign =>
          CopyFrom(other);
        case OpAssignSelf =>
          CopyFrom(this);
      }
    }

    /** Any sequence of operations answers as the abstract map does, and keeps the structure. */
    method PerformAll(ops: seq<Op<K, V>>, default: V, other: HashMap<K, V>) returns (answers: seq<Answer<V>>)
      requires other.Valid() && other != this && other.nodes != nodes && other.buckets != buckets
      requires Valid() && AllAllowed(Client(default, other.model), model, ops)
      requires size + |ops| <= MAX_SIZE && other.size + |ops| <= MAX_SIZE
      modifies this, nodes, buckets
      ensures Valid() && Grown()
      ensures model == EffectOfAll(Client(default, other.model), old(model), ops)
      ensures answers == ObserveAll(Client(default, other.model), old(model), ops)
      decreases |ops|
    {
      hide GrowthInRange, Listed, Linked, Tagged, Runs;
      if ops == [] {
        return [];
      }
      var a := Perform(ops[0], default, other);
      var rest := PerformAll(ops[1..], default, other);
      answers := [a] + rest;
    }

    /** The lists of every reachable state: the live list and the free list are disjoint, cover
        all nodes, and the live list mirrors its links and holds the map. */
    lemma ListStructure()
      requires Valid()
      ensures |model| == size == |order| && |order| + |spare| == nodes.Length
      ensures head == At(order, 0) && tail == At(order, |order| - 1) && free == At(spare, 0)
      ensures Distinct(order) && Distinct(spare)
      ensures forall i, j :: 0 <= i < |order| && 0 <= j < |spare| ==> order[i] != spare[j]
      ensures forall i :: 0 <= i < |order| ==>
                && order[i] < nodes.Length
                && nodes[order[i]].next == At(order, i + 1)
                && nodes[order[i]].prev == At(order, i - 1)
                && nodes[order[i]].entry.Some?
                && nodes[order[i]].entry.value.0 in model
                && model[nodes[order[i]].entry.value.0] == nodes[order[i]].entry.value.1
      ensures forall i :: 0 <= i < |spare| ==> spare[i] < nodes.Length && nodes[spare[i]].next == At(spare, i + 1)
    {
      hide GrowthInRange, Tagged, Runs, Listed, Linked, Holds, Represents, FreeLinked, Partition, At, Distinct, InRange;
      ListedFacts(nodes[..], order, spare, items, model);
      LinkedInRange(nodes[..], order);
      SpareInRange(nodes[..], spare);
      RepresentsCount(items, model);
      SlotCount(nodes.Length, order, spare);
      ListsApart(nodes.Length, order, spare);
      forall i | 0 <= i < |order|
        ensures order[i] < nodes.Length && nodes[order[i]].entry == Some(items[i])
        ensures nodes[order[i]].next == At(order, i + 1) && nodes[order[i]].prev == At(order, i - 1)
        ensures items[i].0 in model && model[items[i].0] == items[i].1
      {
        LinksAt(nodes[..], order, i);
        EntryAt(nodes[..], order, items, i);
        PairAt(items, model, i);
      }
      forall i | 0 <= i < |spare| ensures spare[i] < nodes.Length && nodes[spare[i]].next == At(spare, i + 1) {
        SpareAt(nodes[..], spare, i);
      }
    }

    /** The nodes of one bucket are one contiguous part of the live list. */
    lemma BucketContiguous(i: nat, j: nat, k: nat)
      requires Valid() && i <= j <= k < |order|
      ensures order[i] < nodes.Length && order[j] < nodes.Length && order[k] < nodes.Length
      ensures nodes[order[i]].bucketIdx == nodes[order[k]].bucketIdx
              ==> nodes[order[j]].bucketIdx == nodes[order[i]].bucketIdx
    {
      var bs := BucketsOf(items, hash, buckets.Length);
      LinkedInRange(nodes[..], order);
      TagAt(nodes[..], order, bs, i);
      TagAt(nodes[..], order, bs, j);
      TagAt(nodes[..], order, bs, k);
      hide GrowthInRange, Listed, Tagged, Runs, Distinct;
      if bs[i] == bs[k] { Contiguous(order, bs, buckets[..], i, j, k); }
    }

    /** The bucket of a node is the remainder of the hash of its key by the number of buckets. */
    lemma BucketIsRemainder(i: nat)
      requires Valid() && i < |order|
      ensures order[i] < nodes.Length && nodes[order[i]].entry.Some? && 0 < buckets.Length
      ensures nodes[order[i]].bucketIdx == hash(nodes[order[i]].entry.value.0) % buckets.Length
    {
      var bs := BucketsOf(items, hash, buckets.Length);
      LinkedInRange(nodes[..], order);
      TagAt(nodes[..], order, bs, i);
      EntryAt(nodes[..], order, items, i);
      BucketMeans(hash(items[i].0), buckets.Length);
    }

    /** A bucket records exactly the first of its nodes. */
    lemma BucketHeadIsFirst(i: nat)
      requires Valid() && i < |order|
      ensures forall j :: 0 <= j <= i ==> order[j] < nodes.Length
      ensures nodes[order[i]].bucketIdx < buckets.Length
      ensures buckets[nodes[order[i]].bucketIdx] == order[i]
         <==> forall j :: 0 <= j < i ==> nodes[order[j]].bucketIdx != nodes[order[i]].bucketIdx
    {
      var bs := BucketsOf(items, hash, buckets.Length);
      LinkedInRange(nodes[..], order);
      forall j | 0 <= j <= i ensures order[j] < nodes.Length && nodes[order[j]].bucketIdx == bs[j] {
        TagAt(nodes[..], order, bs, j);
      }
      HeadIsFirst(order, bs, buckets[..], i);
    }

    /** The arrays are the old ones or new ones. */
    twostate predicate Grown()
      reads this
    {
      && (nodes == old(nodes) || fresh(nodes))
      && (buckets == old(buckets) || fresh(buckets))
    }
  }
}
