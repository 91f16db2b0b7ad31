/** Dynamic arrays that construct and destroy their elements by hand, and keep a tail of zeros
    behind them. */
module ManagedArrays {
  import opened Bits

  /** What the type of the objects allows: to relocate them as bytes, to copy them over others, to
      assign them by moving bytes, and to have neither constructor nor destructor. */
  datatype Traits = Traits(relocates: bool, copies: bool, assigns: bool, pod: bool)

  /** A place in memory: whether an object lives there, and its bits. */
  datatype Slot<T> = Slot(live: bool, bits: T)

  // ---------------------------------------------------------------------------------------
  // Objects in memory
  // ---------------------------------------------------------------------------------------

  ghost predicate AllLive<T>(s: seq<Slot<T>>, from: nat, to: nat) {
    to <= |s| && forall k :: from <= k < to ==> s[k].live
  }

  ghost predicate AllRaw<T>(s: seq<Slot<T>>, from: nat, to: nat) {
    to <= |s| && forall k :: from <= k < to ==> !s[k].live
  }

  /** The same places hold the same, outside of a range. */
  ghost predicate SameOutside<T>(s: seq<Slot<T>>, t: seq<Slot<T>>, from: nat, to: nat) {
    |s| == |t| && forall k :: 0 <= k < |s| && !(from <= k < to) ==> s[k] == t[k]
  }

  /** The objects in a range of `t` are those of a range of `s`. */
  ghost predicate Moved<T>(s: seq<Slot<T>>, src: nat, t: seq<Slot<T>>, dest: nat, n: nat) {
    && src + n <= |s| && dest + n <= |t|
    && forall k :: dest <= k < dest + n ==> t[k] == Slot(true, s[k - dest + src].bits)
  }

  /** The same objects in a range. */
  ghost predicate SameIn<T>(s: seq<Slot<T>>, t: seq<Slot<T>>, from: nat, to: nat) {
    |s| == |t| && forall k :: from <= k < to && k < |s| ==> s[k] == t[k]
  }

  /** The bits in a range of `t` are those of a range of `s`. */
  ghost predicate BitsCopied<T>(s: seq<Slot<T>>, src: nat, t: seq<Slot<T>>, dest: nat, n: nat) {
    && src + n <= |s| && dest + n <= |t|
    && forall k :: dest <= k < dest + n ==> t[k].bits == s[k - dest + src].bits
  }

  /** Memory for `n` objects; nothing is known about its bits. */
  method Allocate<T>(n: nat, garbage: T) returns (a: array<Slot<T>>)
    ensures fresh(a) && a.Length == n && AllRaw(a[..], 0, n)
  {
    a := new Slot<T>[n](_ => Slot(false, garbage));
  }

  method Construct<T>(a: array<Slot<T>>, i: nat, v: T)
    requires i < a.Length && !a[i].live
    modifies a
    ensures a[..] == old(a[..])[i := Slot(true, v)]
  {
    a[i] := Slot(true, v);
  }

  method Assign<T>(a: array<Slot<T>>, i: nat, v: T)
    requires i < a.Length && a[i].live
    modifies a
    ensures a[..] == old(a[..])[i := Slot(true, v)]
  {
    a[i] := Slot(true, v);
  }

  method Destroy<T>(a: array<Slot<T>>, i: nat)
    requires i < a.Length && a[i].live
    modifies a
    ensures a[..] == old(a[..])[i := Slot(false, old(a[i].bits))]
  {
    a[i] := Slot(false, a[i].bits);
  }

  /** The value of an object is moved out; the object lives on with a value unknown. */
  method MoveOut<T>(a: array<Slot<T>>, i: nat, left: T) returns (v: T)
    requires i < a.Length && a[i].live
    modifies a
    ensures v == old(a[i].bits) && a[i].live
    ensures SameOutside(old(a[..]), a[..], i, i + 1)
  {
    v := a[i].bits;
    a[i] := Slot(true, left);
  }

  /** `object_array_destructor`. */
  method DestroyAll<T>(a: array<Slot<T>>, from: nat, n: nat)
    requires AllLive(a[..], from, from + n)
    modifies a
    ensures AllRaw(a[..], from, from + n) && SameOutside(old(a[..]), a[..], from, from + n)
    ensures forall k :: from <= k < from + n ==> a[k].bits == old(a[k].bits)
  {
    for i := 0 to n
      invariant AllRaw(a[..], from, from + i) && AllLive(a[..], from + i, from + n)
      invariant SameOutside(old(a[..]), a[..], from, from + n)
      invariant forall k :: from <= k < from + n ==> a[k].bits == old(a[k].bits)
    {
      Destroy(a, from + i);
    }
  }

  /** Bits are copied to places where no object lives, from where none lives: `memmove` of the tail. */
  method CopyBits<T>(a: array<Slot<T>>, dest: nat, b: array<Slot<T>>, src: nat, n: nat)
    requires AllRaw(a[..], dest, dest + n) && src + n <= b.Length
    modifies a
    ensures AllRaw(a[..], dest, dest + n) && SameOutside(old(a[..]), a[..], dest, dest + n)
    ensures BitsCopied(old(b[..]), src, a[..], dest, n)
  {
    var copy := b[src..src + n];
    for i := 0 to n
      invariant AllRaw(a[..], dest, dest + n) && SameOutside(old(a[..]), a[..], dest, dest + n)
      invariant forall k :: dest <= k < dest + i ==> a[k].bits == copy[k - dest].bits
    {
      a[dest + i] := Slot(false, copy[i].bits);
    }
  }

  /** `memset` of the tail. */
  method ZeroBits<T>(a: array<Slot<T>>, from: nat, n: nat, zero: T)
    requires AllRaw(a[..], from, from + n)
    modifies a
    ensures AllRaw(a[..], from, from + n) && SameOutside(old(a[..]), a[..], from, from + n)
    ensures forall k :: from <= k < from + n ==> a[k].bits == zero
  {
    for i := 0 to n
      invariant AllRaw(a[..], from, from + n) && SameOutside(old(a[..]), a[..], from, from + n)
      invariant forall k :: from <= k < from + i ==> a[k].bits == zero
    {
      a[from + i] := Slot(false, zero);
    }
  }

  // ---------------------------------------------------------------------------------------
  // Moving and copying objects
  // ---------------------------------------------------------------------------------------

  /** `memmove` of objects that are trivial to copy. */
  method MoveBytes<T>(a: array<Slot<T>>, dest: nat, src: nat, n: nat)
    requires AllLive(a[..], src, src + n) && dest + n <= a.Length
    modifies a
    ensures Moved(old(a[..]), src, a[..], dest, n) && SameOutside(old(a[..]), a[..], dest, dest + n)
  {
    var copy := a[src..src + n];
    for i := 0 to n
      invariant SameOutside(old(a[..]), a[..], dest, dest + n)
      invariant forall k :: dest <= k < dest + i ==> a[k] == copy[k - dest]
    {
      a[dest + i] := copy[i];
    }
  }

  /** `_inner_forward_move`: objects go up, from the last to the first; behind the old end they
      are constructed, before it assigned. */
  method ForwardMove<T>(a: array<Slot<T>>, dest: nat, src: nat, n: nat, trivial: bool, left: T)
    requires src < dest && AllLive(a[..], src, src + n) && AllRaw(a[..], src + n, dest + n)
    modifies a
    ensures Moved(old(a[..]), src, a[..], dest, n)
    ensures AllLive(a[..], src, if dest < src + n then dest else src + n)
    ensures AllRaw(a[..], src + n, dest)
    ensures SameOutside(old(a[..]), a[..], src, dest + n)
  {
    hide ForwardState, Moved, SameOutside, AllLive, AllRaw;
    ghost var s0 := a[..];
    if trivial {
      RawEnd(s0, src + n, dest + n);
      MoveBytes(a, dest, src, n);
      ForwardBytes(s0, a[..], src, dest, n);
      return;
    }
    ForwardStart(s0, src, dest, n);
    var diff := dest - src;
    var i: nat := n;
    while i > 0
      invariant i <= n && ForwardState(s0, a[..], src, dest, n, i)
    {
      var index := i - 1;
      ghost var s := a[..];
      ForwardPlaces(s0, s, src, dest, n, i);
      var v := MoveOut(a, src + index, left);
      ghost var s1 := a[..];
      ForwardOut(s0, s, s1, src, dest, n, i);
      if index + diff < n {
        Assign(a, dest + index, v);
      } else {
        Construct(a, dest + index, v);
      }
      ForwardStep(s0, s, s1, a[..], src, dest, n, i);
      i := i - 1;
    }
    ForwardEnd(s0, a[..], src, dest, n);
  }

  lemma RawEnd<T>(s: seq<Slot<T>>, from: nat, to: nat)
    requires AllRaw(s, from, to)
    ensures to <= |s|
  {
  }

  lemma ForwardBytes<T>(s0: seq<Slot<T>>, s: seq<Slot<T>>, src: nat, dest: nat, n: nat)
    requires src < dest && AllLive(s0, src, src + n) && AllRaw(s0, src + n, dest + n)
    requires Moved(s0, src, s, dest, n) && SameOutside(s0, s, dest, dest + n)
    ensures AllLive(s, src, if dest < src + n then dest else src + n)
    ensures AllRaw(s, src + n, dest) && SameOutside(s0, s, src, dest + n)
  {
  }

  /** The last `n - i` objects are at their new places. */
  ghost predicate ForwardState<T>(s0: seq<Slot<T>>, s: seq<Slot<T>>, src: nat, dest: nat, n: nat, i: nat) {
    && i <= n && src < dest && dest + n <= |s0| == |s|
    && Moved(s0, src + i, s, dest + i, n - i)
    && s[..src + i] == s0[..src + i]
    && AllLive(s, src, src + n) && AllRaw(s, src + n, dest + i)
    && SameOutside(s0, s, src, dest + n)
  }

  lemma ForwardStart<T>(s: seq<Slot<T>>, src: nat, dest: nat, n: nat)
    requires src < dest && AllLive(s, src, src + n) && AllRaw(s, src + n, dest + n)
    ensures ForwardState(s, s, src, dest, n, n)
  {
  }

  lemma ForwardPlaces<T>(s0: seq<Slot<T>>, s: seq<Slot<T>>, src: nat, dest: nat, n: nat, i: nat)
    requires ForwardState(s0, s, src, dest, n, i) && i > 0
    ensures dest + n <= |s| && s[src + i - 1].live && s[src + i - 1] == s0[src + i - 1]
  {
    assert s[..src + i][src + i - 1] == s0[..src + i][src + i - 1];
  }

  lemma ForwardOut<T>(s0: seq<Slot<T>>, s: seq<Slot<T>>, s1: seq<Slot<T>>, src: nat, dest: nat, n: nat, i: nat)
    requires ForwardState(s0, s, src, dest, n, i) && i > 0
    requires SameOutside(s, s1, src + i - 1, src + i)
    ensures |s1| == |s| && dest + i <= |s|
    ensures dest + i - 1 < src + n ==> s1[dest + i - 1].live
    ensures dest + i - 1 >= src + n ==> !s1[dest + i - 1].live
  {
    assert s1[dest + i - 1] == s[dest + i - 1];
  }

  lemma ForwardStep<T>(s0: seq<Slot<T>>, s: seq<Slot<T>>, s1: seq<Slot<T>>, s2: seq<Slot<T>>, src: nat, dest: nat,
                       n: nat, i: nat)
    requires ForwardState(s0, s, src, dest, n, i) && i > 0
    requires SameOutside(s, s1, src + i - 1, src + i) && s1[src + i - 1].live
    requires s2 == s1[dest + i - 1 := Slot(true, s[src + i - 1].bits)]
    ensures ForwardState(s0, s2, src, dest, n, i - 1)
  {
    ForwardPlaces(s0, s, src, dest, n, i);
    assert forall k :: 0 <= k < |s| && k != src + i - 1 && k != dest + i - 1 ==> s2[k] == s[k];
    assert s2[..src + i - 1] == s[..src + i][..src + i - 1];
    assert s0[..src + i - 1] == s0[..src + i][..src + i - 1];
  }

  lemma ForwardEnd<T>(s0: seq<Slot<T>>, s: seq<Slot<T>>, src: nat, dest: nat, n: nat)
    requires ForwardState(s0, s, src, dest, n, 0)
    ensures Moved(s0, src, s, dest, n) && SameOutside(s0, s, src, dest + n) && AllRaw(s, src + n, dest)
    ensures AllLive(s, src, if dest < src + n then dest else src + n)
  {
  }

  /** `_inner_backward_copy`: to places of which the first ones hold objects. */
  method BackwardCopy<T>(a: array<Slot<T>>, dest: nat, src: seq<T>, constructed: nat, trivial: bool)
    requires dest + |src| <= a.Length
    requires forall k :: dest <= k < dest + |src| ==> (a[k].live <==> k < dest + constructed)
    modifies a
    ensures forall k :: dest <= k < dest + |src| ==> a[k] == Slot(true, src[k - dest])
    ensures SameOutside(old(a[..]), a[..], dest, dest + |src|)
  {
    for i := 0 to |src|
      invariant forall k :: dest <= k < dest + i ==> a[k] == Slot(true, src[k - dest])
      invariant forall k :: dest + i <= k < dest + |src| ==> (a[k].live <==> k < dest + constructed)
      invariant SameOutside(old(a[..]), a[..], dest, dest + |src|)
    {
      if trivial {
        a[dest + i] := Slot(true, src[i]);
      } else if i < constructed {
        Assign(a, dest + i, src[i]);
      } else {
        Construct(a, dest + i, src[i]);
      }
    }
  }

  /** `_inner_backward_move`: objects go down, from the first to the last, by assignment. */
  method BackwardMove<T>(a: array<Slot<T>>, dest: nat, src: nat, n: nat, trivial: bool, left: T)
    requires dest <= src && AllLive(a[..], dest, src + n)
    modifies a
    ensures Moved(old(a[..]), src, a[..], dest, n)
    ensures AllLive(a[..], dest, src + n) && SameOutside(old(a[..]), a[..], dest, src + n)
    ensures SameIn(old(a[..]), a[..], dest + n, src)
  {
    ghost var s0 := a[..];
    assert forall k :: dest <= k < src + n ==> s0[k] == Slot(true, s0[k].bits);
    if trivial {
      if dest != src && n > 0 {
        MoveBytes(a, dest, src, n);
      }
      return;
    }
    if dest != src {
      hide BackwardState, Moved, SameOutside, SameIn, AllLive;
      BackwardStart(s0, src, dest, n);
      for i := 0 to n
        invariant BackwardState(s0, a[..], src, dest, n, i)
      {
        ghost var s := a[..];
        BackwardPlaces(s0, s, src, dest, n, i);
        var v := MoveOut(a, src + i, left);
        ghost var s1 := a[..];
        BackwardOut(s0, s, s1, src, dest, n, i);
        Assign(a, dest + i, v);
        BackwardStep(s0, s, s1, a[..], src, dest, n, i);
      }
      BackwardEnd(s0, a[..], src, dest, n);
    }
  }

  /** The first `i` objects are at their new places. */
  ghost predicate BackwardState<T>(s0: seq<Slot<T>>, s: seq<Slot<T>>, src: nat, dest: nat, n: nat, i: nat) {
    && i <= n && dest < src && src + n <= |s0| == |s|
    && Moved(s0, src, s, dest, i)
    && AllLive(s, dest, src + n)
    && (forall k :: 0 <= k < |s| && !(dest <= k < dest + i) && !(src <= k < src + i) ==> s[k] == s0[k])
  }

  lemma BackwardStart<T>(s: seq<Slot<T>>, src: nat, dest: nat, n: nat)
    requires dest < src && AllLive(s, dest, src + n)
    ensures BackwardState(s, s, src, dest, n, 0)
  {
  }

  lemma BackwardPlaces<T>(s0: seq<Slot<T>>, s: seq<Slot<T>>, src: nat, dest: nat, n: nat, i: nat)
    requires BackwardState(s0, s, src, dest, n, i) && i < n
    ensures src + n <= |s| == |s0| && s[src + i].live && s[src + i] == s0[src + i]
  {
  }

  lemma BackwardOut<T>(s0: seq<Slot<T>>, s: seq<Slot<T>>, s1: seq<Slot<T>>, src: nat, dest: nat, n: nat, i: nat)
    requires BackwardState(s0, s, src, dest, n, i) && i < n && SameOutside(s, s1, src + i, src + i + 1)
    ensures |s1| == |s| && dest + i < |s1| && s1[dest + i].live
  {
  }

  lemma BackwardStep<T>(s0: seq<Slot<T>>, s: seq<Slot<T>>, s1: seq<Slot<T>>, s2: seq<Slot<T>>, src: nat, dest: nat,
                        n: nat, i: nat)
    requires BackwardState(s0, s, src, dest, n, i) && i < n
    requires SameOutside(s, s1, src + i, src + i + 1) && s1[src + i].live
    requires s2 == s1[dest + i := Slot(true, s[src + i].bits)]
    ensures BackwardState(s0, s2, src, dest, n, i + 1)
  {
    BackwardPlaces(s0, s, src, dest, n, i);
    assert forall k :: 0 <= k < |s| && k != src + i && k != dest + i ==> s2[k] == s[k];
  }

  lemma BackwardEnd<T>(s0: seq<Slot<T>>, s: seq<Slot<T>>, src: nat, dest: nat, n: nat)
    requires BackwardState(s0, s, src, dest, n, n)
    ensures Moved(s0, src, s, dest, n) && AllLive(s, dest, src + n) && SameOutside(s0, s, dest, src + n)
    ensures SameIn(s0, s, dest + n, src)
  {
  }

  /** `_inner_mem_copy`: to fresh memory; objects that are not trivial to copy are destroyed. */
  method MemCopy<T>(dest: array<Slot<T>>, src: array<Slot<T>>, n: nat, trivial: bool, left: T)
    requires dest != src && n <= dest.Length && AllLive(src[..], 0, n) && AllRaw(dest[..], 0, dest.Length)
    modifies dest, src
    ensures Moved(old(src[..]), 0, dest[..], 0, n) && AllRaw(dest[..], n, dest.Length)
    ensures !trivial ==> AllRaw(src[..], 0, n)
    ensures SameOutside(old(src[..]), src[..], 0, n)
  {
    for i := 0 to n
      invariant Moved(old(src[..]), 0, dest[..], 0, i) && AllRaw(dest[..], i, dest.Length)
      invariant forall k :: i <= k < src.Length ==> src[k] == old(src[k])
      invariant !trivial ==> AllRaw(src[..], 0, i)
    {
      if trivial {
        dest[i] := src[i];
      } else {
        var v := MoveOut(src, i, left);
        Construct(dest, i, v);
        Destroy(src, i);
      }
    }
  }

  // ---------------------------------------------------------------------------------------
  // The layout of an array, and what the operations make of it
  // ---------------------------------------------------------------------------------------

  /** The first `size` places hold objects, all others none; behind the objects are zeros. */
  ghost predicate Layout<T>(s: seq<Slot<T>>, size: nat, tail: nat, zero: T) {
    if |s| == 0 then size == 0
    else
      && size + tail <= |s|
      && AllLive(s, 0, size) && AllRaw(s, size, |s|)
      && ZeroTail(s, size, tail, zero)
  }

  ghost predicate ZeroTail<T>(s: seq<Slot<T>>, size: nat, tail: nat, zero: T) {
    size + tail <= |s| && forall k :: size <= k < size + tail ==> s[k].bits == zero
  }

  ghost function Values<T>(s: seq<Slot<T>>, n: nat): (r: seq<T>)
    requires n <= |s|
    ensures |r| == n
  {
    seq(n, i requires 0 <= i < n => s[i].bits)
  }

  /** The last value takes the place of the one at `pos`. */
  ghost function LastInPlace<T>(c: seq<T>, pos: nat): seq<T>
    requires pos < |c|
  {
    c[pos := c[|c| - 1]][..|c| - 1]
  }

  lemma LastTakesPlace<T>(c: seq<T>, pos: nat)
    requires pos < |c|
    ensures LastInPlace(c, pos) == c[pos := c[|c| - 1]][..|c| - 1]
  {
  }

  /** The values from `from` on that would be in a tail there are zero. */
  ghost predicate ZeroFrom<T>(c: seq<T>, from: nat, tail: nat, zero: T) {
    forall k :: from <= k < from + tail && k < |c| ==> c[k] == zero
  }

  /** The rounded capacity of `set_capacity` is enough exactly up to the greatest power of two of
      the width; above it is two. */
  method Room(needed: nat, width: nat) returns (room: nat)
    requires width >= 32 && needed < Pow2(width)
    ensures room >= needed <==> needed <= Pow2(width - 1)
    ensures room >= needed ==> room == 2 || (IsPow2(room) && room < 2 * needed)
    ensures room < needed ==> room == 2
  {
    Pow2Words();
    Pow2Monotone(31, width - 1);
    hide Pow2, IsPow2;
    room := RoundupPowOfTwo(needed, width);
    room := if room < 2 then 2 else room;
  }

  lemma FitsWord(n: nat, width: nat)
    requires width >= 32
    ensures n <= Pow2(width - 1) ==> n < Pow2(width)
  {
  }

  class ManagedArray<T> {
    const tail: nat
    const zero: T
    const traits: Traits
    /** The width of sizes in bits. */
    const width: nat
    /** What uninitialized memory and objects that were moved out hold. */
    const junk: T
    var data: array<Slot<T>>
    var size: nat
    var capacity: nat

    ghost predicate Valid()
      reads this, data
    {
      width >= 32 && data.Length == capacity && Layout(data[..], size, tail, zero)
    }

    ghost function Contents(): seq<T>
      reads this, data
      requires Valid()
    {
      Values(data[..], size)
    }

    /** What holds between any two operations: the first `size` places hold the objects, no other
        place holds one, and if there is memory at all, `tail` zeros come behind the objects. */
    lemma Structure()
      requires Valid()
      ensures size <= capacity == data.Length && |Contents()| == size
      ensures forall k :: 0 <= k < size ==> data[k].live && Contents()[k] == data[k].bits
      ensures forall k :: size <= k < capacity ==> !data[k].live
      ensures capacity > 0 ==> size + tail <= capacity && forall k :: size <= k < size + tail ==> data[k].bits == zero
    {
    }

    constructor (tail: nat, zero: T, traits: Traits, width: nat, junk: T)
      requires width >= 32
      ensures Valid() && Contents() == [] && capacity == 0 && fresh(data)
      ensures this.tail == tail && this.zero == zero && this.traits == traits && this.width == width
    {
      this.tail, this.zero, this.traits, this.width, this.junk := tail, zero, traits, width, junk;
      data := new Slot<T>[0];
      size, capacity := 0, 0;
    }

    /** Memory is given back: unless it may hold objects, they must be destroyed before. */
    method Deallocate(a: array<Slot<T>>, mayHold: bool)
      requires !mayHold ==> AllRaw(a[..], 0, a.Length)
    {
    }

    /** Sizes that a power of two of the width can hold. */
    ghost predicate Fits(n: nat)
      requires width >= 32
    {
      n <= Pow2(width - 1)
    }

    /** The capacity that is asked for, with the tail. */
    function Needed(n: nat): nat {
      if n > 0 then n + tail else n
    }

    /** `set_capacity`. */
    method SetCapacity(newCapacity: nat, force: bool) returns (ok: bool)
      requires Valid() && Fits(newCapacity + tail)
      modifies this, data
      ensures Valid() && Contents() == old(Contents()) && size == old(size)
      ensures ok <==> newCapacity >= size && (force || (newCapacity > 0 && newCapacity + tail > old(capacity)))
      ensures !ok ==> data == old(data) && capacity == old(capacity)
      ensures ok ==> fresh(data) && Needed(newCapacity) <= capacity
      ensures ok && force ==> capacity == if newCapacity > 0 then newCapacity + tail else 0
      ensures ok && !force ==> capacity == 2 || (IsPow2(capacity) && capacity < 2 * Needed(newCapacity))
    {
      hide Layout, Values, AllRaw, IsPow2, Pow2;
      if newCapacity < size {
        return false;
      }
      var needed := if newCapacity > 0 then newCapacity + tail else newCapacity;
      var room := needed;
      if !force {
        if needed <= capacity {
          return false;
        }
        FitsWord(needed, width);
        room := Room(needed, width);
      }
      var newData := Relocate(room);
      if data.Length > 0 {
        Deallocate(data, traits.relocates);
      }
      data := newData;
      capacity := room;
      ok := true;
    }

    /** The part of `set_capacity` that brings the objects and the tail to new memory. */
    method Relocate(room: nat) returns (newData: array<Slot<T>>)
      requires Valid() && if room > 0 then size + tail <= room else size == 0
      modifies data
      ensures fresh(newData) && newData.Length == room && size == old(size)
      ensures Layout(newData[..], size, tail, zero) && Values(newData[..], size) == old(Contents())
      ensures !traits.relocates ==> AllRaw(data[..], 0, data.Length)
    {
      hide Layout, AllLive, AllRaw, ZeroTail, Values, Moved, SameOutside, SameIn, BitsCopied;
      ghost var s := data[..];
      newData := Allocate<T>(room, junk);
      if room > 0 {
        if data.Length > 0 {
          LayoutParts(s, size, tail, zero);
          MemCopy(newData, data, size, traits.relocates, junk);
          ghost var n1 := newData[..];
          RawPart(n1, size, newData.Length, size, size + tail);
          CopyBits(newData, size, data, size, tail);
          Relocated(s, data[..], n1, newData[..], size, tail, zero);
          if !traits.relocates { Emptied(s, data[..], size, tail, zero); }
        } else {
          ghost var n1 := newData[..];
          EmptyLayout(s, size, tail, zero);
          RawPart(n1, 0, newData.Length, 0, tail);
          ZeroBits(newData, 0, tail, zero);
          FreshLayout(s, n1, newData[..], size, tail, zero);
        }
      } else {
        NoLayout(s, newData[..], size, tail, zero);
      }
    }

    /** `insert` of one object. */
    method Insert(pos: nat, v: T)
      requires Valid() && pos <= size && Fits(size + 1 + tail)
      modifies this, data
      ensures Valid() && Contents() == old(Contents())[..pos] + [v] + old(Contents())[pos..]
      ensures data == old(data) || fresh(data)
    {
      hide Layout, Values, SameOutside, HasGap;
      var moveCount := size - pos;
      ghost var c := Contents();
      OpenGap(pos, 1);
      ghost var s := data[..];
      GapPlaces(c, s, size, tail, pos, 1, zero);
      if moveCount > 0 {
        Destroy(data, pos);
      }
      Construct(data, pos, v);
      OnlyPlace(s, data[..], pos);
      GapFilled(c, s, data[..], size, tail, pos, [v], zero);
      size := size + 1;
    }

    /** `insert_batch`, of objects that are not part of this array. */
    method InsertBatch(pos: nat, src: seq<T>)
      requires Valid() && pos <= size && Fits(size + |src| + tail)
      modifies this, data
      ensures Valid() && Contents() == old(Contents())[..pos] + src + old(Contents())[pos..]
      ensures data == old(data) || fresh(data)
    {
      hide Layout, Values, SameOutside, HasGap;
      ghost var c := Contents();
      if |src| == 0 {
        NothingInserted(c, pos, src);
        return;
      }
      var moveCount := size - pos;
      OpenGap(pos, |src|);
      ghost var s := data[..];
      GapPlaces(c, s, size, tail, pos, |src|, zero);
      BackwardCopy(data, pos, src, moveCount, traits.copies);
      GapFilled(c, s, data[..], size, tail, pos, src, zero);
      size := size + |src|;
    }

    /** The common part: room for `n` objects at `pos`, the tail behind the new end. */
    method OpenGap(pos: nat, n: nat)
      requires Valid() && pos <= size && Fits(size + n + tail) && n > 0
      modifies this, data
      ensures HasGap(old(Contents()), data[..], size, tail, pos, n, zero) && size == old(size)
      ensures data == old(data) || fresh(data)
      ensures data.Length == capacity
    {
      hide Layout, AllLive, AllRaw, ZeroTail, Values, Moved, SameOutside, SameIn, BitsCopied, HasGap, IsPow2;
      var moveCount := size - pos;
      var newSize := size + n;
      var grown := SetCapacity(newSize, false);
      ghost var s := data[..];
      LayoutParts(s, size, tail, zero);
      RawPart(s, size, data.Length, newSize, newSize + tail);
      CopyBits(data, newSize, data, size, tail);
      ghost var s1 := data[..];
      TailMoved(s, s1, size, tail, n, pos, zero);
      ForwardMove(data, pos + n, pos, moveCount, traits.relocates, junk);
      Opened(s, s1, data[..], size, tail, pos, n, zero);
    }

    /** `erase`: at most as many objects as there are. */
    method Erase(pos: nat, count: nat)
      requires Valid() && pos < size
      modifies this, data
      ensures Valid() && data == old(data) && capacity == old(capacity)
      ensures var n := if count < old(size) - pos then count else old(size) - pos;
              Contents() == old(Contents())[..pos] + old(Contents())[pos + n..]
    {
      hide Layout, Values;
      ghost var c := Contents();
      if count == 0 {
        NothingErased(c, pos);
        return;
      }
      EraseSome(pos, if count < size - pos then count else size - pos);
    }

    /** `erase` of some objects that are there. */
    method EraseSome(pos: nat, n: nat)
      requires Valid() && n > 0 && pos + n <= size
      modifies this, data
      ensures Valid() && data == old(data) && capacity == old(capacity)
      ensures Contents() == old(Contents())[..pos] + old(Contents())[pos + n..]
    {
      hide Layout, AllLive, AllRaw, ZeroTail, Values, Moved, SameOutside, SameIn, BitsCopied;
      ghost var s := data[..];
      SomeLayout(s, size, tail, zero);
      LivePart(s, 0, size, pos, size);
      BackwardMove(data, pos, pos + n, size - (pos + n), traits.assigns, junk);
      ghost var s1 := data[..];
      LivePart(s1, pos, size, size - n, size);
      DestroyAll(data, size - n, n);
      ghost var s2 := data[..];
      TailPlace(s, s1, s2, size, tail, pos, n, zero);
      CopyBits(data, size - n, data, size, tail);
      Erased(s, s1, s2, data[..], size, tail, pos, n, zero);
      size := size - n;
    }

    /** `erase_replace`: the last object takes the place of the erased one. */
    method EraseReplace(pos: nat)
      requires Valid() && pos < size
      modifies this, data
      ensures Valid() && data == old(data) && capacity == old(capacity)
      ensures size == old(size) - 1
      ensures Contents() == old(Contents())[pos := old(Contents()[size - 1])][..size]
    {
      hide Layout, AllLive, AllRaw, ZeroTail, Values, Moved, SameOutside, SameIn, BitsCopied, LastInPlace;
      ghost var s := data[..];
      SomeLayout(s, size, tail, zero);
      LivePart(s, 0, size, pos, size);
      BackwardMove(data, pos, size - 1, 1, traits.assigns, junk);
      ghost var s1 := data[..];
      LastLives(s1, pos, size);
      Destroy(data, size - 1);
      ghost var s2 := data[..];
      TailPlaceOne(s, s1, s2, size, tail, pos, zero);
      CopyBits(data, size - 1, data, size, tail);
      LastTakesPlace(Values(s, size), pos);
      Replaced(s, s1, s2, data[..], size, tail, pos, zero);
      size := size - 1;
    }

    /** `fill_uninitialized`, for types whose objects live as soon as there is memory for them:
        nothing is known about the new ones. */
    method FillUninitialized(count: nat)
      requires Valid() && traits.pod && Fits(size + count + tail)
      modifies this, data
      ensures Valid() && size == old(size) + count && Contents()[..old(size)] == old(Contents())
      ensures data == old(data) || fresh(data)
    {
      hide Layout, AllLive, AllRaw, ZeroTail, Values, SameOutside, IsPow2;
      ghost var c := Contents();
      var before := size;
      if size + count + tail > capacity {
        var grown := SetCapacity(size + count, false);
      }
      ghost var s := data[..];
      if data.Length > 0 {
        LayoutParts(s, size, tail, zero);
        BeginLives(before, count);
        size := before + count;
        ghost var s1 := data[..];
        if tail > 0 {
          RawPart(s1, size, data.Length, size, size + tail);
          ZeroBits(data, size, tail, zero);
        }
        Filled(s, s1, data[..], before, count, tail, zero);
      } else {
        EmptyLayout(s, size, tail, zero);
        FilledNothing(s, size);
      }
    }

    /** The lives of trivial objects begin with their memory. */
    method BeginLives(from: nat, count: nat)
      requires from + count <= data.Length && AllRaw(data[..], from, data.Length)
      modifies data
      ensures AllLive(data[..], from, from + count) && AllRaw(data[..], from + count, data.Length)
      ensures SameOutside(old(data[..]), data[..], from, from + count)
    {
      for i := 0 to count
        invariant AllLive(data[..], from, from + i) && AllRaw(data[..], from + i, data.Length)
        invariant SameOutside(old(data[..]), data[..], from, from + count)
      {
        data[from + i] := Slot(true, data[from + i].bits);
      }
    }

    /** `clear`. */
    method Clear()
      requires Valid()
      modifies this, data
      ensures Valid() && Contents() == [] && data == old(data) && capacity == old(capacity)
    {
      hide Layout, AllLive, AllRaw, ZeroTail, Values, SameOutside;
      ghost var s := data[..];
      if data.Length > 0 { LayoutParts(s, size, tail, zero); } else { EmptyLayout(s, size, tail, zero); }
      if size > 0 {
        DestroyAll(data, 0, size);
      }
      ghost var s1 := data[..];
      if data.Length > 0 {
        AllDestroyed(s, s1, size, tail, zero);
        ZeroBits(data, 0, tail, zero);
        Cleared(s1, data[..], tail, zero);
      }
      size := 0;
    }

    /** `shrink`: just enough memory. */
    method Shrink()
      requires Valid() && Fits(size + tail)
      modifies this, data
      ensures Valid() && Contents() == old(Contents()) && capacity == Needed(size)
    {
      var done := SetCapacity(size, true);
    }

    /** `reset`. */
    method Reset()
      requires Valid()
      modifies this, data
      ensures Valid() && Contents() == [] && capacity == 0
    {
      hide Layout, AllLive, AllRaw, ZeroTail, Values, SameOutside;
      if capacity > 0 {
        LayoutParts(data[..], size, tail, zero);
        ghost var s := data[..];
        if !traits.pod {
          DestroyAll(data, 0, size);
          AllDestroyed(s, data[..], size, tail, zero);
        }
        Deallocate(data, traits.pod);
        data := new Slot<T>[0];
      }
      size, capacity := 0, 0;
      NothingThere(data[..], tail, zero);
    }

    /** `pop_back` leaves the tail where it is: what follows the objects is still zero exactly if
        the one that was removed is, or if there is no tail or was no object. */
    method PopBack()
      requires Valid()
      modifies this, data
      ensures size == (if old(size) > 0 then old(size) - 1 else 0) && data == old(data)
      ensures size <= data.Length && Values(data[..], size) == old(Contents())[..size]
      ensures capacity == old(capacity) && (Valid() <==> old(size) == 0 || tail == 0 || old(Contents())[size] == zero)
    {
      hide AllLive, AllRaw, ZeroTail, Values;
      if size <= 0 {
        NothingPopped(data[..], size);
        return;
      }
      ghost var s := data[..];
      LayoutParts(s, size, tail, zero);
      LastLives(s, 0, size);
      Destroy(data, size - 1);
      Popped(s, data[..], size, tail, zero);
      size := size - 1;
    }

    /** `pop_back` of a number of objects leaves the tail where it is, too: the layout is kept
        exactly if the values that come to lie in its place are zero. */
    method PopBackMany(count: nat)
      requires Valid() && count <= size
      modifies this, data
      ensures size == old(size) - count && data == old(data) && capacity == old(capacity)
      ensures size <= data.Length && Values(data[..], size) == old(Contents())[..size]
      ensures Valid() <==> ZeroFrom(old(Contents()), size, tail, zero)
    {
      hide AllLive, AllRaw, ZeroTail, Values, SameOutside, Layout, ZeroFrom;
      ghost var s := data[..];
      SomeSize(s, size, tail, zero);
      LivePart(s, 0, size, size - count, size);
      size := size - count;
      DestroyAll(data, size, count);
      PoppedMany(s, data[..], size, count, tail, zero);
    }
  }

  lemma SomeSize<T>(s: seq<Slot<T>>, size: nat, tail: nat, zero: T)
    requires Layout(s, size, tail, zero)
    ensures size <= |s| && AllLive(s, 0, size)
  {
  }

  lemma PoppedMany<T>(s: seq<Slot<T>>, t: seq<Slot<T>>, size: nat, count: nat, tail: nat, zero: T)
    requires Layout(s, size + count, tail, zero) && size + count <= |s|
    requires AllRaw(t, size, size + count) && SameOutside(s, t, size, size + count)
    requires forall k :: size <= k < size + count ==> t[k].bits == s[k].bits
    ensures Values(t, size) == Values(s, size + count)[..size]
    ensures Layout(t, size, tail, zero) <==> ZeroFrom(Values(s, size + count), size, tail, zero)
  {
    var c := Values(s, size + count);
    assert forall k :: size <= k < size + count ==> t[k].bits == c[k];
    assert forall k :: size + count <= k < |s| ==> t[k] == s[k];
    if |s| > 0 {
      assert AllLive(t, 0, size) && AllRaw(t, size, |t|);
      if ZeroFrom(c, size, tail, zero) {
        assert forall k :: size <= k < size + tail ==> t[k].bits == zero;
      } else {
        var k :| size <= k < size + tail && k < |c| && c[k] != zero;
        assert t[k].bits != zero;
      }
    }
  }

  lemma LayoutParts<T>(s: seq<Slot<T>>, size: nat, tail: nat, zero: T)
    requires Layout(s, size, tail, zero) && |s| > 0
    ensures size + tail <= |s| && AllLive(s, 0, size) && AllRaw(s, size, |s|) && ZeroTail(s, size, tail, zero)
  {
  }

  lemma RawPart<T>(s: seq<Slot<T>>, from: nat, to: nat, a: nat, b: nat)
    requires AllRaw(s, from, to) && from <= a <= b <= to
    ensures AllRaw(s, a, b)
  {
  }

  lemma Relocated<T>(s: seq<Slot<T>>, s1: seq<Slot<T>>, n1: seq<Slot<T>>, n2: seq<Slot<T>>, size: nat, tail: nat,
                     zero: T)
    requires Layout(s, size, tail, zero) && size + tail <= |s| && SameOutside(s, s1, 0, size)
    requires Moved(s, 0, n1, 0, size) && AllRaw(n1, size, |n1|) && size + tail <= |n1|
    requires AllRaw(n2, size, size + tail) && SameOutside(n1, n2, size, size + tail)
    requires BitsCopied(s1, size, n2, size, tail)
    ensures |n2| > 0 ==> Layout(n2, size, tail, zero) && Values(n2, size) == Values(s, size)
  {
    assert forall k :: size <= k < size + tail ==> n2[k].bits == s1[k].bits == s[k].bits;
  }

  lemma Emptied<T>(s: seq<Slot<T>>, s1: seq<Slot<T>>, size: nat, tail: nat, zero: T)
    requires Layout(s, size, tail, zero) && |s| > 0 && SameOutside(s, s1, 0, size) && AllRaw(s1, 0, size)
    ensures AllRaw(s1, 0, |s1|)
  {
  }

  lemma FreshLayout<T>(s: seq<Slot<T>>, n1: seq<Slot<T>>, n2: seq<Slot<T>>, size: nat, tail: nat, zero: T)
    requires Layout(s, size, tail, zero) && |s| == 0 && tail <= |n1| && |n1| > 0
    requires AllRaw(n1, 0, |n1|) && AllRaw(n2, 0, tail) && SameOutside(n1, n2, 0, tail)
    requires forall k :: 0 <= k < tail ==> n2[k].bits == zero
    ensures Layout(n2, size, tail, zero) && Values(n2, size) == Values(s, size)
  {
  }

  lemma NoLayout<T>(s: seq<Slot<T>>, n: seq<Slot<T>>, size: nat, tail: nat, zero: T)
    requires Layout(s, size, tail, zero) && |n| == 0 && size == 0
    ensures Layout(n, size, tail, zero) && Values(n, size) == Values(s, size) && AllRaw(s, 0, |s|)
  {
  }

  lemma EmptyLayout<T>(s: seq<Slot<T>>, size: nat, tail: nat, zero: T)
    requires Layout(s, size, tail, zero) && |s| == 0
    ensures size == 0 && AllRaw(s, 0, |s|)
  {
  }

  // Inserting

  /** After the tail has moved up by `n`, there is room for `n` objects. */
  lemma TailMoved<T>(s: seq<Slot<T>>, s1: seq<Slot<T>>, size: nat, tail: nat, n: nat, pos: nat, zero: T)
    requires AllLive(s, 0, size) && AllRaw(s, size, |s|) && pos <= size && size + n + tail <= |s|
    requires AllRaw(s1, size + n, size + n + tail) && SameOutside(s, s1, size + n, size + n + tail)
    ensures AllLive(s1, 0, size) && AllRaw(s1, size, |s1|) && AllLive(s1, pos, size) && AllRaw(s1, size, size + n)
  {
  }

  /** The values `c`, with a gap of `n` places at `pos`; the tail is behind the new end. */
  ghost predicate HasGap<T>(c: seq<T>, s: seq<Slot<T>>, size: nat, tail: nat, pos: nat, n: nat, zero: T) {
    && |c| == size && pos <= size && size + n + tail <= |s|
    && (forall k :: 0 <= k < pos ==> s[k] == Slot(true, c[k]))
    && (forall k :: pos + n <= k < size + n ==> s[k] == Slot(true, c[k - n]))
    && (forall k :: pos <= k < pos + n ==> (s[k].live <==> k < size))
    && AllRaw(s, size + n, |s|)
    && ZeroTail(s, size + n, tail, zero)
  }

  lemma Opened<T>(s: seq<Slot<T>>, s1: seq<Slot<T>>, s2: seq<Slot<T>>, size: nat, tail: nat, pos: nat, n: nat, zero: T)
    requires Layout(s, size, tail, zero) && pos <= size && n > 0 && size + n + tail <= |s|
    requires AllRaw(s1, size + n, size + n + tail) && SameOutside(s, s1, size + n, size + n + tail)
    requires BitsCopied(s, size, s1, size + n, tail)
    requires Moved(s1, pos, s2, pos + n, size - pos) && SameOutside(s1, s2, pos, size + n)
    requires AllLive(s2, pos, if pos + n < size then pos + n else size) && AllRaw(s2, size, pos + n)
    ensures HasGap(Values(s, size), s2, size, tail, pos, n, zero)
  {
    assert forall k :: 0 <= k < size ==> s1[k] == s[k];
    assert forall k :: size + n <= k < |s| ==> s2[k] == s1[k];
    assert forall k :: size + n + tail <= k < |s| ==> s1[k] == s[k];
  }

  lemma GapPlaces<T>(c: seq<T>, s: seq<Slot<T>>, size: nat, tail: nat, pos: nat, n: nat, zero: T)
    requires HasGap(c, s, size, tail, pos, n, zero)
    ensures pos + n <= |s| && forall k :: pos <= k < pos + n ==> (s[k].live <==> k < size)
  {
  }

  lemma OnlyPlace<T>(s: seq<Slot<T>>, t: seq<Slot<T>>, pos: nat)
    requires pos < |s| == |t| && forall k :: 0 <= k < |s| && k != pos ==> s[k] == t[k]
    ensures SameOutside(s, t, pos, pos + 1)
  {
  }

  lemma GapFilled<T>(c: seq<T>, s: seq<Slot<T>>, t: seq<Slot<T>>, size: nat, tail: nat, pos: nat, v: seq<T>, zero: T)
    requires HasGap(c, s, size, tail, pos, |v|, zero) && SameOutside(s, t, pos, pos + |v|) && |v| > 0
    requires forall k :: pos <= k < pos + |v| ==> t[k] == Slot(true, v[k - pos])
    ensures Layout(t, size + |v|, tail, zero)
    ensures size + |v| <= |t| && Values(t, size + |v|) == c[..pos] + v + c[pos..]
  {
  }

  lemma NothingInserted<T>(c: seq<T>, pos: nat, src: seq<T>)
    requires pos <= |c| && src == []
    ensures c == c[..pos] + src + c[pos..]
  {
  }

  // Erasing

  lemma SomeLayout<T>(s: seq<Slot<T>>, size: nat, tail: nat, zero: T)
    requires Layout(s, size, tail, zero) && size > 0
    ensures size + tail <= |s| && AllLive(s, 0, size) && AllRaw(s, size, |s|)
  {
  }

  lemma LivePart<T>(s: seq<Slot<T>>, from: nat, to: nat, a: nat, b: nat)
    requires AllLive(s, from, to) && from <= a <= b <= to
    ensures AllLive(s, a, b)
  {
  }

  lemma LastLives<T>(s: seq<Slot<T>>, pos: nat, size: nat)
    requires AllLive(s, pos, size) && pos < size
    ensures size <= |s| && s[size - 1].live
  {
  }

  lemma TailPlace<T>(s: seq<Slot<T>>, s1: seq<Slot<T>>, s2: seq<Slot<T>>, size: nat, tail: nat, pos: nat, n: nat,
                     zero: T)
    requires Layout(s, size, tail, zero) && pos + n <= size && n > 0
    requires SameOutside(s, s1, pos, size) && SameOutside(s1, s2, size - n, size) && AllRaw(s2, size - n, size)
    ensures AllRaw(s2, size - n, size - n + tail) && size + tail <= |s2|
  {
    assert forall k :: size <= k < |s| ==> s2[k] == s[k];
  }

  lemma Erased<T>(s: seq<Slot<T>>, s1: seq<Slot<T>>, s2: seq<Slot<T>>, s3: seq<Slot<T>>, size: nat, tail: nat,
                  pos: nat, n: nat, zero: T)
    requires Layout(s, size, tail, zero) && pos + n <= size && n > 0
    requires Moved(s, pos + n, s1, pos, size - (pos + n)) && SameOutside(s, s1, pos, size)
    requires SameOutside(s1, s2, size - n, size) && AllRaw(s2, size - n, size)
    requires AllRaw(s3, size - n, size - n + tail) && SameOutside(s2, s3, size - n, size - n + tail)
    requires BitsCopied(s2, size, s3, size - n, tail)
    ensures Layout(s3, size - n, tail, zero)
    ensures size <= |s| && size - n <= |s3| && Values(s3, size - n) == Values(s, size)[..pos]
            + Values(s, size)[pos + n..]
  {
    assert forall k :: 0 <= k < pos ==> s3[k] == s[k];
    assert forall k :: pos <= k < size - n ==> s3[k] == Slot(true, s[k - pos + (pos + n)].bits);
    assert forall k :: size <= k < |s| ==> s2[k] == s1[k] == s[k];
    assert forall k :: size - n + tail <= k < |s| ==> s3[k] == s2[k];
    assert forall k :: size <= k < size + tail ==> s2[k].bits == zero;
    assert forall k :: size - n <= k < size - n + tail ==> s3[k].bits == zero;
  }

  lemma NothingErased<T>(c: seq<T>, pos: nat)
    requires pos <= |c|
    ensures c == c[..pos] + c[pos + 0..]
  {
  }

  lemma TailPlaceOne<T>(s: seq<Slot<T>>, s1: seq<Slot<T>>, s2: seq<Slot<T>>, size: nat, tail: nat, pos: nat, zero: T)
    requires Layout(s, size, tail, zero) && pos < size && SameOutside(s, s1, pos, size)
    requires size <= |s1| && s2 == s1[size - 1 := Slot(false, s1[size - 1].bits)]
    ensures AllRaw(s2, size - 1, size - 1 + tail) && size + tail <= |s2|
  {
    assert forall k :: size <= k < |s| ==> s2[k] == s[k];
  }

  lemma Replaced<T>(s: seq<Slot<T>>, s1: seq<Slot<T>>, s2: seq<Slot<T>>, s3: seq<Slot<T>>, size: nat, tail: nat,
                    pos: nat, zero: T)
    requires Layout(s, size, tail, zero) && pos < size && SameOutside(s, s1, pos, size)
    requires Moved(s, size - 1, s1, pos, 1) && SameIn(s, s1, pos + 1, size - 1)
    requires s2 == s1[size - 1 := Slot(false, s1[size - 1].bits)]
    requires AllRaw(s3, size - 1, size - 1 + tail) && SameOutside(s2, s3, size - 1, size - 1 + tail)
    requires BitsCopied(s2, size, s3, size - 1, tail)
    ensures Layout(s3, size - 1, tail, zero)
    ensures size <= |s| && size - 1 <= |s3| && Values(s3, size - 1) == LastInPlace(Values(s, size), pos)
  {
    assert s1[pos] == Slot(true, s[size - 1].bits);
    assert forall k :: 0 <= k < size - 1 ==> s3[k] == s1[k];
    assert forall k :: size <= k < |s| ==> s2[k] == s1[k] == s[k];
    assert forall k :: size - 1 + tail <= k < |s| ==> s3[k] == s2[k];
    assert forall k :: size - 1 <= k < size - 1 + tail ==> s3[k].bits == zero;
  }

  lemma Popped<T>(s: seq<Slot<T>>, t: seq<Slot<T>>, size: nat, tail: nat, zero: T)
    requires Layout(s, size, tail, zero) && size > 0
    requires size <= |s| && t == s[size - 1 := Slot(false, s[size - 1].bits)]
    ensures Values(t, size - 1) == Values(s, size)[..size - 1]
    ensures Layout(t, size - 1, tail, zero) <==> tail == 0 || Values(s, size)[size - 1] == zero
  {
    assert t[size - 1].bits == Values(s, size)[size - 1];
    assert forall k :: size <= k < |s| ==> t[k] == s[k];
  }

  lemma NothingPopped<T>(s: seq<Slot<T>>, size: nat)
    requires size == 0
    ensures Values(s, 0) == Values(s, size)[..0]
  {
  }

  // Filling and clearing

  lemma Filled<T>(s: seq<Slot<T>>, s1: seq<Slot<T>>, s2: seq<Slot<T>>, size: nat, count: nat, tail: nat, zero: T)
    requires Layout(s, size, tail, zero) && size + count + tail <= |s| && |s| > 0
    requires AllLive(s1, size, size + count) && AllRaw(s1, size + count, |s1|) && SameOutside(s, s1, size, size + count)
    requires if tail > 0 then AllRaw(s2, size + count, size + count + tail)
             && SameOutside(s1, s2, size + count, size + count + tail)
                         && forall k :: size + count <= k < size + count + tail ==> s2[k].bits == zero
             else s2 == s1
    ensures Layout(s2, size + count, tail, zero)
    ensures size + count <= |s2| && Values(s2, size + count)[..size] == Values(s, size)
  {
  }

  lemma FilledNothing<T>(s: seq<Slot<T>>, size: nat)
    requires size == 0
    ensures Values(s, 0)[..0] == Values(s, size)
  {
  }

  lemma AllDestroyed<T>(s: seq<Slot<T>>, s1: seq<Slot<T>>, size: nat, tail: nat, zero: T)
    requires Layout(s, size, tail, zero) && |s| > 0
    requires (size == 0 && s1 == s) || (SameOutside(s, s1, 0, size) && AllRaw(s1, 0, size))
    ensures AllRaw(s1, 0, |s1|) && tail <= |s1| == |s| && AllRaw(s1, 0, tail)
  {
  }

  lemma Cleared<T>(s1: seq<Slot<T>>, s2: seq<Slot<T>>, tail: nat, zero: T)
    requires AllRaw(s1, 0, |s1|) && tail <= |s1| && AllRaw(s2, 0, tail) && SameOutside(s1, s2, 0, tail)
    requires forall k :: 0 <= k < tail ==> s2[k].bits == zero
    ensures Layout(s2, 0, tail, zero)
  {
  }

  lemma NothingThere<T>(s: seq<Slot<T>>, tail: nat, zero: T)
    requires |s| == 0
    ensures Layout(s, 0, tail, zero)
  {
  }
}
