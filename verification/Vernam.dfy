/** Encryption by a key that repeats: four loops that work on units of different width. */
module Vernam {
  import opened Bits
  import opened Arith
  import opened Masks

  // ---------------------------------------------------------------------------------------
  // What is computed
  // ---------------------------------------------------------------------------------------

  function Mix(x: bv8, k: bv8): bv8 {
    x ^ k
  }

  /** The byte of the repeated key at a place of the stream. */
  function KeyAt(key: seq<bv8>, n: nat): bv8
    requires |key| > 0
  {
    key[n % |key|]
  }

  /** Every byte mixed with its byte of the key stream. */
  function Encrypted(s: seq<bv8>, key: seq<bv8>, offset: nat): (r: seq<bv8>)
    requires |key| > 0
    ensures |r| == |s|
  {
    seq(|s|, i requires 0 <= i < |s| => Mix(s[i], KeyAt(key, offset + i)))
  }

  /** Encrypting twice restores the bytes. */
  lemma EncryptedTwice(s: seq<bv8>, key: seq<bv8>, offset: nat)
    requires |key| > 0
    ensures Encrypted(Encrypted(s, key, offset), key, offset) == s
  {
    forall i | 0 <= i < |s| ensures Encrypted(Encrypted(s, key, offset), key, offset)[i] == s[i] {
      MixTwice(s[i], KeyAt(key, offset + i));
    }
  }

  lemma MixTwice(x: bv8, k: bv8)
    ensures Mix(Mix(x, k), k) == x
  {
  }

  /** Encrypting pieces one after the other is encrypting the whole. */
  lemma EncryptedPieces(s: seq<bv8>, t: seq<bv8>, key: seq<bv8>, offset: nat)
    requires |key| > 0
    ensures Encrypted(s + t, key, offset) == Encrypted(s, key, offset) + Encrypted(t, key, offset + |s|)
  {
    hide KeyAt, Mix;
    var whole, parts := Encrypted(s + t, key, offset), Encrypted(s, key, offset) + Encrypted(t, key, offset + |s|);
    forall i | 0 <= i < |s + t| ensures whole[i] == parts[i] {
      assert i >= |s| ==> offset + |s| + (i - |s|) == offset + i;
    }
  }

  // ---------------------------------------------------------------------------------------
  // Places in the key
  // ---------------------------------------------------------------------------------------

  /** `pos` is the place in a key of size `k` for place `n` of the stream, or the end of the key
      for its start. */
  ghost predicate Synced(pos: nat, n: nat, k: nat) {
    k > 0 && pos <= k && pos % k == n % k
  }

  lemma SyncedKey(key: seq<bv8>, pos: nat, n: nat)
    requires Synced(pos, n, |key|) && pos < |key|
    ensures KeyAt(key, n) == key[pos]
  {
    ModSmall(pos, |key|);
  }

  lemma SyncedOn(pos: nat, n: nat, k: nat, d: nat)
    requires Synced(pos, n, k) && pos + d <= k
    ensures Synced(pos + d, n + d, k)
  {
    ModAdd(pos, n, d, k);
  }

  lemma ModAdd(x: nat, y: nat, d: nat, k: nat)
    requires k > 0 && x % k == y % k
    ensures (x + d) % k == (y + d) % k
  {
    DivMod(x, k);
    DivMod(y, k);
    ModShift(x % k + d, x / k, k);
    ModShift(y % k + d, y / k, k);
    Commute(k, x / k);
    Commute(k, y / k);
  }

  lemma SyncedWrap(n: nat, k: nat)
    requires Synced(k, n, k)
    ensures Synced(0, n, k)
  {
    ModShift(0, 1, k);
  }

  lemma SyncedMasked(x: nat, n: nat, k: nat)
    requires IsPow2(k) && x % k == n % k
    ensures And(x, k - 1) < k && Synced(And(x, k - 1), n, k)
  {
    Masked(x, k);
    ModSmall(x % k, k);
  }

  // ---------------------------------------------------------------------------------------
  // Alignment
  // ---------------------------------------------------------------------------------------

  /** The distance to the next multiple of `w`. */
  function Gap(x: nat, w: nat): (d: nat)
    requires w > 0
    ensures d < w
  {
    (w - x % w) % w
  }

  lemma GapAligns(x: nat, w: nat)
    requires w > 0
    ensures (x + Gap(x, w)) % w == 0
  {
    DivMod(x, w);
    Commute(w, x / w);
    if x % w == 0 {
      ModSelf(w);
      ModShift(0, x / w, w);
    } else {
      ModSmall(w - x % w, w);
      Distribute(x / w, 1, w);
      ModShift(0, x / w + 1, w);
    }
  }

  lemma ModSelf(w: nat)
    requires w > 0
    ensures w % w == 0
  {
    ModShift(0, 1, w);
  }

  lemma GapSame(x: nat, y: nat, w: nat)
    requires w > 0 && x % w == y % w
    ensures Gap(x, w) == Gap(y, w)
  {
  }

  lemma ModOfMod(x: nat, k: nat, w: nat)
    requires k > 0 && w > 0 && k % w == 0
    ensures x % w == (x % k) % w
  {
    DivMod(k, w);
    DivMod(x, k);
    var m, q := k / w, x / k;
    Commute(w, m);
    Commute(m * w, q);
    MulAssoc(q, m, w);
    ModShift(x % k, q * m, w);
  }

  /** The next multiple is still in the key. */
  lemma GapFits(pos: nat, k: nat, w: nat)
    requires w > 0 && k % w == 0 && pos <= k
    ensures pos + Gap(pos, w) <= k
  {
    GapAligns(pos, w);
    var n := pos + Gap(pos, w);
    if n > k {
      DivMod(n, w);
      DivMod(k, w);
      MulGap(w, n / w, k / w);
    }
  }

  lemma MulGap(w: nat, a: nat, b: nat)
    requires w * a > w * b
    ensures w * a >= w * b + w
  {
    if a <= b {
      MulMonotone(w, a, b);
    } else {
      MulMonotone(w, b + 1, a);
      Distribute(b, 1, w);
      Commute(w, b);
      Commute(w, b + 1);
    }
  }

  // ---------------------------------------------------------------------------------------
  // The loops
  // ---------------------------------------------------------------------------------------

  /** The first `at` bytes are done, the others are as before. */
  ghost predicate Done(s: seq<bv8>, s0: seq<bv8>, key: seq<bv8>, offset: nat, at: nat) {
    && |key| > 0 && |s| == |s0| && at <= |s|
    && (forall i :: 0 <= i < at ==> s[i] == Mix(s0[i], KeyAt(key, offset + i)))
    && (forall i :: at <= i < |s| ==> s[i] == s0[i])
  }

  lemma NothingDone(s: seq<bv8>, key: seq<bv8>, offset: nat)
    requires |key| > 0
    ensures Done(s, s, key, offset, 0)
  {
  }

  lemma OneMore(s: seq<bv8>, s0: seq<bv8>, key: seq<bv8>, offset: nat, at: nat, pos: nat)
    requires Done(s, s0, key, offset, at) && at < |s|
    requires Synced(pos, offset + at, |key|) && pos < |key|
    ensures Done(s[at := Mix(s[at], key[pos])], s0, key, offset, at + 1)
  {
    hide Mix, KeyAt, Synced;
    SyncedKey(key, pos, offset + at);
  }

  lemma AllDone(s: seq<bv8>, s0: seq<bv8>, key: seq<bv8>, offset: nat, at: nat)
    requires Done(s, s0, key, offset, at)
    ensures |key| > 0 && |s| == |s0| && at <= |s0|
    ensures s == Encrypted(s0[..at], key, offset) + s0[at..]
  {
    hide Mix, KeyAt;
  }

  /** The byte loops that wrap at the end of the key. */
  method Bytes(buf: array<bv8>, at: nat, count: nat, key: seq<bv8>, pos: nat, ghost offset: nat, ghost s0: seq<bv8>)
    returns (pos': nat)
    requires IsPow2(|key|) && at + count <= buf.Length
    requires Done(buf[..], s0, key, offset, at) && Synced(pos, offset + at, |key|) && pos < |key|
    modifies buf
    ensures Done(buf[..], s0, key, offset, at + count) && Synced(pos', offset + (at + count), |key|) && pos' < |key|
  {
    hide Done, Synced, And, Mix, IsPow2;
    pos' := pos;
    for j := 0 to count
      invariant Done(buf[..], s0, key, offset, at + j) && Synced(pos', offset + (at + j), |key|) && pos' < |key|
    {
      ghost var s := buf[..];
      OneMore(s, s0, key, offset, at + j, pos');
      buf[at + j] := Mix(buf[at + j], key[pos']);
      assert buf[..] == s[at + j := Mix(s[at + j], key[pos'])];
      SyncedOn(pos', offset + (at + j), |key|, 1);
      pos' := SyncedAnd(pos' + 1, offset + (at + j + 1), |key|);
    }
  }

  /** `pos & key_mask` */
  method SyncedAnd(pos: nat, ghost n: nat, k: nat) returns (pos': nat)
    requires IsPow2(k) && pos <= k && Synced(pos, n, k)
    ensures pos' == And(pos, k - 1) && Synced(pos', n, k) && pos' < k
  {
    hide And;
    SyncedMasked(pos, n, k);
    pos' := And(pos, k - 1);
  }

  /** The byte loops that run towards the end of the key. */
  method BytesUnwrapped(buf: array<bv8>, at: nat, count: nat, key: seq<bv8>, pos: nat, ghost offset: nat,
                        ghost s0: seq<bv8>) returns (pos': nat)
    requires at + count <= buf.Length && pos + count <= |key|
    requires Done(buf[..], s0, key, offset, at) && Synced(pos, offset + at, |key|)
    modifies buf
    ensures Done(buf[..], s0, key, offset, at + count) && Synced(pos', offset + (at + count), |key|)
            && pos' == pos + count
  {
    hide Done, Synced, Mix;
    pos' := pos;
    for j := 0 to count
      invariant Done(buf[..], s0, key, offset, at + j) && Synced(pos', offset + (at + j), |key|) && pos' == pos + j
    {
      ghost var s := buf[..];
      OneMore(s, s0, key, offset, at + j, pos');
      buf[at + j] := Mix(buf[at + j], key[pos']);
      assert buf[..] == s[at + j := Mix(s[at + j], key[pos'])];
      SyncedOn(pos', offset + (at + j), |key|, 1);
      pos' := pos' + 1;
    }
  }

  /** The loop over `count` units of `w` bytes. */
  method Units(buf: array<bv8>, at: nat, w: nat, count: nat, key: seq<bv8>, pos: nat, ghost offset: nat,
               ghost s0: seq<bv8>)
    requires w > 0 && count * w >= 0 && at + count * w <= buf.Length && pos + count * w <= |key|
    requires Done(buf[..], s0, key, offset, at) && Synced(pos, offset + at, |key|)
    modifies buf
    ensures Done(buf[..], s0, key, offset, at + count * w) && Synced(pos + count * w, offset + (at + count * w), |key|)
  {
    hide Done, Synced;
    var p, k := at, pos;
    NoUnits(w);
    for i := 0 to count
      invariant p == at + i * w && k == pos + i * w
      invariant Done(buf[..], s0, key, offset, p) && Synced(k, offset + p, |key|)
    {
      UnitFits(i, count, w);
      k := BytesUnwrapped(buf, p, w, key, k, offset, s0);
      p := p + w;
    }
  }

  lemma NoUnits(w: nat)
    ensures 0 * w == 0
  {
  }

  lemma UnitFits(i: nat, count: nat, w: nat)
    requires i < count
    ensures (i + 1) * w == i * w + w <= count * w
  {
    Distribute(i, 1, w);
    MulMonotone(w, i + 1, count);
    Commute(w, i + 1);
    Commute(w, count);
  }

  /** The bytes that a round of the main loop covers. */
  function LoopLen(w: nat, k: nat, remaining: nat, pos: nat): nat
    requires 0 < w <= 64 && pos <= k
  {
    var contiguous := k - pos;
    var chunk := if contiguous < remaining then contiguous else remaining;
    Floor(chunk, w)
  }

  lemma LoopLenIs(w: nat, k: nat, remaining: nat, pos: nat)
    requires Width(w) && pos <= k < SIZE_LIMIT && remaining < SIZE_LIMIT
    ensures 0 < w <= 64
    ensures var chunk := if k - pos < remaining then k - pos else remaining;
            var l := LoopLen(w, k, remaining, pos);
            l == chunk - chunk % w && l % w == 0
  {
    hide Pow2, Width, Floor;
    WidthPositive(w);
    FloorIs(if k - pos < remaining then k - pos else remaining, w);
  }

  /** When the main loop ends: it starts at a multiple of the width, or one round is enough. */
  predicate Ends(w: nat, k: nat, remaining: nat, pos: nat)
    requires w > 0 && pos <= k
  {
    pos % w == 0 || remaining < (k - pos) - (k - pos) % w + w
  }

  /** The main loop of a kernel. A round that starts at the end of the key does nothing but wrap. */
  method Chunks(buf: array<bv8>, at: nat, len: nat, w: nat, key: seq<bv8>, pos: nat, ghost offset: nat,
                ghost s0: seq<bv8>)
    returns (at': nat, pos': nat)
    requires Width(w) && |key| % w == 0 && at <= len <= buf.Length
    requires len < SIZE_LIMIT && |key| < SIZE_LIMIT
    requires Done(buf[..], s0, key, offset, at) && Synced(pos, offset + at, |key|)
    requires Ends(w, |key|, len - at, pos)
    modifies buf
    ensures at <= at' <= len && len - at' < w
    ensures Done(buf[..], s0, key, offset, at') && Synced(pos', offset + at', |key|)
    ensures len - at < w ==> pos' == pos
    ensures len - at >= w ==> pos' < |key|
  {
    hide Done, Synced, Width, Pow2, LoopLen, Ends;
    at', pos' := at, pos;
    WidthPositive(w);
    SyncedBound(pos, offset + at, |key|);
    while len - at' >= w
      invariant at <= at' <= len && pos' <= |key|
      invariant Done(buf[..], s0, key, offset, at') && Synced(pos', offset + at', |key|)
      invariant Ends(w, |key|, len - at', pos')
      invariant len - at < w ==> at' == at && pos' == pos
      invariant len - at >= w && len - at' < w ==> pos' < |key|
      decreases len - at', if pos' == |key| then 1 else 0
    {
      var loopLen := LoopLen(w, |key|, len - at', pos');
      ChunkProgress(w, |key|, len - at', pos');
      Units(buf, at', w, loopLen / w, key, pos', offset, s0);
      at' := at' + loopLen;
      pos' := pos' + loopLen;
      if pos' == |key| {
        SyncedWrap(offset + at', |key|);
        pos' := 0;
        EndsAtStart(w, |key|, len - at');
      }
    }
  }

  lemma ZeroMod(w: nat)
    requires w > 0
    ensures 0 % w == 0
  {
  }

  lemma WidthPositive(w: nat)
    requires Width(w)
    ensures 0 < w <= 64
  {
  }

  lemma SyncedBound(pos: nat, n: nat, k: nat)
    requires Synced(pos, n, k)
    ensures pos <= k && k > 0
  {
  }

  lemma EndsAtStart(w: nat, k: nat, remaining: nat)
    requires w > 0
    ensures Ends(w, k, remaining, 0)
  {
    ZeroMod(w);
  }

  /** A round of the main loop. */
  lemma ChunkProgress(w: nat, k: nat, remaining: nat, pos: nat)
    requires Width(w) && k % w == 0 && pos <= k && w <= remaining
    requires k < SIZE_LIMIT && remaining < SIZE_LIMIT
    requires Ends(w, k, remaining, pos)
    ensures var l := LoopLen(w, k, remaining, pos);
            && (l / w) * w == l
            && l <= remaining && pos + l <= k
            && (pos < k ==> l > 0)
            && Ends(w, k, remaining - l, pos + l)
            && (pos + l < k ==> remaining - l < w)
  {
    hide Pow2, Width;
    WidthPositive(w);
    var l := LoopLen(w, k, remaining, pos);
    LoopLenIs(w, k, remaining, pos);
    DivMod(l, w);
    Commute(w, l / w);
    hide LoopLen, Ends;
    if pos % w == 0 {
      AlignedRound(w, k, remaining, pos, l);
    } else {
      LastRound(w, k, remaining, pos, l);
    }
  }

  lemma AlignedRound(w: nat, k: nat, remaining: nat, pos: nat, l: nat)
    requires 0 < w <= remaining && k % w == 0 && pos % w == 0 && pos <= k
    requires var chunk := if k - pos < remaining then k - pos else remaining; l == chunk - chunk % w && l % w == 0
    ensures l <= remaining && pos + l <= k && (pos < k ==> l > 0)
    ensures Ends(w, k, remaining - l, pos + l) && (pos + l < k ==> remaining - l < w)
  {
    var chunk := if k - pos < remaining then k - pos else remaining;
    ModAdd(pos, 0, l, w);
    ZeroMod(w);
    RoomLeft(k, pos, w);
    ModBound(chunk, w);
    if pos < k { AtLeast(chunk, w); }
  }

  lemma LastRound(w: nat, k: nat, remaining: nat, pos: nat, l: nat)
    requires 0 < w <= remaining && k % w == 0 && pos % w != 0 && pos <= k && Ends(w, k, remaining, pos)
    requires var chunk := if k - pos < remaining then k - pos else remaining; l == chunk - chunk % w
    ensures 0 < l <= remaining && pos + l <= k && remaining - l < w
    ensures Ends(w, k, remaining - l, pos + l)
  {
    var chunk := if k - pos < remaining then k - pos else remaining;
    ModBound(remaining, w);
    ModBound(k - pos, w);
    ModBound(k - (pos + l), w);
    AtLeast(remaining, w);
    AtMostWhole(k - (pos + l), w);
  }

  /** Away from a multiple of `w` the rest of the key is not a number of units. */
  lemma NotAligned(k: nat, pos: nat, w: nat)
    requires w > 0 && k % w == 0 && pos % w != 0 && pos <= k
    ensures (k - pos) % w != 0
  {
    DivMod(k, w);
    DivMod(k - pos, w);
    if (k - pos) % w == 0 {
      Difference(w, k / w, (k - pos) / w);
      assert false;
    }
  }

  lemma Difference(w: nat, x: nat, y: nat)
    requires w > 0 && w * x >= w * y
    ensures (w * x - w * y) % w == 0
  {
    Commute(w, x);
    Commute(w, y);
    Distribute(x - y, y, w);
    if x < y {
      MulGap(w, y, x);
    } else {
      ModShift(0, x - y, w);
      ModSmall(0, w);
    }
  }

  lemma ModBound(x: nat, w: nat)
    requires w > 0
    ensures x % w < w
  {
  }

  lemma AtMostWhole(x: nat, w: nat)
    requires w > 0
    ensures x % w <= x
  {
  }

  lemma AtLeast(x: nat, w: nat)
    requires 0 < w <= x
    ensures x - x % w > 0
  {
    ModBound(x, w);
  }

  /** What is left of the key is a number of units. */
  lemma RoomLeft(k: nat, pos: nat, w: nat)
    requires w > 0 && k % w == 0 && pos % w == 0 && pos <= k
    ensures (k - pos) % w == 0 && (pos < k ==> k - pos >= w)
  {
    DivMod(k, w);
    DivMod(pos, w);
    Commute(w, k / w);
    Commute(w, pos / w);
    Distribute(k / w, -(pos / w), w);
    ModShift(0, k / w - pos / w, w);
    ModSmall(0, w);
    if pos < k { MulGap(w, k / w, pos / w); }
  }

  // ---------------------------------------------------------------------------------------
  // When the main loop ends
  // ---------------------------------------------------------------------------------------

  /** The counters of the main loop after `n` rounds. */
  function Counters(w: nat, k: nat, remaining: nat, pos: nat, n: nat): (r: (nat, nat))
    requires Width(w) && k % w == 0 && 0 < pos + k && pos <= k < SIZE_LIMIT && remaining < SIZE_LIMIT
    ensures r.0 <= remaining && r.1 <= k
    decreases n
  {
    WidthPositive(w);
    if n == 0 || remaining < w then (remaining, pos)
    else
      LoopLenFits(w, k, remaining, pos);
      var l := LoopLen(w, k, remaining, pos);
      Counters(w, k, remaining - l, if pos + l == k then 0 else pos + l, n - 1)
  }

  lemma LoopLenFits(w: nat, k: nat, remaining: nat, pos: nat)
    requires Width(w) && pos <= k < SIZE_LIMIT && remaining < SIZE_LIMIT
    ensures 0 < w <= 64
    ensures var l := LoopLen(w, k, remaining, pos); l <= remaining && pos + l <= k
  {
    hide Pow2, Width;
    LoopLenIs(w, k, remaining, pos);
    WidthPositive(w);
    AtMostWhole(if k - pos < remaining then k - pos else remaining, w);
    hide LoopLen;
  }

  /** Rounds enough to come to the end. */
  lemma {:induction false} ComesToEnd(w: nat, k: nat, remaining: nat, pos: nat) returns (n: nat)
    requires Width(w) && k % w == 0 && 0 < k && pos <= k < SIZE_LIMIT && remaining < SIZE_LIMIT
    requires 0 < w && Ends(w, k, remaining, pos)
    ensures Counters(w, k, remaining, pos, n).0 < w
    decreases remaining, if pos == k then 1 else 0
  {
    hide Pow2, Width, LoopLen, Ends;
    WidthPositive(w);
    n := 0;
    if remaining >= w {
      ChunkProgress(w, k, remaining, pos);
      var l := LoopLen(w, k, remaining, pos);
      EndsAtStart(w, k, remaining - l);
      n := ComesToEnd(w, k, remaining - l, if pos + l == k then 0 else pos + l);
      n := n + 1;
    }
  }

  /** Fewer bytes than a unit before the end of the key: no further progress. */
  lemma {:induction false} NoProgress(w: nat, k: nat, remaining: nat, pos: nat, n: nat)
    requires Width(w) && k % w == 0 && pos < k < SIZE_LIMIT && w <= remaining < SIZE_LIMIT && 0 < k - pos < w
    ensures Counters(w, k, remaining, pos, n) == (remaining, pos)
    decreases n
  {
    hide Pow2, Width;
    if n > 0 {
      LoopLenIs(w, k, remaining, pos);
      ModSmall(k - pos, w);
      assert LoopLen(w, k, remaining, pos) == 0;
      hide LoopLen;
      NoProgress(w, k, remaining, pos, n - 1);
    }
  }

  /** The main loop ends exactly under the condition `Ends`. */
  lemma EndsExactly(w: nat, k: nat, remaining: nat, pos: nat)
    requires Width(w) && k % w == 0 && 0 < k && pos <= k < SIZE_LIMIT && remaining < SIZE_LIMIT
    ensures w > 0
    ensures Ends(w, k, remaining, pos) <==> exists n: nat :: Counters(w, k, remaining, pos, n).0 < w
  {
    hide Pow2, Width, LoopLen;
    WidthPositive(w);
    if Ends(w, k, remaining, pos) {
      var n := ComesToEnd(w, k, remaining, pos);
    } else {
      forall n: nat ensures Counters(w, k, remaining, pos, n).0 >= w {
        NeverEnds(w, k, remaining, pos, n);
      }
    }
  }

  lemma NeverEnds(w: nat, k: nat, remaining: nat, pos: nat, n: nat)
    requires Width(w) && k % w == 0 && 0 < k && pos <= k < SIZE_LIMIT && remaining < SIZE_LIMIT
    requires 0 < w && !Ends(w, k, remaining, pos)
    ensures Counters(w, k, remaining, pos, n).0 >= w
  {
    hide Pow2, Width;
    NotAligned(k, pos, w);
    ModBound(k - pos, w);
    AtMostWhole(k - pos, w);
    LoopLenIs(w, k, remaining, pos);
    var l := LoopLen(w, k, remaining, pos);
    hide LoopLen;
    if n > 0 {
      NoProgress(w, k, remaining - l, pos + l, n - 1);
    }
  }

  // ---------------------------------------------------------------------------------------
  // The kernels
  // ---------------------------------------------------------------------------------------

  /** What all kernels ask for. */
  ghost predicate Sizes(len: nat, size: nat, key: seq<bv8>, w: nat) {
    && IsPow2(|key|) && |key| < SIZE_LIMIT && len <= size && len < SIZE_LIMIT
    && Width(w) && |key| % w == 0
  }

  /** That is so for every key whose size is a power of two from 32 on, and every length that the
      buffer has. */
  lemma KeySizes(len: nat, size: nat, key: seq<bv8>, e: nat)
    requires e >= 5 && |key| == Pow2(e) && |key| < SIZE_LIMIT && len <= size && len < SIZE_LIMIT
    ensures Sizes(len, size, key, 32) && Sizes(len, size, key, 16) && Sizes(len, size, key, 8) && |key| >= 32
  {
    assert Pow2(5) == 32 && Pow2(4) == 16 && Pow2(3) == 8;
    assert IsPow2(|key|);
    Pow2Add(e - 5, 5);
    hide Pow2, IsPow2;
    ModShift(0, Pow2(e - 5), 32);
  }

  /** The result: the first `len` bytes are encrypted, the others unchanged. */
  function Result(s: seq<bv8>, len: nat, key: seq<bv8>, offset: nat): seq<bv8>
    requires |key| > 0 && len <= |s|
  {
    Encrypted(s[..len], key, offset) + s[len..]
  }

  /** In the terms of the bytes: every one of the first `len` bytes and the byte of the key for its
      place are combined by exclusive or. */
  lemma ResultMeans(s: seq<bv8>, len: nat, key: seq<bv8>, offset: nat)
    requires |key| > 0 && len <= |s|
    ensures |Result(s, len, key, offset)| == |s|
    ensures forall i :: 0 <= i < len ==> Result(s, len, key, offset)[i] == s[i] ^ key[(offset + i) % |key|]
    ensures forall i :: len <= i < |s| ==> Result(s, len, key, offset)[i] == s[i]
  {
  }

  /** Where the main loop of a kernel starts. */
  function Head(base: nat, len: nat, w: nat): (h: nat)
    requires w > 0
    ensures h <= len
  {
    var gap := Gap(base, w);
    if gap < len then gap else len
  }

  /** The main loop of a kernel that starts behind its head comes to its end. */
  ghost predicate HeadEnds(base: nat, offset: nat, len: nat, key: seq<bv8>, w: nat)
    requires |key| > 0 && w > 0
  {
    ModBound(offset + Head(base, len, w), |key|);
    Ends(w, |key|, len - Head(base, len, w), (offset + Head(base, len, w)) % |key|)
  }

  /** A head that does not wrap stays in the key. */
  ghost predicate HeadInKey(base: nat, offset: nat, len: nat, key: seq<bv8>, w: nat)
    requires |key| > 0 && w > 0
  {
    offset % |key| + Head(base, len, w) <= |key|
  }

  /** The main loop behind such a head comes to its end. */
  ghost predicate StraightEnds(base: nat, offset: nat, len: nat, key: seq<bv8>, w: nat)
    requires |key| > 0 && w > 0 && HeadInKey(base, offset, len, key, w)
  {
    Ends(w, |key|, len - Head(base, len, w), offset % |key| + Head(base, len, w))
  }

  /** It does exactly if none of its bytes lies behind the key. */
  lemma HeadInKeyExactly(base: nat, offset: nat, len: nat, key: seq<bv8>, w: nat)
    requires |key| > 0 && w > 0
    ensures HeadInKey(base, offset, len, key, w) <==>
              forall j :: 0 <= j < Head(base, len, w) ==> ByteInKey(key, offset, j)
  {
    ModBound(offset, |key|);
    var h := Head(base, len, w);
    if h > 0 {
      assert ByteInKey(key, offset, h - 1) <==> offset % |key| + h <= |key|;
    }
  }

  predicate ByteInKey(key: seq<bv8>, offset: nat, j: nat)
    requires |key| > 0
  {
    offset % |key| + j < |key|
  }

  /** Not so without alignment: a buffer behind a multiple of 32, and the last byte of a key of 32. */
  lemma HeadBehindKey(key: seq<bv8>)
    requires |key| == 32
    ensures Head(1, 31, 32) == 31 && 31 % |key| == 31 && !HeadInKey(1, 31, 31, key, 32)
  {
  }

  /** And the loop of the head that wraps need not end: a key of 32 bytes from its second byte on, a
      buffer at a multiple of 16. */
  lemma LoopForEver(key: seq<bv8>)
    requires |key| == 32
    ensures Width(16) && Head(0, 32, 16) == 0 && !HeadEnds(0, 1, 32, key, 16)
    ensures forall n: nat :: Counters(16, 32, 32, 1, n).0 >= 16
  {
    assert Pow2(4) == 16;
    assert !Ends(16, 32, 32, 1);
    hide Pow2, Width;
    forall n: nat ensures Counters(16, 32, 32, 1, n).0 >= 16 {
      NeverEnds(16, 32, 32, 1, n);
    }
  }

  /** `(w - (base & (w - 1))) & (w - 1)` */
  method AlignDiff(base: nat, w: nat) returns (d: nat)
    requires Width(w)
    ensures w > 0 && d == Gap(base, w)
  {
    hide And;
    Masked(base, w);
    Masked(w - And(base, w - 1), w);
    d := And(w - And(base, w - 1), w - 1);
  }

  /** Equal alignment of the buffer and of the place in the key stream is enough. */
  lemma AlignedEnds(base: nat, offset: nat, len: nat, key: seq<bv8>, w: nat)
    requires |key| > 0 && w > 0 && |key| % w == 0 && base % w == offset % w
    ensures HeadEnds(base, offset, len, key, w)
  {
    var h, k := Head(base, len, w), |key|;
    var pos := (offset + h) % k;
    ModBound(offset + h, k);
    if h == Gap(base, w) {
      GapSame(base, offset, w);
      GapAligns(offset, w);
      ModOfMod(offset + h, k, w);
    } else {
      assert len == h;
      AtMostWhole(k - pos, w);
    }
  }

  lemma KeyNotEmpty(k: nat)
    requires IsPow2(k)
    ensures k > 0
  {
  }

  /** `vernam_encrypt_scalar`: units of eight bytes; the head wraps at the end of the key. */
  method EncryptScalar(buf: array<bv8>, base: nat, len: nat, key: seq<bv8>, offset: nat)
    requires Sizes(len, buf.Length, key, 8) && |key| > 0
    requires HeadEnds(base, offset, len, key, 8)
    modifies buf
    ensures buf[..] == Result(old(buf[..]), len, key, offset)
    ensures forall i :: 0 <= i < len ==> buf[i] == old(buf[i]) ^ key[(offset + i) % |key|]
    ensures forall i :: len <= i < buf.Length ==> buf[i] == old(buf[i])
  {
    hide Done, Synced, Pow2, And, IsPow2, Width, Ends, Result;
    ghost var s0 := buf[..];
    ResultMeans(s0, len, key, offset);
    NothingDone(s0, key, offset);
    if len == 0 {
      AllDone(s0, s0, key, offset, 0);
      return;
    }
    var pos := StartOfKey(offset, |key|);
    var alignDiff := AlignDiff(base, 8);
    var headLen := if alignDiff < len then alignDiff else len;
    pos := Bytes(buf, 0, headLen, key, pos, offset, s0);
    SyncedIs(pos, offset + headLen, |key|);
    var at := headLen;
    if len - at == 0 {
      AllDone(buf[..], s0, key, offset, len);
      return;
    }
    at, pos := Chunks(buf, at, len, 8, key, pos, offset, s0);
    Tail(buf, at, len, key, pos, offset, s0);
  }

  /** `vernam_encrypt_sse`: units of sixteen bytes; the head wraps. */
  method EncryptSse(buf: array<bv8>, base: nat, len: nat, key: seq<bv8>, offset: nat)
    requires Sizes(len, buf.Length, key, 16) && |key| > 0
    requires HeadEnds(base, offset, len, key, 16)
    modifies buf
    ensures buf[..] == Result(old(buf[..]), len, key, offset)
    ensures forall i :: 0 <= i < len ==> buf[i] == old(buf[i]) ^ key[(offset + i) % |key|]
    ensures forall i :: len <= i < buf.Length ==> buf[i] == old(buf[i])
  {
    hide Done, Synced, Pow2, And, IsPow2, Width, Ends, Result;
    ghost var s0 := buf[..];
    ResultMeans(s0, len, key, offset);
    NothingDone(s0, key, offset);
    var pos := StartOfKey(offset, |key|);
    var alignDiff := AlignDiff(base, 16);
    var headLen := if alignDiff < len then alignDiff else len;
    pos := Bytes(buf, 0, headLen, key, pos, offset, s0);
    SyncedIs(pos, offset + headLen, |key|);
    var at := headLen;
    if len - at < 16 {
      Tail(buf, at, len, key, pos, offset, s0);
      return;
    }
    at, pos := Chunks(buf, at, len, 16, key, pos, offset, s0);
    Tail(buf, at, len, key, pos, offset, s0);
  }

  /** `vernam_encrypt_avx2`: units of 32 bytes; the head does not wrap. */
  method EncryptAvx2(buf: array<bv8>, base: nat, len: nat, key: seq<bv8>, offset: nat)
    requires Sizes(len, buf.Length, key, 32) && |key| > 0
    requires HeadInKey(base, offset, len, key, 32) && StraightEnds(base, offset, len, key, 32)
    modifies buf
    ensures buf[..] == Result(old(buf[..]), len, key, offset)
    ensures forall i :: 0 <= i < len ==> buf[i] == old(buf[i]) ^ key[(offset + i) % |key|]
    ensures forall i :: len <= i < buf.Length ==> buf[i] == old(buf[i])
  {
    hide Done, Synced, Pow2, And, IsPow2, Width, Ends, Result;
    ghost var s0 := buf[..];
    ResultMeans(s0, len, key, offset);
    NothingDone(s0, key, offset);
    var pos := StartOfKey(offset, |key|);
    var alignDiff := AlignDiff(base, 32);
    var headLen := if alignDiff < len then alignDiff else len;
    pos := BytesUnwrapped(buf, 0, headLen, key, pos, offset, s0);
    var at := headLen;
    if len - at < 32 {
      Tail(buf, at, len, key, pos, offset, s0);
      return;
    }
    at, pos := Chunks(buf, at, len, 32, key, pos, offset, s0);
    Tail(buf, at, len, key, pos, offset, s0);
  }

  /** `vernam_encrypt_neon`: units of sixteen bytes; the head does not wrap. */
  method EncryptNeon(buf: array<bv8>, base: nat, len: nat, key: seq<bv8>, offset: nat)
    requires Sizes(len, buf.Length, key, 16) && |key| > 0
    requires HeadInKey(base, offset, len, key, 16) && StraightEnds(base, offset, len, key, 16)
    modifies buf
    ensures buf[..] == Result(old(buf[..]), len, key, offset)
    ensures forall i :: 0 <= i < len ==> buf[i] == old(buf[i]) ^ key[(offset + i) % |key|]
    ensures forall i :: len <= i < buf.Length ==> buf[i] == old(buf[i])
  {
    hide Done, Synced, Pow2, And, IsPow2, Width, Ends, Result;
    ghost var s0 := buf[..];
    ResultMeans(s0, len, key, offset);
    NothingDone(s0, key, offset);
    var pos := StartOfKey(offset, |key|);
    var alignDiff := AlignDiff(base, 16);
    var headLen := if alignDiff < len then alignDiff else len;
    pos := BytesUnwrapped(buf, 0, headLen, key, pos, offset, s0);
    var at := headLen;
    at, pos := Chunks(buf, at, len, 16, key, pos, offset, s0);
    Tail(buf, at, len, key, pos, offset, s0);
  }

  /** The last bytes. */
  method Tail(buf: array<bv8>, at: nat, len: nat, key: seq<bv8>, pos: nat, ghost offset: nat, ghost s0: seq<bv8>)
    requires IsPow2(|key|) && |key| > 0 && at <= len <= buf.Length
    requires Done(buf[..], s0, key, offset, at) && Synced(pos, offset + at, |key|)
    modifies buf
    ensures |s0| == buf.Length && buf[..] == Result(s0, len, key, offset)
  {
    hide Done, Synced, And, IsPow2;
    SyncedBound(pos, offset + at, |key|);
    var wrapped := SyncedAnd(pos, offset + at, |key|);
    var end := Bytes(buf, at, len - at, key, wrapped, offset, s0);
    AllDone(buf[..], s0, key, offset, len);
  }

  lemma ShortEnds(w: nat, k: nat, remaining: nat, pos: nat)
    requires 0 < w && pos <= k && remaining < w
    ensures Ends(w, k, remaining, pos)
  {
    AtMostWhole(k - pos, w);
  }

  method StartOfKey(x: nat, k: nat) returns (pos: nat)
    requires IsPow2(k)
    ensures k > 0 && pos < k && Synced(pos, x, k) && pos == x % k
  {
    hide And;
    KeyNotEmpty(k);
    SyncedMasked(x, x, k);
    Masked(x, k);
    pos := And(x, k - 1);
  }

  lemma SyncedIs(pos: nat, n: nat, k: nat)
    requires Synced(pos, n, k) && pos < k
    ensures pos == n % k
  {
    ModSmall(pos, k);
  }

  /** Equal alignment is enough for the head to stay in the key, and for the loop behind it to end. */
  lemma AlignedStraight(base: nat, offset: nat, len: nat, key: seq<bv8>, w: nat)
    requires |key| > 0 && w > 0 && |key| % w == 0 && base % w == offset % w
    ensures HeadInKey(base, offset, len, key, w) && StraightEnds(base, offset, len, key, w)
  {
    var k := |key|;
    ModOfMod(offset, k, w);
    GapSame(base, offset % k, w);
    ModBound(offset, k);
    GapFits(offset % k, k, w);
    if len - Head(base, len, w) >= w {
      GapAligns(offset % k, w);
    } else {
      ShortEnds(w, k, len - Head(base, len, w), offset % k + Head(base, len, w));
    }
  }

  /** The machines that the dispatcher distinguishes. */
  datatype Machine = Avx2 | Sse | Neon | Plain

  /** `vernam_encrypt_32bytes_aligned`: the same result on every machine. */
  method Encrypt(machine: Machine, buf: array<bv8>, base: nat, len: nat, key: seq<bv8>, offset: nat)
    requires Sizes(len, buf.Length, key, 32) && |key| > 0 && base % 32 == offset % 32
    modifies buf
    ensures buf[..] == Result(old(buf[..]), len, key, offset)
    ensures forall i :: 0 <= i < len ==> buf[i] == old(buf[i]) ^ key[(offset + i) % |key|]
    ensures forall i :: len <= i < buf.Length ==> buf[i] == old(buf[i])
  {
    hide Pow2, IsPow2, HeadEnds, Result;
    ResultMeans(buf[..], len, key, offset);
    SmallerWidths(|key|, base, offset);
    match machine
    case Avx2 =>
      AlignedStraight(base, offset, len, key, 32);
      EncryptAvx2(buf, base, len, key, offset);
    case Sse =>
      AlignedEnds(base, offset, len, key, 16);
      EncryptSse(buf, base, len, key, offset);
    case Neon =>
      AlignedStraight(base, offset, len, key, 16);
      EncryptNeon(buf, base, len, key, offset);
    case Plain =>
      AlignedEnds(base, offset, len, key, 8);
      EncryptScalar(buf, base, len, key, offset);
  }

  lemma SmallerWidths(k: nat, base: nat, offset: nat)
    requires k % 32 == 0 && base % 32 == offset % 32
    ensures k % 16 == 0 && k % 8 == 0 && base % 16 == offset % 16 && base % 8 == offset % 8
    ensures Width(8) && Width(16) && Width(32)
  {
    assert Pow2(3) == 8;
    assert Pow2(4) == 16;
    assert Pow2(5) == 32;
  }

  /** Encrypting a buffer, and then encrypting it again, maybe on another machine. */
  method EncryptTwice(first: Machine, second: Machine, buf: array<bv8>, base: nat, len: nat, key: seq<bv8>, offset: nat)
    requires Sizes(len, buf.Length, key, 32) && |key| > 0 && base % 32 == offset % 32
    modifies buf
    ensures buf[..] == old(buf[..])
  {
    ghost var s := buf[..];
    Encrypt(first, buf, base, len, key, offset);
    Encrypt(second, buf, base, len, key, offset);
    EncryptedTwice(s[..len], key, offset);
    assert Result(s, len, key, offset)[..len] == Encrypted(s[..len], key, offset);
    assert Result(s, len, key, offset)[len..] == s[len..];
    assert s[..len] + s[len..] == s;
  }

  /** Encrypting two buffers that follow each other, in memory and in the stream, maybe on
      different machines: the whole is encrypted. */
  method EncryptPieces(first: Machine, second: Machine, a: array<bv8>, b: array<bv8>, base: nat, key: seq<bv8>,
                       offset: nat)
    requires a != b && Sizes(a.Length, a.Length, key, 32) && Sizes(b.Length, b.Length, key, 32) && |key| > 0
    requires base % 32 == offset % 32
    modifies a, b
    ensures a[..] + b[..] == Encrypted(old(a[..] + b[..]), key, offset)
  {
    hide Pow2, IsPow2, KeyAt, Mix, Encrypted;
    ghost var s, t := a[..], b[..];
    Encrypt(first, a, base, a.Length, key, offset);
    ModAdd(base, offset, a.Length, 32);
    Encrypt(second, b, base + a.Length, b.Length, key, offset + a.Length);
    WholeResult(s, key, offset);
    WholeResult(t, key, offset + |s|);
    EncryptedPieces(s, t, key, offset);
  }

  lemma WholeResult(s: seq<bv8>, key: seq<bv8>, offset: nat)
    requires |key| > 0
    ensures Result(s, |s|, key, offset) == Encrypted(s, key, offset)
  {
    assert s[..|s|] == s && s[|s|..] == [];
  }
}
