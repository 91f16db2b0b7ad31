/** Arguments of a log entry: their sizes are added up first, their bytes are written later. */
module LogArgs {
  import opened Common
  import opened Bits
  import opened Masks
  import opened BigNum
  import opened ByteStrings
  import opened Utf16

  // ---------------------------------------------------------------------------------------
  // Arguments
  // ---------------------------------------------------------------------------------------

  /** The kinds of plain values, with their codes (`log_arg_type_enum`) and sizes. */
  datatype Kind =
    | Bool | Character | Character16 | Character32
    | Int8 | UInt8 | Int16 | UInt16 | Int32 | UInt32 | Int64 | UInt64
    | Float | Double
  {
    function Code(): (c: Byte)
      ensures 3 <= c <= 16
    {
      match this
      case Bool => 3
      case Character => 4
      case Character16 => 5
      case Character32 => 6
      case Int8 => 7
      case UInt8 => 8
      case Int16 => 9
      case UInt16 => 10
      case Int32 => 11
      case UInt32 => 12
      case Int64 => 13
      case UInt64 => 14
      case Float => 15
      case Double => 16
    }

    function Size(): (n: nat)
      ensures n == 1 || n == 2 || n == 4 || n == 8
    {
      match this
      case Bool => 1
      case Character => 1
      case Character16 => 2
      case Character32 => 4
      case Int8 => 1
      case UInt8 => 1
      case Int16 => 2
      case UInt16 => 2
      case Int32 => 4
      case UInt32 => 4
      case Int64 => 8
      case UInt64 => 8
      case Float => 4
      case Double => 8
    }

    /** The bytes before the value: two for small values, four otherwise. */
    function Header(): nat {
      if Size() <= 2 then 2 else 4
    }
  }

  /** Where the characters of a string come from. */
  datatype Source<C> =
    | NullString
    | CString(chars: seq<C>)   // up to the first zero
    | CharArray(chars: seq<C>) // without one zero at the end
    | View(chars: seq<C>)      // all

  /** 32-bit characters: up to the first zero, at most `n`, of a type that may be signed. For a null
      pointer there is an array with the word "null". */
  datatype WideSource = NullWide | WideString(mem: Memory, n: nat, signed: bool) {
    function From(): Memory {
      if NullWide? then NullMemory else mem
    }

    function AtMost(): nat {
      if NullWide? then 4 else n
    }

    function Signed(): bool {
      if NullWide? then false else signed
    }

    /** The characters of the string. */
    function Characters(): seq<Char32> {
      UpToZero(From(), 0, AtMost())
    }

    /** The units that are written for it when the characters are taken as signed or unsigned. */
    function TakenAs(asSigned: bool): (w: seq<Unit>)
      ensures |w| == Units(Characters())
    {
      Taken(From(), 0, Units(Characters()), asSigned)
    }

    function Logged(): seq<Unit> {
      TakenAs(Signed())
    }
  }

  /** The array with the word "null". */
  function NullMemory(i: nat): Char32 {
    if i < 4 then NULL_LETTERS[i] else 0
  }

  datatype Arg =
    | Plain(kind: Kind, bytes: seq<Byte>)
    | NullPointer
    | Pointer(address: seq<Byte>)
    | String8(source: Source<Byte>)
    | String16(source16: Source<Unit>)
    | String32(source32: WideSource)

  const NULL_TYPE: Byte := 1
  const POINTER_TYPE: Byte := 2
  const UTF8_TYPE: Byte := 17
  const UTF16_TYPE: Byte := 18

  /** The letters of "null". */
  const NULL_LETTERS: seq<Byte> := [110, 117, 108, 108]
  const NULL_UNITS: seq<Unit> := [110, 117, 108, 108]

  /** `string_len`: how many characters come before the first zero. */
  function BeforeZero(s: seq<nat>): (n: nat)
    ensures n <= |s| && (n == |s| || s[n] == 0)
    ensures forall j :: 0 <= j < n ==> s[j] != 0
  {
    if s == [] || s[0] == 0 then 0 else 1 + BeforeZero(s[1..])
  }

  lemma FirstZero(s: seq<nat>, rest: seq<nat>)
    requires 0 !in s
    ensures BeforeZero(s + [0] + rest) == |s|
  {
    var all := s + [0] + rest;
    assert all[|s|] == 0;
    forall j | 0 <= j < |s| ensures all[j] != 0 { assert all[j] == s[j]; }
  }

  function Bytes8(src: Source<Byte>): seq<Byte> {
    match src
    case NullString => NULL_LETTERS
    case CString(s) => s[..BeforeZero(s)]
    case CharArray(s) => if s != [] && s[|s| - 1] == 0 then s[..|s| - 1] else s
    case View(s) => s
  }

  function Units16(src: Source<Unit>): seq<Unit> {
    match src
    case NullString => NULL_UNITS
    case CString(s) => s[..BeforeZero(s)]
    case CharArray(s) => if s != [] && s[|s| - 1] == 0 then s[..|s| - 1] else s
    case View(s) => s
  }

  /** What the types of the arguments guarantee. */
  ghost predicate Proper(a: Arg) {
    match a
    case Plain(kind, bytes) => |bytes| == kind.Size()
    case NullPointer => true
    case Pointer(address) => |address| == 8
    case String8(_) => true
    case String16(_) => true
    case String32(_) => true
  }

  predicate IsString(a: Arg) {
    a.String8? || a.String16? || a.String32?
  }

  /** The bytes of the characters of a string as they are stored. */
  function Text(a: Arg): seq<Byte>
    requires IsString(a) && Proper(a)
  {
    match a
    case String8(src) => Bytes8(src)
    case String16(src) => UnitBytes(Units16(src))
    case String32(src) => UnitBytes(src.Logged())
  }

  function TypeCode(a: Arg): Byte {
    match a
    case Plain(kind, _) => kind.Code()
    case NullPointer => NULL_TYPE
    case Pointer(_) => POINTER_TYPE
    case String8(_) => UTF8_TYPE
    case String16(_) => UTF16_TYPE
    case String32(_) => UTF16_TYPE
  }

  // ---------------------------------------------------------------------------------------
  // Sizes
  // ---------------------------------------------------------------------------------------

  /** The bytes that an argument takes, without padding. */
  function Length(a: Arg): (n: nat)
    requires Proper(a)
    ensures n > 0
  {
    match a
    case Plain(kind, _) => kind.Size() + kind.Header()
    case NullPointer => 4
    case Pointer(_) => 12
    case _ => 8 + |Text(a)|
  }

  /** The next multiple of 4. */
  function Padded(n: nat): (p: nat)
    ensures p % 4 == 0 && n <= p < n + 4
  {
    (n + 3) / 4 * 4
  }

  /** `align_4`. */
  method Align4(n: nat) returns (p: nat)
    requires n < SIZE_LIMIT
    ensures p == Padded(n)
  {
    hide Pow2, Floor;
    if n == 0 {
      return n;
    }
    FourIsWidth();
    FloorIs(n - 1, 4);
    FloorUp(n);
    p := Floor(n - 1, 4) + 4;
  }

  lemma FourIsWidth()
    ensures Width(4)
  {
    assert Pow2(2) == 4;
  }

  lemma FloorUp(n: nat)
    requires n > 0
    ensures (n - 1) - (n - 1) % 4 + 4 == Padded(n)
  {
  }

  ghost predicate AllProper(args: seq<Arg>) {
    forall i :: 0 <= i < |args| ==> Proper(args[i])
  }

  /** The bytes that all arguments take. */
  function Total(args: seq<Arg>): nat
    requires AllProper(args)
  {
    if args == [] then 0 else Padded(Length(args[0])) + Total(args[1..])
  }

  /** `_get_storage_data_size` and `_get_storage_data_size_constexpr`. */
  method StorageDataSize(a: Arg) returns (size: nat)
    requires Proper(a)
    ensures size == Length(a)
  {
    hide UnitBytes, UpToZero, Units;
    match a
    case Plain(kind, _) =>
      size := kind.Size() + if kind.Size() <= 2 then 2 else 4;
    case NullPointer =>
      size := 4;
    case Pointer(_) =>
      size := 8 + 4;
    case String8(src) =>
      size := 4 + 4 + |Bytes8(src)|;
    case String16(src) =>
      size := 4 + 4 + 2 * |Units16(src)|;
    case String32(src) =>
      var text := WideSize(src);
      size := 4 + 4 + text;
  }

  /** The size of a string of 32-bit characters. */
  method WideSize(src: WideSource) returns (size: nat)
    ensures size == |UnitBytes(src.Logged())|
  {
    size := Utf16.StorageSize(src.From(), src.AtMost());
  }

  /** A null pointer is logged as the word "null". */
  lemma NullIsWord()
    ensures NullWide.Characters() == NULL_UNITS == NullWide.Logged()
  {
    assert UpToZero(NullMemory, 3, 1) == [108];
    assert UpToZero(NullMemory, 2, 2) == [108, 108];
    assert UpToZero(NullMemory, 1, 3) == [117, 108, 108];
    UnsignedCopy(NullMemory, 4);
    FourUnitsOf(110, 117, 108, 108, []);
    assert [110, 117, 108, 108] + [] == NULL_UNITS;
  }

  /** What is logged of a string of code points: always as many units as its encoding has, and
      exactly the encoding unless the copy overruns without disguise. */
  lemma WideMeans(src: WideSource)
    requires CodePoints(src.Characters())
    ensures |src.Logged()| == |EncodeAll(src.Characters())|
    ensures src.Logged() == EncodeAll(src.Characters())
       <==> !Overruns(src.From(), 0, src.AtMost(), src.Signed()) || Disguised(src.From(), 0, src.AtMost(), src.Signed())
  {
    UnitsOfEncoding(src.Characters());
    CopyMeans(src.From(), src.AtMost(), src.Signed());
  }

  /** `make_size_seq`: the size of every argument. */
  method MakeSizeSeq(args: seq<Arg>) returns (sizes: seq<nat>)
    requires AllProper(args)
    ensures |sizes| == |args| && forall i :: 0 <= i < |args| ==> sizes[i] == Length(args[i])
    decreases |args|
  {
    sizes := [];
    if |args| > 0 {
      var first := StorageDataSize(args[0]);
      var rest := MakeSizeSeq(args[1..]);
      sizes := [first] + rest;
    }
  }

  /** `size_seq::get_total`. */
  method GetTotal(sizes: seq<nat>, ghost args: seq<Arg>) returns (total: nat)
    requires AllProper(args) && Total(args) < SIZE_LIMIT
    requires |sizes| == |args| && forall i :: 0 <= i < |args| ==> sizes[i] == Length(args[i])
    ensures total == Total(args)
    decreases |sizes|
  {
    hide Pow2;
    total := 0;
    if |sizes| > 0 {
      var aligned := Align4(sizes[0]);
      var rest := GetTotal(sizes[1..], args[1..]);
      total := aligned + rest;
    }
  }

  // ---------------------------------------------------------------------------------------
  // Bytes in a buffer
  // ---------------------------------------------------------------------------------------

  /** The bytes are at that place. */
  ghost predicate At(s: seq<Byte>, at: nat, bytes: seq<Byte>) {
    at + |bytes| <= |s| && s[at..at + |bytes|] == bytes
  }

  ghost predicate SameOutside(s: seq<Byte>, t: seq<Byte>, from: nat, to: nat) {
    |s| == |t| && from <= to <= |s| && s[..from] == t[..from] && s[to..] == t[to..]
  }

  lemma AtStays(s: seq<Byte>, t: seq<Byte>, from: nat, to: nat, at: nat, bytes: seq<Byte>)
    requires At(s, at, bytes) && SameOutside(s, t, from, to) && (at + |bytes| <= from || at >= to)
    ensures At(t, at, bytes)
  {
    if at + |bytes| <= from {
      assert s[..from][at..at + |bytes|] == s[at..at + |bytes|];
      assert t[..from][at..at + |bytes|] == t[at..at + |bytes|];
    } else {
      assert s[to..][at - to..at - to + |bytes|] == s[at..at + |bytes|];
      assert t[to..][at - to..at - to + |bytes|] == t[at..at + |bytes|];
    }
  }

  lemma OutsideJoins(r: seq<Byte>, s: seq<Byte>, t: seq<Byte>, a: nat, b: nat, c: nat, d: nat)
    requires SameOutside(r, s, a, b) && SameOutside(s, t, c, d)
    ensures var from, to := if a < c then a else c, if b > d then b else d; SameOutside(r, t, from, to)
  {
    var from, to := if a < c then a else c, if b > d then b else d;
    assert r[..from] == r[..a][..from] && s[..from] == s[..a][..from] == s[..c][..from] && t[..from] == t[..c][..from];
    assert r[to..] == r[b..][to - b..] && s[to..] == s[b..][to - b..] == s[d..][to - d..]
        && t[to..] == t[d..][to - d..];
  }

  /** `memcpy`, and the stores of plain values. */
  method StoreBytes(buf: array<Byte>, at: nat, bytes: seq<Byte>)
    requires at + |bytes| <= buf.Length
    modifies buf
    ensures At(buf[..], at, bytes) && SameOutside(old(buf[..]), buf[..], at, at + |bytes|)
  {
    for i := 0 to |bytes|
      invariant buf[at..at + i] == bytes[..i]
      invariant buf[..at] == old(buf[..at]) && buf[at + |bytes|..] == old(buf[at + |bytes|..])
    {
      buf[at + i] := bytes[i];
    }
  }

  /** A number in `k` bytes, low byte first. */
  function Le(v: nat, k: nat): (s: seq<Byte>)
    ensures |s| == k
  {
    if k == 0 then [] else [v % 256] + Le(v / 256, k - 1)
  }

  function LeValue(s: seq<Byte>): nat {
    if s == [] then 0 else s[0] + 256 * LeValue(s[1..])
  }

  lemma {:induction false} LeRoundTrip(v: nat, k: nat)
    requires v < Pow2(8 * k)
    ensures LeValue(Le(v, k)) == v
    decreases k
  {
    if k == 0 {
      assert Pow2(0) == 1;
    } else {
      BytePower(k - 1);
      LeRoundTrip(v / 256, k - 1);
      assert Le(v, k)[1..] == Le(v / 256, k - 1);
    }
  }

  // ---------------------------------------------------------------------------------------
  // Writing one argument
  // ---------------------------------------------------------------------------------------

  /** A string with its length in four bytes. */
  ghost predicate HoldsText(s: seq<Byte>, at: nat, text: seq<Byte>) {
    At(s, at, Le(|text|, 4)) && At(s, at + 4, text)
  }

  /** The argument is in the buffer; what lies between its parts does not matter. */
  ghost predicate Holds(s: seq<Byte>, at: nat, a: Arg)
    requires Proper(a)
  {
    && At(s, at, [TypeCode(a)])
    && match a
       case Plain(kind, bytes) => At(s, at + kind.Header(), bytes)
       case NullPointer => at + 4 <= |s|
       case Pointer(address) => At(s, at + 4, address)
       case _ => HoldsText(s, at + 4, Text(a))
  }

  /** The part of `type_copy` for strings: `dataSize` counts the length and the characters. */
  method CopyText(buf: array<Byte>, at: nat, a: Arg, dataSize: nat)
    requires Proper(a) && IsString(a) && dataSize == 4 + |Text(a)| && dataSize < 0x1_0000_0000
    requires at + dataSize <= buf.Length
    modifies buf
    ensures HoldsText(buf[..], at, Text(a)) && SameOutside(old(buf[..]), buf[..], at, at + dataSize)
  {
    hide At, SameOutside, Le, HoldsText, Text;
    ghost var s0 := buf[..];
    var size := dataSize - 4;
    StoreBytes(buf, at, Le(size, 4));
    ghost var s1 := buf[..];
    CopyCharacters(buf, at + 4, a, size);
    AtStays(s1, buf[..], at + 4, at + 4 + size, at, Le(size, 4));
    OutsideJoins(s0, s1, buf[..], at, at + 4, at + 4, at + 4 + size);
    TextFromParts(buf[..], at, Text(a));
  }

  /** The characters of a string, in the way of its type. */
  method CopyCharacters(buf: array<Byte>, at: nat, a: Arg, size: nat)
    requires Proper(a) && IsString(a) && size == |Text(a)| && at + size <= buf.Length
    modifies buf
    ensures At(buf[..], at, Text(a)) && SameOutside(old(buf[..]), buf[..], at, at + size)
  {
    hide At, SameOutside, UnitBytes, UpToZero, Units, Taken;
    match a {
      case String8(src) => StoreBytes(buf, at, Bytes8(src));
      case String16(src) => StoreBytes(buf, at, UnitBytes(Units16(src)));
      case String32(src) => CopyWide(buf, at, src, size, src.Signed());
    }
  }

  method CopyWide(buf: array<Byte>, at: nat, src: WideSource, size: nat, signed: bool)
    requires size == |UnitBytes(src.TakenAs(signed))| && at + size <= buf.Length
    modifies buf
    ensures At(buf[..], at, UnitBytes(src.TakenAs(signed)))
    ensures SameOutside(old(buf[..]), buf[..], at, at + size)
  {
    hide At, SameOutside, Written, UpToZero, UnitBytes, Taken;
    ghost var s0 := buf[..];
    Utf16.Copy(buf, at, src.From(), size, signed);
    WrittenAt(s0, buf[..], at, src.TakenAs(signed));
  }

  lemma WrittenAt(b0: seq<Byte>, b: seq<Byte>, base: nat, done: seq<Unit>)
    requires Written(b0, b, base, done)
    ensures At(b, base, UnitBytes(done)) && SameOutside(b0, b, base, base + 2 * |done|)
  {
    hide UnitBytes, At, SameOutside, Replaced;
    ReplacedAt(b0, b, base, UnitBytes(done));
  }

  lemma ReplacedAt(b0: seq<Byte>, b: seq<Byte>, base: nat, bytes: seq<Byte>)
    requires Replaced(b0, b, base, bytes)
    ensures At(b, base, bytes) && SameOutside(b0, b, base, base + |bytes|)
  {
    var front := b0[..base] + bytes;
    assert |front| == base + |bytes| && b[..base + |bytes|] == front;
    assert b[base..base + |bytes|] == front[base..] == bytes;
    assert b[..base] == front[..base] == b0[..base];
  }

  /** `_type_copy` with type information. */
  method TypeCopy(buf: array<Byte>, at: nat, a: Arg, dataSize: nat)
    requires Proper(a) && dataSize == Length(a) && dataSize < 0x1_0000_0000 && at + dataSize <= buf.Length
    modifies buf
    ensures Holds(buf[..], at, a) && SameOutside(old(buf[..]), buf[..], at, at + dataSize)
  {
    hide At, SameOutside, HoldsText, Text;
    ghost var s0 := buf[..];
    StoreBytes(buf, at, [TypeCode(a)]);
    ghost var s1 := buf[..];
    match a {
      case Plain(kind, bytes) =>
        StoreBytes(buf, at + kind.Header(), bytes);
        AfterHeader(s0, s1, buf[..], at, kind.Header(), kind.Size(), TypeCode(a));
      case NullPointer =>
        WiderOutside(s0, s1, at, at + 1, at + 4);
      case Pointer(address) =>
        StoreBytes(buf, at + 4, address);
        AfterHeader(s0, s1, buf[..], at, 4, 8, TypeCode(a));
      case String8(_) =>
        CopyText(buf, at + 4, a, dataSize - 4);
        AfterHeader(s0, s1, buf[..], at, 4, dataSize - 4, TypeCode(a));
      case String16(_) =>
        CopyText(buf, at + 4, a, dataSize - 4);
        AfterHeader(s0, s1, buf[..], at, 4, dataSize - 4, TypeCode(a));
      case String32(_) =>
        CopyText(buf, at + 4, a, dataSize - 4);
        AfterHeader(s0, s1, buf[..], at, 4, dataSize - 4, TypeCode(a));
    }
  }

  /** The type stays when the value is written. */
  lemma AfterHeader(s0: seq<Byte>, s1: seq<Byte>, s2: seq<Byte>, at: nat, header: nat, n: nat, code: Byte)
    requires header > 0 && At(s1, at, [code]) && SameOutside(s0, s1, at, at + 1)
    requires SameOutside(s1, s2, at + header, at + header + n)
    ensures At(s2, at, [code]) && SameOutside(s0, s2, at, at + header + n)
  {
    hide At, SameOutside;
    AtStays(s1, s2, at + header, at + header + n, at, [code]);
    OutsideJoins(s0, s1, s2, at, at + 1, at + header, at + header + n);
  }

  lemma WiderOutside(s: seq<Byte>, t: seq<Byte>, from: nat, to: nat, to': nat)
    requires SameOutside(s, t, from, to) && to <= to' <= |s|
    ensures SameOutside(s, t, from, to')
  {
    assert s[to'..] == s[to..][to' - to..] && t[to'..] == t[to..][to' - to..];
  }

  lemma HoldsStays(s: seq<Byte>, t: seq<Byte>, from: nat, to: nat, at: nat, a: Arg)
    requires Proper(a) && Holds(s, at, a) && SameOutside(s, t, from, to) && (at + Length(a) <= from || at >= to)
    ensures Holds(t, at, a)
  {
    hide At, SameOutside, HoldsText, Text, TypeCode;
    SameSize(s, t, from, to);
    AtStays(s, t, from, to, at, [TypeCode(a)]);
    match a {
      case Plain(kind, bytes) => AtStays(s, t, from, to, at + kind.Header(), bytes);
      case NullPointer =>
      case Pointer(address) => AtStays(s, t, from, to, at + 4, address);
      case String8(_) => TextStays(s, t, from, to, at + 4, Text(a));
      case String16(_) => TextStays(s, t, from, to, at + 4, Text(a));
      case String32(_) => TextStays(s, t, from, to, at + 4, Text(a));
    }
  }

  lemma TextStays(s: seq<Byte>, t: seq<Byte>, from: nat, to: nat, at: nat, text: seq<Byte>)
    requires HoldsText(s, at, text) && SameOutside(s, t, from, to) && (at + 4 + |text| <= from || at >= to)
    ensures HoldsText(t, at, text)
  {
    hide At, SameOutside, Le;
    AtStays(s, t, from, to, at, Le(|text|, 4));
    AtStays(s, t, from, to, at + 4, text);
  }

  lemma SameSize(s: seq<Byte>, t: seq<Byte>, from: nat, to: nat)
    requires SameOutside(s, t, from, to)
    ensures |s| == |t|
  {
  }

  // ---------------------------------------------------------------------------------------
  // Writing all arguments
  // ---------------------------------------------------------------------------------------

  /** The arguments are in the buffer, one behind the other, each at a multiple of 4 from the first. */
  ghost predicate Laid(s: seq<Byte>, at: nat, args: seq<Arg>)
    requires AllProper(args)
    decreases |args|
  {
    args != [] ==> Holds(s, at, args[0]) && Laid(s, at + Padded(Length(args[0])), args[1..])
  }

  /** `_do_log_args_fill`. */
  method Fill(buf: array<Byte>, at: nat, sizes: seq<nat>, args: seq<Arg>)
    requires AllProper(args) && |args| > 0 && |sizes| == |args|
    requires forall i :: 0 <= i < |args| ==> sizes[i] == Length(args[i])
    requires Total(args) < 0x1_0000_0000 && at + Total(args) <= buf.Length
    modifies buf
    ensures Laid(buf[..], at, args) && SameOutside(old(buf[..]), buf[..], at, at + Total(args))
    decreases |args|
  {
    hide Holds, SameOutside, Length, Proper, Padded, Laid, Total;
    TotalStep(args);
    ghost var s0 := buf[..];
    var dataSize := sizes[0];
    TypeCopy(buf, at, args[0], dataSize);
    ghost var s1 := buf[..];
    if |args| == 1 {
      LaidStep(buf[..], at, args);
      WiderOutside(s0, s1, at, at + dataSize, at + Total(args));
      return;
    }
    var allocSize := Align4(dataSize);
    Fill(buf, at + allocSize, sizes[1..], args[1..]);
    HoldsStays(s1, buf[..], at + allocSize, at + Total(args), at, args[0]);
    LaidStep(buf[..], at, args);
    OutsideJoins(s0, s1, buf[..], at, at + dataSize, at + allocSize, at + Total(args));
  }

  lemma TotalStep(args: seq<Arg>)
    requires AllProper(args) && args != []
    ensures Total(args) == Padded(Length(args[0])) + Total(args[1..])
  {
  }

  lemma LaidStep(s: seq<Byte>, at: nat, args: seq<Arg>)
    requires AllProper(args) && args != [] && Holds(s, at, args[0])
    requires |args| > 1 ==> Laid(s, at + Padded(Length(args[0])), args[1..])
    ensures Laid(s, at, args)
  {
    hide Holds, Length, Padded, Proper;
  }

  /** The codes of `log_arg_type_enum`, and where the value of a plain argument is. */
  lemma Codes(kind: Kind, bytes: seq<Byte>, p: seq<Byte>, s8: Source<Byte>, s16: Source<Unit>, s32: WideSource)
    ensures TypeCode(NullPointer) == 1 && TypeCode(Pointer(p)) == 2
    ensures TypeCode(Plain(kind, bytes)) ==
            match kind
            case Bool => 3 case Character => 4 case Character16 => 5 case Character32 => 6
            case Int8 => 7 case UInt8 => 8 case Int16 => 9 case UInt16 => 10
            case Int32 => 11 case UInt32 => 12 case Int64 => 13 case UInt64 => 14
            case Float => 15 case Double => 16
    ensures TypeCode(String8(s8)) == 17 && TypeCode(String16(s16)) == TypeCode(String32(s32)) == 18
    ensures kind.Size() + kind.Header() ==
            match kind
            case Bool => 3 case Character => 3 case Int8 => 3 case UInt8 => 3
            case Character16 => 4 case Int16 => 4 case UInt16 => 4
            case Character32 => 8 case Int32 => 8 case UInt32 => 8 case Float => 8
            case Int64 => 12 case UInt64 => 12 case Double => 12
  {
  }

  /** Three arguments: true, the 32-bit number 0x04030201, and the text "ab". */
  function ExampleArgs(): seq<Arg> {
    [Plain(Bool, [1]), Plain(Int32, [1, 2, 3, 4]), String8(View([97, 98]))]
  }

  /** Their layout from place 8 on, byte by byte. */
  lemma LaidExample(s: seq<Byte>)
    ensures AllProper(ExampleArgs()) && Total(ExampleArgs()) == 24
    ensures Laid(s, 8, ExampleArgs()) <==>
              && |s| >= 30 && s[8] == 3 && s[10] == 1
              && s[12] == 11 && s[16] == 1 && s[17] == 2 && s[18] == 3 && s[19] == 4
              && s[20] == 17 && s[24] == 2 && s[25] == s[26] == s[27] == 0 && s[28] == 97 && s[29] == 98
  {
    hide Holds, Laid, Total, Length, Padded, Proper, AllProper;
    ExampleLengths();
    LaidThree(s, 8, Plain(Bool, [1]), Plain(Int32, [1, 2, 3, 4]), String8(View([97, 98])));
    HeldTrue(s, 8);
    HeldNumber(s, 12);
    HeldText(s, 20);
  }

  lemma ExampleLengths()
    ensures var a, b, c := Plain(Bool, [1]), Plain(Int32, [1, 2, 3, 4]), String8(View([97, 98]));
            && Proper(a) && Proper(b) && Proper(c)
            && Padded(Length(a)) == 4 && Padded(Length(b)) == 8 && Padded(Length(c)) == 12
  {
  }

  lemma LaidThree(s: seq<Byte>, at: nat, a: Arg, b: Arg, c: Arg)
    requires Proper(a) && Proper(b) && Proper(c)
    ensures AllProper([a, b, c])
    ensures var p, q, r := Padded(Length(a)), Padded(Length(b)), Padded(Length(c));
            && Total([a, b, c]) == p + q + r
            && (Laid(s, at, [a, b, c]) <==> Holds(s, at, a) && Holds(s, at + p, b) && Holds(s, at + p + q, c))
  {
    hide Holds, Length, Padded, Laid, Total, Proper, AllProper;
    var p, q := Padded(Length(a)), Padded(Length(b));
    assert AllProper([]) by { NoneProper(); }
    LaidFirst(s, at + p + q, c, []);
    assert [c] + [] == [c];
    assert [b] + [c] == [b, c];
    assert [a] + [b, c] == [a, b, c];
    LaidFirst(s, at + p, b, [c]);
    LaidFirst(s, at, a, [b, c]);
  }

  lemma NoneProper()
    ensures AllProper([])
  {
  }

  lemma LaidFirst(s: seq<Byte>, at: nat, a: Arg, rest: seq<Arg>)
    requires Proper(a) && AllProper(rest)
    ensures AllProper([a] + rest) && Total([a] + rest) == Padded(Length(a)) + Total(rest)
    ensures Laid(s, at, [a] + rest) <==> Holds(s, at, a) && Laid(s, at + Padded(Length(a)), rest)
    ensures rest == [] ==> Total(rest) == 0 && Laid(s, at + Padded(Length(a)), rest)
  {
    hide Holds, Length, Padded, Proper;
    assert ([a] + rest)[1..] == rest;
  }

  lemma HeldTrue(s: seq<Byte>, at: nat)
    ensures Holds(s, at, Plain(Bool, [1])) <==> at + 2 < |s| && s[at] == 3 && s[at + 2] == 1
  {
    HeldPlace(s, at, 3);
    HeldPlace(s, at + 2, 1);
    hide At;
  }

  lemma HeldNumber(s: seq<Byte>, at: nat)
    ensures Holds(s, at, Plain(Int32, [1, 2, 3, 4])) <==>
              at + 7 < |s| && s[at] == 11 && s[at + 4] == 1 && s[at + 5] == 2 && s[at + 6] == 3 && s[at + 7] == 4
  {
    HeldPlace(s, at, 11);
    HeldFour(s, at + 4, 1, 2, 3, 4);
    hide At;
  }

  lemma HeldText(s: seq<Byte>, at: nat)
    ensures Holds(s, at, String8(View([97, 98]))) <==>
              && at + 9 < |s| && s[at] == 17 && s[at + 4] == 2 && s[at + 5] == s[at + 6] == s[at + 7] == 0
              && s[at + 8] == 97 && s[at + 9] == 98
  {
    assert Le(2, 4) == [2, 0, 0, 0];
    HeldPlace(s, at, 17);
    HeldFour(s, at + 4, 2, 0, 0, 0);
    HeldTwo(s, at + 8, 97, 98);
    hide At;
  }

  lemma HeldTwo(s: seq<Byte>, at: nat, a: Byte, b: Byte)
    ensures At(s, at, [a, b]) <==> at + 1 < |s| && s[at] == a && s[at + 1] == b
  {
  }

  lemma HeldFour(s: seq<Byte>, at: nat, a: Byte, b: Byte, c: Byte, d: Byte)
    ensures At(s, at, [a, b, c, d]) <==>
              at + 3 < |s| && s[at] == a && s[at + 1] == b && s[at + 2] == c && s[at + 3] == d
  {
  }

  lemma HeldPlace(s: seq<Byte>, at: nat, b: Byte)
    ensures At(s, at, [b]) <==> at < |s| && s[at] == b
  {
  }

  // ---------------------------------------------------------------------------------------
  // Reading
  // ---------------------------------------------------------------------------------------

  /** What a reader sees of an argument. */
  datatype Value =
    | PlainValue(kind: Kind, bytes: seq<Byte>)
    | NullValue
    | PointerValue(address: seq<Byte>)
    | TextValue(bytes: seq<Byte>)
    | UnitsValue(units: seq<Unit>)

  function KindOf(code: Byte): Option<Kind> {
    if code == 3 then Some(Bool)
    else if code == 4 then Some(Character)
    else if code == 5 then Some(Character16)
    else if code == 6 then Some(Character32)
    else if code == 7 then Some(Int8)
    else if code == 8 then Some(UInt8)
    else if code == 9 then Some(Int16)
    else if code == 10 then Some(UInt16)
    else if code == 11 then Some(Int32)
    else if code == 12 then Some(UInt32)
    else if code == 13 then Some(Int64)
    else if code == 14 then Some(UInt64)
    else if code == 15 then Some(Float)
    else if code == 16 then Some(Double)
    else None
  }

  /** Bytes in pairs, low byte first. */
  function UnitsFrom(b: seq<Byte>): seq<Unit> {
    if |b| < 2 then [] else UnitsFrom(b[..|b| - 2]) + [b[|b| - 2] + 256 * (b[|b| - 1] as int)]
  }

  lemma {:induction false} UnitsFromBytes(w: seq<Unit>)
    ensures UnitsFrom(UnitBytes(w)) == w
  {
    if w != [] {
      var front, last := w[..|w| - 1], w[|w| - 1];
      UnitsFromBytes(front);
      var b := UnitBytes(w);
      assert b[..|b| - 2] == UnitBytes(front);
      assert w == front + [last];
    }
  }

  /** The length and the characters at a place. */
  function ReadText(s: seq<Byte>, at: nat): Option<seq<Byte>> {
    if at + 4 > |s| then None
    else
      var n := LeValue(s[at..at + 4]);
      if at + 4 + n > |s| then None else Some(s[at + 4..at + 4 + n])
  }

  /** The argument at a place, and its length. */
  function ReadOne(s: seq<Byte>, at: nat): (r: Option<(Value, nat)>)
    ensures r.Some? ==> r.value.1 > 0
  {
    if at >= |s| then None
    else
      var code := s[at];
      if code == NULL_TYPE then Some((NullValue, 4))
      else if code == POINTER_TYPE then
        if at + 12 > |s| then None else Some((PointerValue(s[at + 4..at + 12]), 12))
      else if code == UTF8_TYPE || code == UTF16_TYPE then
        var text := ReadText(s, at + 4);
        if text.None? then None
        else if code == UTF8_TYPE then Some((TextValue(text.value), 8 + |text.value|))
        else Some((UnitsValue(UnitsFrom(text.value)), 8 + |text.value|))
      else
        var kind := KindOf(code);
        if kind.None? then None
        else
          var start := at + kind.value.Header();
          var end := start + kind.value.Size();
          if end > |s| then None else Some((PlainValue(kind.value, s[start..end]), end - at))
  }

  /** All arguments up to a place. */
  function ReadAll(s: seq<Byte>, at: nat, end: nat): Option<seq<Value>>
    decreases end - at
  {
    if at >= end then if at == end then Some([]) else None
    else
      var first := ReadOne(s, at);
      if first.None? then None
      else
        var rest := ReadAll(s, at + Padded(first.value.1), end);
        if rest.None? then None else Some([first.value.0] + rest.value)
  }

  /** What was logged. */
  function ValueOf(a: Arg): Value
    requires Proper(a)
  {
    match a
    case Plain(kind, bytes) => PlainValue(kind, bytes)
    case NullPointer => NullValue
    case Pointer(address) => PointerValue(address)
    case String8(src) => TextValue(Bytes8(src))
    case String16(src) => UnitsValue(Units16(src))
    case String32(src) => UnitsValue(src.Logged())
  }

  function ValuesOf(args: seq<Arg>): seq<Value>
    requires AllProper(args)
  {
    if args == [] then [] else [ValueOf(args[0])] + ValuesOf(args[1..])
  }

  lemma KindOfCode(kind: Kind)
    ensures KindOf(kind.Code()) == Some(kind)
  {
  }

  lemma ReadsText(s: seq<Byte>, at: nat, text: seq<Byte>)
    requires HoldsText(s, at, text) && |text| < 0x1_0000_0000
    ensures ReadText(s, at) == Some(text)
  {
    LimbIsFourBytes();
    LeRoundTrip(|text|, 4);
    hide Le, LeValue;
  }

  lemma FirstByte(s: seq<Byte>, at: nat, b: Byte)
    requires At(s, at, [b])
    ensures at < |s| && s[at] == b
  {
    assert s[at..at + 1][0] == s[at];
  }

  lemma ReadsOne(s: seq<Byte>, at: nat, a: Arg)
    requires Proper(a) && Holds(s, at, a) && Length(a) < 0x1_0000_0000
    ensures ReadOne(s, at) == Some((ValueOf(a), Length(a)))
  {
    hide ReadText, HoldsText, UnitsFrom, UnitBytes, Taken, KindOf, Units16, UpToZero;
    FirstByte(s, at, TypeCode(a));
    match a {
      case Plain(kind, bytes) => KindOfCode(kind);
      case NullPointer =>
      case Pointer(_) =>
      case String8(src) => ReadsText(s, at + 4, Text(a));
      case String16(src) =>
        ReadsText(s, at + 4, Text(a));
        UnitsFromBytes(Units16(src));
      case String32(src) =>
        ReadsText(s, at + 4, Text(a));
        UnitsFromBytes(src.Logged());
    }
  }

  lemma Characters8(s: seq<Byte>, rest: seq<Byte>)
    ensures 0 !in s ==> Bytes8(CString(s + [0] + rest)) == s
    ensures Bytes8(CharArray(s + [0])) == s && Bytes8(View(s)) == s && Bytes8(NullString) == [110, 117, 108, 108]
    ensures s != [] && s[|s| - 1] != 0 ==> Bytes8(CharArray(s)) == s
  {
    if 0 !in s {
      FirstZero(s, rest);
      assert (s + [0] + rest)[..|s|] == s;
    }
    assert (s + [0])[..|s|] == s;
  }

  lemma Read8(buf: seq<Byte>, at: nat, src: Source<Byte>, s: seq<Byte>)
    requires Bytes8(src) == s && 8 + |s| < 0x1_0000_0000 && Holds(buf, at, String8(src))
    ensures ReadOne(buf, at) == Some((TextValue(s), 8 + |s|))
  {
    hide Holds, ReadOne;
    ReadsOne(buf, at, String8(src));
  }

  /** What a reader sees of the four sources of 8-bit characters: a C string up to its first zero, an
      array without the zero at its end, all of a view, and the letters of "null" for a null pointer. */
  lemma Reads8(buf: seq<Byte>, at: nat, s: seq<Byte>, rest: seq<Byte>)
    requires 8 + |s| < 0x1_0000_0000
    ensures 0 !in s && Holds(buf, at, String8(CString(s + [0] + rest))) ==>
              ReadOne(buf, at) == Some((TextValue(s), 8 + |s|))
    ensures Holds(buf, at, String8(CharArray(s + [0]))) ==> ReadOne(buf, at) == Some((TextValue(s), 8 + |s|))
    ensures s != [] && s[|s| - 1] != 0 && Holds(buf, at, String8(CharArray(s))) ==>
              ReadOne(buf, at) == Some((TextValue(s), 8 + |s|))
    ensures Holds(buf, at, String8(View(s))) ==> ReadOne(buf, at) == Some((TextValue(s), 8 + |s|))
    ensures Holds(buf, at, String8(NullString)) ==>
              ReadOne(buf, at) == Some((TextValue([110, 117, 108, 108]), 12))
  {
    hide Holds, ReadOne, Bytes8;
    Characters8(s, rest);
    if 0 !in s && Holds(buf, at, String8(CString(s + [0] + rest))) { Read8(buf, at, CString(s + [0] + rest), s); }
    if Holds(buf, at, String8(CharArray(s + [0]))) { Read8(buf, at, CharArray(s + [0]), s); }
    if s != [] && s[|s| - 1] != 0 && Holds(buf, at, String8(CharArray(s))) { Read8(buf, at, CharArray(s), s); }
    if Holds(buf, at, String8(View(s))) { Read8(buf, at, View(s), s); }
    if Holds(buf, at, String8(NullString)) { Read8(buf, at, NullString, [110, 117, 108, 108]); }
  }

  lemma Characters16(s: seq<Unit>, rest: seq<Unit>)
    ensures 0 !in s ==> Units16(CString(s + [0] + rest)) == s
    ensures Units16(CharArray(s + [0])) == s && Units16(View(s)) == s && Units16(NullString) == [110, 117, 108, 108]
    ensures s != [] && s[|s| - 1] != 0 ==> Units16(CharArray(s)) == s
  {
    if 0 !in s {
      FirstZero(s, rest);
      assert (s + [0] + rest)[..|s|] == s;
    }
    assert (s + [0])[..|s|] == s;
  }

  lemma Read16(buf: seq<Byte>, at: nat, src: Source<Unit>, s: seq<Unit>)
    requires Units16(src) == s && 8 + 2 * |s| < 0x1_0000_0000 && Holds(buf, at, String16(src))
    ensures ReadOne(buf, at) == Some((UnitsValue(s), 8 + 2 * |s|))
  {
    hide Holds, ReadOne, UnitBytes;
    ReadsOne(buf, at, String16(src));
  }

  /** The same for 16-bit characters. */
  lemma Reads16(buf: seq<Byte>, at: nat, s: seq<Unit>, rest: seq<Unit>)
    requires 8 + 2 * |s| < 0x1_0000_0000
    ensures 0 !in s && Holds(buf, at, String16(CString(s + [0] + rest))) ==>
              ReadOne(buf, at) == Some((UnitsValue(s), 8 + 2 * |s|))
    ensures Holds(buf, at, String16(CharArray(s + [0]))) ==> ReadOne(buf, at) == Some((UnitsValue(s), 8 + 2 * |s|))
    ensures s != [] && s[|s| - 1] != 0 && Holds(buf, at, String16(CharArray(s))) ==>
              ReadOne(buf, at) == Some((UnitsValue(s), 8 + 2 * |s|))
    ensures Holds(buf, at, String16(View(s))) ==> ReadOne(buf, at) == Some((UnitsValue(s), 8 + 2 * |s|))
    ensures Holds(buf, at, String16(NullString)) ==>
              ReadOne(buf, at) == Some((UnitsValue([110, 117, 108, 108]), 16))
  {
    hide Holds, ReadOne, Units16, UnitBytes;
    Characters16(s, rest);
    if 0 !in s && Holds(buf, at, String16(CString(s + [0] + rest))) { Read16(buf, at, CString(s + [0] + rest), s); }
    if Holds(buf, at, String16(CharArray(s + [0]))) { Read16(buf, at, CharArray(s + [0]), s); }
    if s != [] && s[|s| - 1] != 0 && Holds(buf, at, String16(CharArray(s))) { Read16(buf, at, CharArray(s), s); }
    if Holds(buf, at, String16(View(s))) { Read16(buf, at, View(s), s); }
    if Holds(buf, at, String16(NullString)) { Read16(buf, at, NullString, [110, 117, 108, 108]); }
  }

  /** Following the types and lengths, a reader finds all arguments as they were logged. */
  lemma {:induction false} ReadsAll(s: seq<Byte>, at: nat, args: seq<Arg>)
    requires AllProper(args) && Laid(s, at, args) && Total(args) < 0x1_0000_0000
    ensures ReadAll(s, at, at + Total(args)) == Some(ValuesOf(args))
    decreases |args|
  {
    hide Holds, Proper, ReadOne, ValueOf, Length;
    if args != [] {
      ReadsOne(s, at, args[0]);
      ReadsAll(s, at + Padded(Length(args[0])), args[1..]);
    }
  }

  // ---------------------------------------------------------------------------------------
  // A whole entry
  // ---------------------------------------------------------------------------------------

  /** A null pointer, as which C strings may come. */
  predicate IsNull(a: Arg) {
    match a
    case String8(src) => src.NullString?
    case String16(src) => src.NullString?
    case String32(src) => src.NullWide?
    case _ => false
  }

  /** A format string as `__api_log_write_begin` copies it: 32-bit characters are taken as
      `char32_t`, whatever their type. */
  function DirectText(a: Arg): (text: seq<Byte>)
    requires IsString(a) && Proper(a)
    ensures |text| == |Text(a)|
  {
    match a
    case String32(src) => UnitBytes(src.TakenAs(false))
    case _ => Text(a)
  }

  /** So a wide format string of code points is always encoded right on this path. */
  lemma DirectMeans(src: WideSource)
    requires CodePoints(src.Characters())
    ensures DirectText(String32(src)) == UnitBytes(EncodeAll(src.Characters()))
  {
    hide UnitBytes;
    UnsignedCopy(src.From(), src.AtMost());
  }

  /** The bytes of the format string of an entry: without stack trace, and unless it is a null
      pointer, it is copied when the entry begins; otherwise the caller writes it. */
  function EntryText(format: Arg, stack: Option<seq<Byte>>): seq<Byte>
    requires IsString(format) && Proper(format)
  {
    if stack.Some? then Text(format) + stack.value
    else if IsNull(format) then Text(format)
    else DirectText(format)
  }

  /** For the four sources of 8-bit characters it is their characters, with the trace behind them. */
  lemma EntryTexts(s: seq<Byte>, rest: seq<Byte>, trace: seq<Byte>)
    requires 0 !in s
    ensures EntryText(String8(CString(s + [0] + rest)), None) == s
    ensures EntryText(String8(CString(s + [0] + rest)), Some(trace)) == s + trace
    ensures EntryText(String8(CharArray(s + [0])), None) == s && EntryText(String8(View(s)), None) == s
    ensures EntryText(String8(NullString), None) == [110, 117, 108, 108]
  {
    hide Bytes8;
    Characters8(s, rest);
  }

  /** The parts of `__api_log_write_begin` and `do_log` that fill the buffer: `f` is the place of
      the format string, its length is before it, the arguments are behind both, at a multiple of 4
      from `f`. */
  method FillEntry(buf: array<Byte>, f: nat, format: Arg, stack: Option<seq<Byte>>, args: seq<Arg>)
    requires Proper(format) && IsString(format) && AllProper(args) && f >= 4
    requires |EntryText(format, stack)| + 4 < 0x1_0000_0000 && Total(args) < 0x1_0000_0000
    requires f + Padded(|EntryText(format, stack)|) + Total(args) <= buf.Length
    modifies buf
    ensures HoldsText(buf[..], f - 4, EntryText(format, stack))
    ensures var at := f + Padded(|EntryText(format, stack)|);
            ReadAll(buf[..], at, at + Total(args)) == Some(ValuesOf(args))
    ensures SameOutside(old(buf[..]), buf[..], f - 4, f + Padded(|EntryText(format, stack)|) + Total(args))
  {
    hide SameOutside, Text, DirectText, HoldsText, Laid, Proper, ReadAll, ValuesOf, Total, Padded;
    var total;
    if stack.None? && !IsNull(format) {
      total := BeginEntry(buf, f, format);
    } else {
      total := FillFormat(buf, f, format, if stack.Some? then stack.value else []);
    }
    ghost var s0, s3, text := old(buf[..]), buf[..], EntryText(format, stack);
    NothingBehind(Text(format));
    assert total == |text| && HoldsText(s3, f - 4, text);
    if |args| > 0 {
      var sizes := MakeSizeSeq(args);
      var at := Align4(total);
      at := f + at;
      Fill(buf, at, sizes, args);
      TextStays(s3, buf[..], at, at + Total(args), f - 4, text);
      OutsideJoins(s0, s3, buf[..], f - 4, f + total, at, at + Total(args));
      ReadsAll(buf[..], at, args);
    } else {
      NoArguments(buf[..], f + Padded(total), args);
      WiderOutside(s0, s3, f - 4, f + total, f + Padded(total));
    }
  }

  lemma NoArguments(s: seq<Byte>, at: nat, args: seq<Arg>)
    requires args == []
    ensures Total(args) == 0 && ReadAll(s, at, at) == Some([]) == Some(ValuesOf(args))
  {
  }

  lemma NothingBehind(text: seq<Byte>)
    ensures text + [] == text
  {
  }

  /** The part of `__api_log_write_begin` that stores the length and copies the format string. */
  method BeginEntry(buf: array<Byte>, f: nat, format: Arg) returns (total: nat)
    requires Proper(format) && IsString(format) && f >= 4
    requires |Text(format)| + 4 < 0x1_0000_0000 && f + |Text(format)| <= buf.Length
    modifies buf
    ensures total == |DirectText(format)| && HoldsText(buf[..], f - 4, DirectText(format))
    ensures SameOutside(old(buf[..]), buf[..], f - 4, f + total)
  {
    hide At, SameOutside, Le, Text, HoldsText, Proper;
    total := TextSize(format);
    ghost var s0 := buf[..];
    StoreBytes(buf, f - 4, Le(total, 4));
    ghost var s1 := buf[..];
    CopyDirect(buf, f, format, total);
    AtStays(s1, buf[..], f, f + total, f - 4, Le(total, 4));
    OutsideJoins(s0, s1, buf[..], f - 4, f, f, f + total);
    TextFromParts(buf[..], f - 4, DirectText(format));
  }

  method CopyDirect(buf: array<Byte>, f: nat, format: Arg, size: nat)
    requires Proper(format) && IsString(format) && size == |Text(format)| && f + size <= buf.Length
    modifies buf
    ensures At(buf[..], f, DirectText(format)) && SameOutside(old(buf[..]), buf[..], f, f + size)
  {
    hide At, SameOutside, UnitBytes, UpToZero, Taken;
    match format {
      case String8(src) => StoreBytes(buf, f, Bytes8(src));
      case String16(src) => StoreBytes(buf, f, UnitBytes(Units16(src)));
      case String32(src) => CopyWide(buf, f, src, size, false);
    }
  }

  /** The format string, and the stack trace behind it. */
  method FillFormat(buf: array<Byte>, f: nat, format: Arg, stack: seq<Byte>) returns (total: nat)
    requires Proper(format) && IsString(format) && f >= 4
    requires |Text(format)| + |stack| + 4 < 0x1_0000_0000 && f + |Text(format)| + |stack| <= buf.Length
    modifies buf
    ensures total == |Text(format)| + |stack| && HoldsText(buf[..], f - 4, Text(format) + stack)
    ensures SameOutside(old(buf[..]), buf[..], f - 4, f + total)
  {
    hide At, SameOutside, Le, Text, HoldsText, Proper;
    var formatSize := TextSize(format);
    total := formatSize + |stack|;
    ghost var s0 := buf[..];
    CopyText(buf, f - 4, format, formatSize + 4);
    ghost var s1 := buf[..];
    StoreBytes(buf, f + formatSize, stack);
    ghost var s2 := buf[..];
    StoreBytes(buf, f - 4, Le(total, 4));
    TextJoined(s1, s2, buf[..], f - 4, Text(format), stack);
    OutsideJoins(s0, s1, s2, f - 4, f + formatSize, f + formatSize, f + total);
    OutsideJoins(s0, s2, buf[..], f - 4, f + total, f - 4, f);
  }

  /** `get_storage_data_size` of a format string. */
  method TextSize(a: Arg) returns (n: nat)
    requires Proper(a) && IsString(a)
    ensures n == |Text(a)|
  {
    var size := StorageDataSize(a);
    n := size - 8;
  }

  /** The text grows by what is behind it when its length is set anew. */
  lemma TextJoined(s1: seq<Byte>, s2: seq<Byte>, s3: seq<Byte>, at: nat, text: seq<Byte>, more: seq<Byte>)
    requires HoldsText(s1, at, text)
    requires At(s2, at + 4 + |text|, more) && SameOutside(s1, s2, at + 4 + |text|, at + 4 + |text| + |more|)
    requires At(s3, at, Le(|text| + |more|, 4)) && SameOutside(s2, s3, at, at + 4)
    ensures HoldsText(s3, at, text + more)
  {
    hide Le, SameOutside, At, HoldsText;
    TextParts(s1, at, text);
    AtStays(s1, s2, at + 4 + |text|, at + 4 + |text| + |more|, at + 4, text);
    AtStays(s2, s3, at, at + 4, at + 4, text);
    AtStays(s2, s3, at, at + 4, at + 4 + |text|, more);
    AtJoined(s3, at + 4, text, more);
    var joined := text + more;
    TextFromParts(s3, at, joined);
  }

  lemma TextParts(s: seq<Byte>, at: nat, text: seq<Byte>)
    requires HoldsText(s, at, text)
    ensures At(s, at + 4, text)
  {
  }

  lemma TextFromParts(s: seq<Byte>, at: nat, text: seq<Byte>)
    requires At(s, at, Le(|text|, 4)) && At(s, at + 4, text)
    ensures HoldsText(s, at, text)
  {
  }

  lemma AtJoined(s: seq<Byte>, at: nat, a: seq<Byte>, b: seq<Byte>)
    requires At(s, at, a) && At(s, at + |a|, b)
    ensures At(s, at, a + b)
  {
    assert s[at..at + |a + b|] == s[at..at + |a|] + s[at + |a|..at + |a| + |b|];
  }
}
