/** The ioctl command-number encoder of the driver's test suite: `_IOC`,
    `_IO`, `_IOR` and `_IOW`, which pack a direction, a type tag, a command
    number and an argument size into one integer, in the bit layout of the
    Linux `_IOC` macro. The encoder works on Python's unbounded integers, so
    the model works on `nat`; Python's `<<`, `>>`, `|` and `&` on
    non-negative integers are written out as arithmetic. */
module IoctlCodes {

  datatype Option<T> = None | Some(value: T)

  // ---------------------------------------------------------------------
  // Bit arithmetic on non-negative integers
  // ---------------------------------------------------------------------

  /** 2^k, the value of `1 << k`. */
  function Pow2(k: nat): (p: nat)
    ensures p >= 1
  {
    if k == 0 then 1 else 2 * Pow2(k - 1)
  }

  /** `x << k`, one doubling per position. */
  function Shl(x: nat, k: nat): nat
  {
    if k == 0 then x else 2 * Shl(x, k - 1)
  }

  /** `x >> k`, one halving (rounding down) per position. */
  function Shr(x: nat, k: nat): nat
  {
    if k == 0 then x else Shr(x / 2, k - 1)
  }

  /** `a | b`, bit by bit from the least significant end. */
  function BitOr(a: nat, b: nat): (r: nat)
    decreases a + b
  {
    if a == 0 && b == 0 then 0
    else 2 * BitOr(a / 2, b / 2) + (if a % 2 == 1 || b % 2 == 1 then 1 else 0)
  }

  /** `a & b`, bit by bit from the least significant end. */
  function BitAnd(a: nat, b: nat): (r: nat)
    decreases a + b
  {
    if a == 0 || b == 0 then 0
    else 2 * BitAnd(a / 2, b / 2) + (if a % 2 == 1 && b % 2 == 1 then 1 else 0)
  }

  // ---------------------------------------------------------------------
  // The layout
  // ---------------------------------------------------------------------

  const NrBits: nat := 8
  const TypeBits: nat := 8
  const SizeBits: nat := 14
  const DirBits: nat := 2

  const NrMask: nat := Pow2(NrBits) - 1
  const TypeMask: nat := Pow2(TypeBits) - 1
  const SizeMask: nat := Pow2(SizeBits) - 1
  const DirMask: nat := Pow2(DirBits) - 1

  const NrShift: nat := 0
  const TypeShift: nat := NrShift + NrBits
  const SizeShift: nat := TypeShift + TypeBits
  const DirShift: nat := SizeShift + SizeBits

  /** Directions. */
  const IocNone: nat := 0
  const IocWrite: nat := 1
  const IocRead: nat := 2

  /** The shift-and-or expression of `_IOC`, on a numeric type tag, in the
      order the source writes it: direction, type, number, size. */
  function Pack(dir: nat, typ: nat, nr: nat, size: nat): nat
  {
    BitOr(BitOr(BitOr(Shl(dir, DirShift), Shl(typ, TypeShift)), Shl(nr, NrShift)), Shl(size, SizeShift))
  }

  /** The fields of a command number, recovered by shifting and masking
      (the kernel's `_IOC_DIR`, `_IOC_TYPE`, `_IOC_NR` and `_IOC_SIZE`). */
  function DecodeDir(code: nat): nat { BitAnd(Shr(code, DirShift), DirMask) }
  function DecodeType(code: nat): nat { BitAnd(Shr(code, TypeShift), TypeMask) }
  function DecodeNr(code: nat): nat { BitAnd(Shr(code, NrShift), NrMask) }
  function DecodeSize(code: nat): nat { BitAnd(Shr(code, SizeShift), SizeMask) }

  /** The fields all fit their widths. */
  predicate InRange(dir: nat, typ: nat, nr: nat, size: nat)
  {
    dir < 4 && typ < 256 && nr < 256 && size < 16384
  }

  // ---------------------------------------------------------------------
  // The encoder
  // ---------------------------------------------------------------------

  /** The type tag argument: an integer, or a string that is replaced by
      its character code (`ord`), which fails unless it has one character. */
  datatype TypeArg = IntTag(n: nat) | StrTag(s: string)

  function TagValue(t: TypeArg): (r: Option<nat>)
    ensures r.Some? <==> t.IntTag? || |t.s| == 1
    ensures t.IntTag? ==> r == Some(t.n)
    ensures t.StrTag? && r.Some? ==> r.value == t.s[0] as nat
  {
    match t
    case IntTag(n) => Some(n)
    case StrTag(s) => if |s| == 1 then Some(s[0] as nat) else None
  }

  /** `_IOC(dir, _type, nr, size)`; `None` where `ord` would raise. */
  function Ioc(dir: nat, t: TypeArg, nr: nat, size: nat): (r: Option<nat>)
    ensures r.Some? <==> TagValue(t).Some?
    // in-range fields come back out of the code by shifting and masking
    ensures r.Some? && InRange(dir, TagValue(t).value, nr, size) ==>
      DecodeDir(r.value) == dir && DecodeType(r.value) == TagValue(t).value &&
      DecodeNr(r.value) == nr && DecodeSize(r.value) == size
  {
    match TagValue(t)
    case None => None
    case Some(v) =>
      if InRange(dir, v, nr, size) then
        PackRoundTrip(dir, v, nr, size);
        Some(Pack(dir, v, nr, size))
      else Some(Pack(dir, v, nr, size))
  }

  /** The C types the `sizeof` table names. */
  datatype CType =
    | Byte | SignedByte | UnsignedByte
    | Short | UnsignedShort
    | Int | UnsignedInt
    | Long | UnsignedLong
    | LongLong | UnsignedLongLong

  /** The platform-dependent sizes `struct.calcsize` reports for the
      native formats `h`, `i`, `l` and `q` (and their unsigned forms). */
  datatype Platform = Platform(shortSize: nat, intSize: nat, longSize: nat, longLongSize: nat)

  /** The `sizeof` table; a `char` is one byte everywhere. */
  function SizeOf(p: Platform, t: CType): (n: nat)
    ensures t.Byte? || t.SignedByte? || t.UnsignedByte? ==> n == 1
    // a signed type and its unsigned form have the platform's one size
    ensures t.Short? || t.UnsignedShort? ==> n == p.shortSize
    ensures t.Int? || t.UnsignedInt? ==> n == p.intSize
    ensures t.Long? || t.UnsignedLong? ==> n == p.longSize
    ensures t.LongLong? || t.UnsignedLongLong? ==> n == p.longLongSize
  {
    match t
    case Byte | SignedByte | UnsignedByte => 1
    case Short | UnsignedShort => p.shortSize
    case Int | UnsignedInt => p.intSize
    case Long | UnsignedLong => p.longSize
    case LongLong | UnsignedLongLong => p.longLongSize
  }

  /** `_IO`: direction none, size 0. */
  function Io(t: TypeArg, nr: nat): (r: Option<nat>)
    ensures r.Some? <==> TagValue(t).Some?
    ensures r.Some? && TagValue(t).value < 0x100 && nr < 0x100 ==>
      DecodeDir(r.value) == IocNone && DecodeSize(r.value) == 0 &&
      DecodeType(r.value) == TagValue(t).value && DecodeNr(r.value) == nr
  {
    Ioc(IocNone, t, nr, 0)
  }

  /** `_IOR`: direction read, the size of the named type. */
  function Ior(t: TypeArg, nr: nat, size: CType, p: Platform): (r: Option<nat>)
    ensures r.Some? <==> TagValue(t).Some?
    ensures r.Some? && TagValue(t).value < 0x100 && nr < 0x100 && SizeOf(p, size) < 0x4000 ==>
      DecodeDir(r.value) == IocRead && DecodeSize(r.value) == SizeOf(p, size) &&
      DecodeType(r.value) == TagValue(t).value && DecodeNr(r.value) == nr
  {
    Ioc(IocRead, t, nr, SizeOf(p, size))
  }

  /** `_IOW`: direction write, the size of the named type. */
  function Iow(t: TypeArg, nr: nat, size: CType, p: Platform): (r: Option<nat>)
    ensures r.Some? <==> TagValue(t).Some?
    ensures r.Some? && TagValue(t).value < 0x100 && nr < 0x100 && SizeOf(p, size) < 0x4000 ==>
      DecodeDir(r.value) == IocWrite && DecodeSize(r.value) == SizeOf(p, size) &&
      DecodeType(r.value) == TagValue(t).value && DecodeNr(r.value) == nr
  {
    Ioc(IocWrite, t, nr, SizeOf(p, size))
  }

  /** The commands the tests send to the driver. */
  const MyMagic: TypeArg := StrTag("r")

  function MyReset(p: Platform): Option<nat> { Iow(MyMagic, 0, Int, p) }
  function MyRestart(p: Platform): Option<nat> { Iow(MyMagic, 1, Int, p) }
  function MyInvalidIoctl(p: Platform): Option<nat> { Iow(MyMagic, 128, Int, p) }

  // ---------------------------------------------------------------------
  // Arithmetic facts
  // ---------------------------------------------------------------------

  lemma Pow2Values()
    ensures Pow2(0) == 1 && Pow2(2) == 4 && Pow2(8) == 256 && Pow2(14) == 0x4000
    ensures Pow2(16) == 0x1_0000 && Pow2(30) == 0x4000_0000
  {
  }

  /** One step of `|`: the low bit and the rest. */
  lemma BitOrStep(a: nat, b: nat)
    ensures BitOr(a, b) == 2 * BitOr(a / 2, b / 2) + (if a % 2 == 1 || b % 2 == 1 then 1 else 0)
  {
  }

  /** A left shift multiplies by a power of two. */
  lemma {:induction false} ShlMul(x: nat, k: nat)
    ensures Shl(x, k) == x * Pow2(k)
    decreases k
  {
    if k > 0 {
      ShlMul(x, k - 1);
      assert x * Pow2(k) == 2 * (x * Pow2(k - 1));
    }
  }

  lemma {:induction false} ShlZero(k: nat)
    ensures Shl(0, k) == 0
    decreases k
  {
    if k > 0 {
      ShlZero(k - 1);
    }
  }

  /** Two left shifts in a row shift by their sum. */
  lemma {:induction false} ShlShl(x: nat, j: nat, k: nat)
    ensures Shl(x, j + k) == Shl(Shl(x, j), k)
    decreases k
  {
    if k > 0 {
      ShlShl(x, j, k - 1);
    }
  }

  /** The two shift widths of the layout's nested splits, as products. */
  lemma ShlWidths(x: nat)
    ensures Shl(x, 8) == 0x100 * x && Shl(x, 14) == 0x4000 * x
  {
    Pow2Values();
    ShlMul(x, 8);
    ShlMul(x, 14);
  }

  /** Halving a number split at bit `k` halves its low part. */
  lemma HalveSplit(a: nat, b: nat, k: nat)
    requires k > 0 && b < Pow2(k)
    ensures (Shl(a, k) + b) / 2 == Shl(a, k - 1) + b / 2
    ensures (Shl(a, k) + b) % 2 == b % 2
    ensures b / 2 < Pow2(k - 1)
  {
  }

  /** Or-ing two numbers that are both split at bit `k` or-s the high parts
      and the low parts separately. */
  lemma {:induction false} OrSplit(a: nat, b: nat, c: nat, d: nat, k: nat)
    requires b < Pow2(k) && d < Pow2(k)
    ensures BitOr(Shl(a, k) + b, Shl(c, k) + d) == Shl(BitOr(a, c), k) + BitOr(b, d)
    decreases k
  {
    if k == 0 {
      assert b == 0 && d == 0 && BitOr(0, 0) == 0;
    } else {
      HalveSplit(a, b, k);
      HalveSplit(c, d, k);
      OrSplit(a, b / 2, c, d / 2, k - 1);
      OrSplitStep(a, b, c, d, k);
    }
  }

  /** The step of `OrSplit`: the split at bit `k` from the split of the
      halves at bit `k - 1`. */
  lemma OrSplitStep(a: nat, b: nat, c: nat, d: nat, k: nat)
    requires k > 0
    requires (Shl(a, k) + b) / 2 == Shl(a, k - 1) + b / 2 && (Shl(a, k) + b) % 2 == b % 2
    requires (Shl(c, k) + d) / 2 == Shl(c, k - 1) + d / 2 && (Shl(c, k) + d) % 2 == d % 2
    requires BitOr(Shl(a, k - 1) + b / 2, Shl(c, k - 1) + d / 2) == Shl(BitOr(a, c), k - 1) + BitOr(b / 2, d / 2)
    ensures BitOr(Shl(a, k) + b, Shl(c, k) + d) == Shl(BitOr(a, c), k) + BitOr(b, d)
  {
    var x, y := Shl(a, k) + b, Shl(c, k) + d;
    BitOrStep(x, y);
    BitOrStep(b, d);
  }

  /** Zero is the identity of `|`. */
  lemma {:induction false} OrZero(a: nat)
    ensures BitOr(a, 0) == a && BitOr(0, a) == a
    decreases a
  {
    if a > 0 {
      OrZero(a / 2);
    }
  }

  /** Or-ing with a number below 2^k adds it to a multiple of 2^k. */
  lemma OrDisjoint(hi: nat, lo: nat, k: nat)
    requires lo < Pow2(k)
    ensures BitOr(Shl(hi, k), lo) == Shl(hi, k) + lo
  {
    var h := Shl(hi, k);
    assert h + 0 == h && Shl(0, k) + lo == lo by { ShlZero(k); }
    assert BitOr(h + 0, Shl(0, k) + lo) == Shl(BitOr(hi, 0), k) + BitOr(0, lo) by {
      OrSplit(hi, 0, 0, lo, k);
    }
    OrZero(hi);
    OrZero(lo);
  }

  /** Or-ing a number split at bit `k` with a multiple of 2^k leaves the
      low part. */
  lemma OrHighLow(a: nat, b: nat, c: nat, k: nat)
    requires b < Pow2(k)
    ensures BitOr(Shl(a, k) + b, Shl(c, k)) == Shl(BitOr(a, c), k) + b
  {
    var y := Shl(c, k);
    assert y + 0 == y;
    assert BitOr(Shl(a, k) + b, y + 0) == Shl(BitOr(a, c), k) + BitOr(b, 0) by {
      ShlZero(k);
      OrSplit(a, b, c, 0, k);
    }
    OrZero(b);
  }

  /** Shifting right by `k` a number split at bit `k` leaves its high
      part. */
  lemma {:induction false} ShrSplit(a: nat, b: nat, k: nat)
    requires b < Pow2(k)
    ensures Shr(Shl(a, k) + b, k) == a
    decreases k
  {
    if k > 0 {
      HalveSplit(a, b, k);
      ShrSplit(a, b / 2, k - 1);
    }
  }

  /** Two right shifts in a row shift by their sum. */
  lemma {:induction false} ShrShr(x: nat, j: nat, k: nat)
    ensures Shr(x, j + k) == Shr(Shr(x, j), k)
    decreases j
  {
    if j > 0 {
      ShrShr(x / 2, j - 1, k);
    }
  }

  /** And-ing a number split at bit `k` with the mask `(1 << k) - 1` keeps
      exactly its low part. */
  lemma {:induction false} AndLowMask(a: nat, b: nat, k: nat)
    requires b < Pow2(k)
    ensures BitAnd(Shl(a, k) + b, Pow2(k) - 1) == b
    decreases k
  {
    if k > 0 {
      var x, m := Shl(a, k) + b, Pow2(k) - 1;
      HalveSplit(a, b, k);
      assert m / 2 == Pow2(k - 1) - 1 && m % 2 == 1;
      AndLowMask(a, b / 2, k - 1);
      if x != 0 {
        assert BitAnd(x, m) == 2 * BitAnd(x / 2, m / 2) + (if x % 2 == 1 then 1 else 0);
      }
    }
  }

  // ---------------------------------------------------------------------
  // The properties of the encoder
  // ---------------------------------------------------------------------

  /** `(dir << 30) | (typ << 8)` as one split at bit 8. */
  lemma DirOrType(dir: nat, typ: nat)
    requires typ < 0x100
    ensures BitOr(Shl(dir, 30), Shl(typ, 8)) == Shl(Shl(Shl(dir, 14), 8) + typ, 8)
  {
    var d8 := Shl(Shl(dir, 14), 8);
    assert Shl(dir, 30) == Shl(d8, 8) by {
      ShlShl(dir, 14, 16);
      ShlShl(Shl(dir, 14), 8, 8);
    }
    assert BitOr(Shl(d8, 8) + 0, Shl(typ, 8)) == Shl(BitOr(d8, typ), 8) + 0 by {
      ShlZero(8);
      OrHighLow(d8, 0, typ, 8);
    }
    assert BitOr(d8, typ) == d8 + typ by {
      assert Pow2(8) == 0x100;
      OrDisjoint(Shl(dir, 14), typ, 8);
    }
  }

  /** The size, shifted to bit 8, or-ed with direction-over-type. */
  lemma SizeBesideType(dir: nat, size: nat, typ: nat)
    requires size < 0x4000 && typ < 0x100
    ensures BitOr(Shl(Shl(dir, 14), 8) + typ, Shl(size, 8)) == Shl(Shl(dir, 14) + size, 8) + typ
  {
    var d := Shl(dir, 14);
    Pow2Values();
    assert BitOr(d, size) == d + size by { OrDisjoint(dir, size, 14); }
    OrHighLow(d, typ, size, 8);
  }

  /** Or-ing the size in at bit 16 fills the gap between direction and
      type. */
  lemma SizeIn(dir: nat, size: nat, typ: nat, nr: nat)
    requires size < 0x4000 && typ < 0x100 && nr < 0x100
    ensures BitOr(Shl(Shl(Shl(dir, 14), 8) + typ, 8) + nr, Shl(size, 16))
         == Shl(Shl(Shl(dir, 14) + size, 8) + typ, 8) + nr
  {
    var a, s8 := Shl(Shl(dir, 14), 8) + typ, Shl(size, 8);
    Pow2Values();
    assert Shl(size, 16) == Shl(s8, 8) by { ShlShl(size, 8, 8); }
    OrHighLow(a, nr, s8, 8);
    SizeBesideType(dir, size, typ);
  }

  /** The packed code as nested splits: direction over size at bit 14,
      that over type at bit 8, that over number at bit 8. */
  lemma PackNested(dir: nat, typ: nat, nr: nat, size: nat)
    requires InRange(dir, typ, nr, size)
    ensures Pack(dir, typ, nr, size) == Shl(Shl(Shl(dir, 14) + size, 8) + typ, 8) + nr
  {
    var t := Shl(Shl(Shl(dir, 14), 8) + typ, 8);
    DirOrType(dir, typ);
    assert BitOr(t, Shl(nr, 0)) == t + nr by {
      Pow2Values();
      OrDisjoint(Shl(Shl(dir, 14), 8) + typ, nr, 8);
    }
    SizeIn(dir, size, typ, nr);
  }

  /** With in-range fields the number is the field-wise sum: number in bits
      0-7, type in bits 8-15, size in bits 16-29, direction in bits 30-31;
      so it fits in 32 bits. */
  lemma PackLayout(dir: nat, typ: nat, nr: nat, size: nat)
    requires InRange(dir, typ, nr, size)
    ensures Pack(dir, typ, nr, size) == dir * 0x4000_0000 + size * 0x1_0000 + typ * 0x100 + nr
    ensures Pack(dir, typ, nr, size) < 0x1_0000_0000
  {
    PackNested(dir, typ, nr, size);
    var ds := Shl(dir, 14) + size;
    assert ds == 0x4000 * dir + size by { ShlWidths(dir); }
    var dst := Shl(ds, 8) + typ;
    assert dst == 0x100 * ds + typ by { ShlWidths(ds); }
    assert Shl(dst, 8) == 0x100 * dst by { ShlWidths(dst); }
  }

  /** The decoders with the layout's constants worked out. */
  lemma DecodeShapes(c: nat)
    ensures DecodeNr(c) == BitAnd(c, Pow2(8) - 1)
    ensures DecodeType(c) == BitAnd(Shr(c, 8), Pow2(8) - 1)
    ensures DecodeSize(c) == BitAnd(Shr(c, 16), Pow2(14) - 1)
    ensures DecodeDir(c) == BitAnd(Shr(c, 30), Pow2(2) - 1)
  {
  }

  /** The number field: the low 8 bits. */
  lemma NrField(c: nat, t: nat, nr: nat)
    requires nr < 0x100 && c == Shl(t, 8) + nr
    ensures DecodeNr(c) == nr
  {
    DecodeShapes(c);
    Pow2Values();
    AndLowMask(t, nr, 8);
  }

  /** The type field: bits 8-15. */
  lemma TypeField(c: nat, t: nat, ds: nat, typ: nat, nr: nat)
    requires typ < 0x100 && nr < 0x100
    requires c == Shl(t, 8) + nr && t == Shl(ds, 8) + typ
    ensures DecodeType(c) == typ
  {
    DecodeShapes(c);
    Pow2Values();
    ShrSplit(t, nr, 8);
    AndLowMask(ds, typ, 8);
  }

  /** Bits 16 and up: direction over size. */
  lemma UpperHalf(c: nat, t: nat, ds: nat, typ: nat, nr: nat)
    requires typ < 0x100 && nr < 0x100
    requires c == Shl(t, 8) + nr && t == Shl(ds, 8) + typ
    ensures Shr(c, 16) == ds
  {
    Pow2Values();
    ShrSplit(t, nr, 8);
    ShrSplit(ds, typ, 8);
    ShrShr(c, 8, 8);
  }

  /** The size field: bits 16-29. */
  lemma SizeField(c: nat, t: nat, ds: nat, dir: nat, size: nat, typ: nat, nr: nat)
    requires size < 0x4000 && typ < 0x100 && nr < 0x100
    requires c == Shl(t, 8) + nr && t == Shl(ds, 8) + typ && ds == Shl(dir, 14) + size
    ensures DecodeSize(c) == size
  {
    DecodeShapes(c);
    Pow2Values();
    UpperHalf(c, t, ds, typ, nr);
    AndLowMask(dir, size, 14);
  }

  /** Bits 30 and up: the direction. */
  lemma TopBits(c: nat, t: nat, ds: nat, dir: nat, size: nat, typ: nat, nr: nat)
    requires size < 0x4000 && typ < 0x100 && nr < 0x100
    requires c == Shl(t, 8) + nr && t == Shl(ds, 8) + typ && ds == Shl(dir, 14) + size
    ensures Shr(c, 30) == dir
  {
    Pow2Values();
    UpperHalf(c, t, ds, typ, nr);
    ShrShr(c, 16, 14);
    ShrSplit(dir, size, 14);
  }

  /** The direction field: bits 30-31. */
  lemma DirField(c: nat, t: nat, ds: nat, dir: nat, size: nat, typ: nat, nr: nat)
    requires dir < 4 && size < 0x4000 && typ < 0x100 && nr < 0x100
    requires c == Shl(t, 8) + nr && t == Shl(ds, 8) + typ && ds == Shl(dir, 14) + size
    ensures DecodeDir(c) == dir
  {
    DecodeShapes(c);
    Pow2Values();
    TopBits(c, t, ds, dir, size, typ, nr);
    ShlZero(2);
    AndLowMask(0, dir, 2);
  }

  /** Shifting and masking recovers every in-range field. */
  lemma PackRoundTrip(dir: nat, typ: nat, nr: nat, size: nat)
    requires InRange(dir, typ, nr, size)
    ensures DecodeDir(Pack(dir, typ, nr, size)) == dir
    ensures DecodeType(Pack(dir, typ, nr, size)) == typ
    ensures DecodeNr(Pack(dir, typ, nr, size)) == nr
    ensures DecodeSize(Pack(dir, typ, nr, size)) == size
  {
    var c := Pack(dir, typ, nr, size);
    var ds := Shl(dir, 14) + size;
    var t := Shl(ds, 8) + typ;
    PackNested(dir, typ, nr, size);
    NrField(c, t, nr);
    TypeField(c, t, ds, typ, nr);
    SizeField(c, t, ds, dir, size, typ, nr);
    DirField(c, t, ds, dir, size, typ, nr);
  }

  /** Distinct in-range field tuples give distinct command numbers. */
  lemma PackInjective(d1: nat, t1: nat, n1: nat, s1: nat, d2: nat, t2: nat, n2: nat, s2: nat)
    requires InRange(d1, t1, n1, s1) && InRange(d2, t2, n2, s2)
    requires Pack(d1, t1, n1, s1) == Pack(d2, t2, n2, s2)
    ensures d1 == d2 && t1 == t2 && n1 == n2 && s1 == s2
  {
    PackRoundTrip(d1, t1, n1, s1);
    PackRoundTrip(d2, t2, n2, s2);
  }

  /** A one-character string tag encodes exactly as its character code. */
  lemma StringTagIsOrd(dir: nat, c: char, nr: nat, size: nat)
    ensures Ioc(dir, StrTag([c]), nr, size) == Ioc(dir, IntTag(c as nat), nr, size)
    ensures Ioc(dir, StrTag([c]), nr, size).Some?
  {
  }

  /** The three wrappers differ only in the direction and size fields:
      `_IOW` writes direction 1 and the size of the named type, `_IOR`
      direction 2, `_IO` direction 0 and size 0; type and number are kept. */
  lemma WrapperFields(t: TypeArg, nr: nat, ty: CType, p: Platform)
    requires TagValue(t).Some? && TagValue(t).value < 256 && nr < 256
    requires SizeOf(p, ty) < 0x4000
    ensures Iow(t, nr, ty, p).Some? && Ior(t, nr, ty, p).Some? && Io(t, nr).Some?
    ensures var w := Iow(t, nr, ty, p).value;
      DecodeDir(w) == IocWrite && DecodeSize(w) == SizeOf(p, ty) &&
      DecodeType(w) == TagValue(t).value && DecodeNr(w) == nr
    ensures var r := Ior(t, nr, ty, p).value;
      DecodeDir(r) == IocRead && DecodeSize(r) == SizeOf(p, ty) &&
      DecodeType(r) == TagValue(t).value && DecodeNr(r) == nr
    ensures var o := Io(t, nr).value;
      DecodeDir(o) == IocNone && DecodeSize(o) == 0 &&
      DecodeType(o) == TagValue(t).value && DecodeNr(o) == nr
  {
    var v := TagValue(t).value;
    PackRoundTrip(IocWrite, v, nr, SizeOf(p, ty));
    PackRoundTrip(IocRead, v, nr, SizeOf(p, ty));
    PackRoundTrip(IocNone, v, nr, 0);
  }

  /** The test commands on a platform with 4-byte `int`. */
  lemma CommandValues(p: Platform)
    requires p.intSize == 4
    ensures MyReset(p) == Some(0x4004_7200)
    ensures MyRestart(p) == Some(0x4004_7201)
    ensures MyInvalidIoctl(p) == Some(0x4004_7280)
  {
    PackLayout(IocWrite, 'r' as nat, 0, 4);
    PackLayout(IocWrite, 'r' as nat, 1, 4);
    PackLayout(IocWrite, 'r' as nat, 128, 4);
  }

  /** On any platform whose `int` size fits the size field, the three test
      commands are pairwise distinct and differ only in the number field,
      which holds 0, 1 and 128. */
  lemma CommandsDifferOnlyInNumber(p: Platform)
    requires p.intSize < 0x4000
    ensures MyReset(p).Some? && MyRestart(p).Some? && MyInvalidIoctl(p).Some?
    ensures var a, b, c := MyReset(p).value, MyRestart(p).value, MyInvalidIoctl(p).value;
      a != b && b != c && a != c &&
      DecodeNr(a) == 0 && DecodeNr(b) == 1 && DecodeNr(c) == 128 &&
      DecodeDir(a) == DecodeDir(b) == DecodeDir(c) == IocWrite &&
      DecodeType(a) == DecodeType(b) == DecodeType(c) == 'r' as nat &&
      DecodeSize(a) == DecodeSize(b) == DecodeSize(c) == p.intSize
  {
    WrapperFields(MyMagic, 0, Int, p);
    WrapperFields(MyMagic, 1, Int, p);
    WrapperFields(MyMagic, 128, Int, p);
  }
}
