/**
 * The arbitrary-precision integer arithmetic that the assembler and the
 * virtual machine rely on: Python's `<<`, `>>`, `|` and `&` on non-negative
 * integers, `int.from_bytes` / `int.to_bytes` in little-endian order, and the
 * virtual machine's `read_bits`.
 *
 * Shifts and masks are defined by repeated doubling and halving, so every
 * proof below is linear arithmetic: `Shl(x, k)` is `x * 2^k`, `Shr(x, k)` is
 * `x / 2^k` and `LowBits(x, n)` is `x % 2^n`.
 */
module Bits {

  /** One byte of an instruction stream. */
  type Byte = b: int | 0 <= b < 256

  function Pow2(n: nat): (r: nat)
    ensures r >= 1
  {
    if n == 0 then 1 else 2 * Pow2(n - 1)
  }

  /** Python's `x << k` for a non-negative `x`. */
  function Shl(x: nat, k: nat): (r: nat)
    ensures x <= r
    ensures x == 0 ==> r == 0
  {
    if k == 0 then x else 2 * Shl(x, k - 1)
  }

  /** Python's `x >> k` for a non-negative `x`. */
  function Shr(x: nat, k: nat): nat
  {
    if k == 0 then x else Shr(x / 2, k - 1)
  }

  /** The `n` least significant bits of `x`, that is `x % 2^n`. */
  function LowBits(x: nat, n: nat): (r: nat)
    ensures r < Pow2(n)
  {
    if n == 0 then 0 else 2 * LowBits(x / 2, n - 1) + x % 2
  }

  /** Python's bitwise `a | b` on non-negative integers, bit by bit from the least significant. */
  function BitOr(a: nat, b: nat): nat
    decreases a + b
  {
    if a == 0 then b
    else if b == 0 then a
    else 2 * BitOr(a / 2, b / 2) + (if a % 2 == 1 || b % 2 == 1 then 1 else 0)
  }

  /** Python's bitwise `a & b` on non-negative integers. */
  function BitAnd(a: nat, b: nat): nat
    decreases a + b
  {
    if a == 0 || b == 0 then 0
    else 2 * BitAnd(a / 2, b / 2) + (if a % 2 == 1 && b % 2 == 1 then 1 else 0)
  }

  /** Python's `int.from_bytes(bs, byteorder='little')`. */
  function FromBytes(bs: seq<Byte>): nat
  {
    if bs == [] then 0 else bs[0] + 256 * FromBytes(bs[1..])
  }

  /**
   * Python's `v.to_bytes(n, byteorder='little')`. Python raises
   * `OverflowError` when `v` needs more than `n` bytes; every caller in the
   * assembler first proves that it does not.
   */
  function ToBytes(v: nat, n: nat): (r: seq<Byte>)
    requires v < Pow2(8 * n)
    ensures |r| == n
    ensures FromBytes(r) == v
  {
    if n == 0 then []
    else
      Pow2Byte(8 * (n - 1));
      [v % 256] + ToBytes(v / 256, n - 1)
  }

  /**
   * Python's `s[i:j]` for non-negative `i` and `j`: bounds past the end are
   * clamped to the length, and an empty range gives the empty sequence.
   */
  function Slice<T>(s: seq<T>, i: nat, j: nat): (r: seq<T>)
    ensures |r| <= |s|
  {
    var lo := if i < |s| then i else |s|;
    var hi := if j < |s| then j else |s|;
    if hi <= lo then [] else s[lo..hi]
  }

  /** The bytes from position `pc` to the end (none when `pc` is past the end). */
  function Suffix(code: seq<Byte>, pc: nat): seq<Byte>
  {
    if pc <= |code| then code[pc..] else []
  }

  /**
   * The virtual machine's `read_bits`: the `length`-bit field that starts at
   * bit `startBit` of the instruction at byte `pc`. It slices only the bytes
   * the field spans, so bytes missing past the end of `code` read as zero.
   * `ReadBitsField` states the field in terms of the whole little-endian
   * number formed by the bytes from `pc` on.
   */
  function ReadBits(code: seq<Byte>, pc: nat, startBit: nat, length: nat): nat
  {
    var startByte := startBit / 8;
    // Floor division, as Python's `//` (Dafny's `/` agrees for a positive divisor).
    var endByte := (startBit + length - 1) / 8 + 1;
    var bytesToRead := Slice(code, pc + startByte, pc + endByte);
    var value := FromBytes(bytesToRead);
    var bitOffset := startBit % 8;
    ShlOne(length);
    var mask := Shl(1, length) - 1;
    BitAnd(Shr(value, bitOffset), mask)
  }

  /**
   * `read_bits` returns bits `startBit .. startBit + length - 1` of the
   * little-endian number the code bytes from `pc` on form, whichever bytes
   * it had to slice to get them.
   */
  lemma ReadBitsField(code: seq<Byte>, pc: nat, startBit: nat, length: nat)
    ensures ReadBits(code, pc, startBit, length) == LowBits(Shr(FromBytes(Suffix(code, pc)), startBit), length)
    ensures ReadBits(code, pc, startBit, length) < Pow2(length)
  {
    var value := FromBytes(Slice(code, pc + startBit / 8, pc + (startBit + length - 1) / 8 + 1));
    var shifted := Shr(value, startBit % 8);
    ShlOne(length);
    assert ReadBits(code, pc, startBit, length) == BitAnd(shifted, Pow2(length) - 1);
    BitAndMask(shifted, length);
    ReadBitsCorrect(code, pc, startBit, length);
  }

  /** The bytes from the end of `pre` on are the rest of the code. */
  lemma SuffixAfter(pre: seq<Byte>, rest: seq<Byte>)
    ensures Suffix(pre + rest, |pre|) == rest
  {
    assert (pre + rest)[|pre|..] == rest;
  }

  /**
   * A field that lies within the bytes `bs` placed at `pc` reads the same
   * whatever bytes come before or after them.
   */
  lemma ReadBitsWithin(pre: seq<Byte>, bs: seq<Byte>, post: seq<Byte>, startBit: nat, length: nat)
    requires startBit + length <= 8 * |bs|
    ensures ReadBits(pre + bs + post, |pre|, startBit, length) == LowBits(Shr(FromBytes(bs), startBit), length)
  {
    var code := pre + bs + post;
    assert code == pre + (bs + post);
    ReadBitsField(code, |pre|, startBit, length);
    SuffixAfter(pre, bs + post);
    FromBytesAppend(bs, post);
    HighIgnored(FromBytes(bs), FromBytes(post), 8 * |bs|, startBit, length);
  }

  // ---------------------------------------------------------------------------
  // Powers of two and shifts
  // ---------------------------------------------------------------------------

  lemma Pow2Byte(k: nat)
    ensures Pow2(k + 8) == 256 * Pow2(k)
  {
    calc {
      Pow2(k + 8);
      2 * Pow2(k + 7);
      4 * Pow2(k + 6);
      8 * Pow2(k + 5);
      16 * Pow2(k + 4);
      32 * Pow2(k + 3);
      64 * Pow2(k + 2);
      128 * Pow2(k + 1);
      256 * Pow2(k);
    }
  }

  lemma {:induction false} Pow2Monotone(a: nat, b: nat)
    requires a <= b
    ensures Pow2(a) <= Pow2(b)
  {
    if a < b {
      Pow2Monotone(a, b - 1);
    }
  }

  /** `1 << n` is `2^n`, so the mask `(1 << n) - 1` is never negative. */
  lemma {:induction false} ShlOne(n: nat)
    ensures Shl(1, n) == Pow2(n)
  {
    if n > 0 {
      ShlOne(n - 1);
    }
  }

  lemma {:induction false} ShlAdd(a: nat, b: nat, k: nat)
    ensures Shl(a + b, k) == Shl(a, k) + Shl(b, k)
  {
    if k > 0 {
      ShlAdd(a, b, k - 1);
    }
  }

  lemma {:induction false} ShlShl(x: nat, a: nat, b: nat)
    ensures Shl(Shl(x, a), b) == Shl(x, a + b)
  {
    if b > 0 {
      ShlShl(x, a, b - 1);
    }
  }

  /** Shifting by one more byte multiplies by 256. */
  lemma ShlByte(x: nat, k: nat)
    ensures Shl(x, k + 8) == 256 * Shl(x, k)
  {
    var y := Shl(x, k);
    ShlShl(x, k, 8);
    calc {
      Shl(y, 8);
      2 * Shl(y, 7);
      4 * Shl(y, 6);
      8 * Shl(y, 5);
      16 * Shl(y, 4);
      32 * Shl(y, 3);
      64 * Shl(y, 2);
      128 * Shl(y, 1);
      256 * y;
    }
  }

  /** `(x + (y << k)) >> k == (x >> k) + y`. */
  lemma {:induction false} ShrShl(x: nat, y: nat, k: nat)
    ensures Shr(x + Shl(y, k), k) == Shr(x, k) + y
  {
    if k > 0 {
      assert (x + Shl(y, k)) / 2 == x / 2 + Shl(y, k - 1);
      ShrShl(x / 2, y, k - 1);
    }
  }

  lemma {:induction false} ShrShr(x: nat, a: nat, b: nat)
    ensures Shr(Shr(x, a), b) == Shr(x, a + b)
  {
    if a > 0 {
      ShrShr(x / 2, a - 1, b);
    }
  }

  /** A number below `2^k` has no bit at or above position `k`. */
  lemma {:induction false} ShrSmall(x: nat, k: nat)
    requires x < Pow2(k)
    ensures Shr(x, k) == 0
  {
    if k > 0 {
      ShrSmall(x / 2, k - 1);
    }
  }

  lemma {:induction false} LowBitsSmall(x: nat, n: nat)
    requires x < Pow2(n)
    ensures LowBits(x, n) == x
  {
    if n > 0 {
      LowBitsSmall(x / 2, n - 1);
    }
  }

  /** Adding a multiple of `2^n` does not change the low `n` bits. */
  lemma {:induction false} LowBitsShl(x: nat, y: nat, n: nat)
    ensures LowBits(x + Shl(y, n), n) == LowBits(x, n)
  {
    if n > 0 {
      assert (x + Shl(y, n)) / 2 == x / 2 + Shl(y, n - 1);
      LowBitsShl(x / 2, y, n - 1);
    }
  }

  lemma {:induction false} LowBitsLow(x: nat, m: nat, n: nat)
    requires n <= m
    ensures LowBits(LowBits(x, m), n) == LowBits(x, n)
  {
    if n > 0 {
      assert LowBits(x, m) / 2 == LowBits(x / 2, m - 1);
      LowBitsLow(x / 2, m - 1, n - 1);
    }
  }

  /** The bits `[b, b + l)` of `x` depend only on the low `m` bits of `x` when `b + l <= m`. */
  lemma {:induction false} LowBitsShr(x: nat, m: nat, b: nat, l: nat)
    requires b + l <= m
    ensures LowBits(Shr(LowBits(x, m), b), l) == LowBits(Shr(x, b), l)
  {
    if b == 0 {
      LowBitsLow(x, m, l);
    } else {
      assert LowBits(x, m) / 2 == LowBits(x / 2, m - 1);
      LowBitsShr(x / 2, m - 1, b - 1, l);
    }
  }

  /** A `w`-bit field `f` placed at bit `off` is recovered whatever lies below and above it. */
  lemma FieldExtract(v: nat, lo: nat, f: nat, hi: nat, off: nat, w: nat)
    requires lo < Pow2(off) && f < Pow2(w)
    requires v == lo + Shl(f, off) + Shl(hi, off + w)
    ensures LowBits(Shr(v, off), w) == f
  {
    ShlShl(hi, w, off);
    ShlAdd(f, Shl(hi, w), off);
    ShrShl(lo, f + Shl(hi, w), off);
    ShrSmall(lo, off);
    LowBitsShl(f, hi, w);
    LowBitsSmall(f, w);
  }

  /** Adding anything at or above bit `m` leaves the bits `[b, b + l)` alone when `b + l <= m`. */
  lemma HighIgnored(x: nat, y: nat, m: nat, b: nat, l: nat)
    requires b + l <= m
    ensures LowBits(Shr(x + Shl(y, m), b), l) == LowBits(Shr(x, b), l)
  {
    var z := Shl(y, m - b - l);
    ShlShl(z, l, b);
    ShlShl(y, m - b - l, l + b);
    ShrShl(x, Shl(z, l), b);
    LowBitsShl(Shr(x, b), z, l);
  }

  /** Fields below bit `off + w` leave every higher bit clear. */
  lemma {:induction false} FieldBound(lo: nat, f: nat, off: nat, w: nat)
    requires lo < Pow2(off) && f < Pow2(w)
    ensures lo + Shl(f, off) < Pow2(off + w)
  {
    if off > 0 {
      FieldBound(lo / 2, f, off - 1, w);
    }
  }

  /** `a | (b << k)` is `a + (b << k)` when `a` has no bit at or above `k`. */
  lemma {:induction false} BitOrDisjoint(a: nat, b: nat, k: nat)
    requires a < Pow2(k)
    ensures BitOr(a, Shl(b, k)) == a + Shl(b, k)
  {
    if k > 0 && a != 0 && b != 0 {
      var s := Shl(b, k);
      assert s / 2 == Shl(b, k - 1) && s % 2 == 0 && s != 0;
      BitOrDisjoint(a / 2, b, k - 1);
      assert BitOr(a, s) == 2 * BitOr(a / 2, s / 2) + a % 2;
    }
  }

  /** `x & ((1 << n) - 1)` keeps exactly the low `n` bits of `x`. */
  lemma {:induction false} BitAndMask(x: nat, n: nat)
    ensures BitAnd(x, Pow2(n) - 1) == LowBits(x, n)
  {
    if n > 0 {
      var mask := Pow2(n) - 1;
      assert mask / 2 == Pow2(n - 1) - 1 && mask % 2 == 1;
      BitAndMask(x / 2, n - 1);
      assert BitAnd(x, mask) == 2 * BitAnd(x / 2, mask / 2) + x % 2;
    }
  }

  // ---------------------------------------------------------------------------
  // Little-endian byte strings
  // ---------------------------------------------------------------------------

  lemma {:induction false} FromBytesBound(bs: seq<Byte>)
    ensures FromBytes(bs) < Pow2(8 * |bs|)
  {
    if bs != [] {
      FromBytesBound(bs[1..]);
      Pow2Byte(8 * (|bs| - 1));
    }
  }

  /** The number formed by `a + b` has `a`'s bytes low and `b`'s bytes above them. */
  lemma {:induction false} FromBytesAppend(a: seq<Byte>, b: seq<Byte>)
    ensures FromBytes(a + b) == FromBytes(a) + Shl(FromBytes(b), 8 * |a|)
  {
    if a == [] {
      assert a + b == b;
    } else {
      assert (a + b)[0] == a[0] && (a + b)[1..] == a[1..] + b;
      FromBytesAppend(a[1..], b);
      ShlByte(FromBytes(b), 8 * (|a| - 1));
    }
  }

  /** Zero bytes read as zero: missing bytes past the end behave like zero padding. */
  lemma {:induction false} FromBytesZeros(bs: seq<Byte>)
    requires forall k :: 0 <= k < |bs| ==> bs[k] == 0
    ensures FromBytes(bs) == 0
  {
    if bs != [] {
      FromBytesZeros(bs[1..]);
    }
  }

  lemma ShrOfSum(x: nat, a: nat, b: nat, k: nat)
    requires x == a + Shl(b, k) && Shr(a, k) == 0
    ensures Shr(x, k) == b
  {
    ShrShl(a, b, k);
  }

  /** Dropping the first `n` bytes shifts the number right by `8 * n` bits. */
  lemma DropLowBytes(t: seq<Byte>, n: nat)
    requires n <= |t|
    ensures Shr(FromBytes(t), 8 * n) == FromBytes(t[n..])
  {
    var lo, hi := t[..n], t[n..];
    assert FromBytes(t) == FromBytes(lo) + Shl(FromBytes(hi), 8 * n) by {
      assert t == lo + hi;
      FromBytesAppend(lo, hi);
    }
    assert Shr(FromBytes(lo), 8 * n) == 0 by {
      FromBytesBound(lo);
      ShrSmall(FromBytes(lo), 8 * n);
    }
    ShrOfSum(FromBytes(t), FromBytes(lo), FromBytes(hi), 8 * n);
  }

  /** Keeping the first `n` bytes keeps the low `8 * n` bits of the number. */
  lemma TakeLowBytes(t: seq<Byte>, n: nat)
    requires n <= |t|
    ensures LowBits(FromBytes(t), 8 * n) == FromBytes(t[..n])
  {
    var lo, hi := t[..n], t[n..];
    assert t == lo + hi;
    FromBytesAppend(lo, hi);
    FromBytesBound(lo);
    LowBitsShl(FromBytes(lo), FromBytes(hi), 8 * n);
    LowBitsSmall(FromBytes(lo), 8 * n);
  }

  /** A number of `|t|` bytes has no bits at or above bit `8 * |t|`. */
  lemma PastEndIsZero(t: seq<Byte>, startBit: nat)
    requires 8 * |t| <= startBit
    ensures Shr(FromBytes(t), startBit) == 0
  {
    FromBytesBound(t);
    Pow2Monotone(8 * |t|, startBit);
    ShrSmall(FromBytes(t), startBit);
  }

  /** Python's slice of `code` taken relative to `pc` is the same slice of the bytes from `pc` on. */
  lemma SliceOfSuffix(code: seq<Byte>, pc: nat, i: nat, j: nat)
    requires i < |Suffix(code, pc)|
    ensures
      var t := Suffix(code, pc);
      Slice(code, pc + i, pc + j) == t[i..if j <= |t| then (if j < i then i else j) else |t|]
  {
  }

  /** The field read from the bytes `t[startByte..endByte]` (clamped to `t`) is the field of all of `t`. */
  lemma ReadWithinBytes(t: seq<Byte>, startByte: nat, endByte: nat, bitOffset: nat, length: nat)
    requires startByte < |t| && 8 * startByte + bitOffset + length <= 8 * endByte
    ensures
      var hi := if endByte <= |t| then endByte else |t|;
      LowBits(Shr(FromBytes(t[startByte..hi]), bitOffset), length)
        == LowBits(Shr(FromBytes(t), 8 * startByte + bitOffset), length)
  {
    var hi := if endByte <= |t| then endByte else |t|;
    var rest := t[startByte..];
    DropLowBytes(t, startByte);
    ShrShr(FromBytes(t), 8 * startByte, bitOffset);
    if hi == endByte {
      assert t[startByte..hi] == rest[..hi - startByte];
      TakeLowBytes(rest, hi - startByte);
      LowBitsShr(FromBytes(rest), 8 * (hi - startByte), bitOffset, length);
    } else {
      assert t[startByte..hi] == rest;
    }
  }

  lemma ReadBitsCorrect(code: seq<Byte>, pc: nat, startBit: nat, length: nat)
    ensures
      var startByte := startBit / 8;
      var endByte := (startBit + length - 1) / 8 + 1;
      var value := FromBytes(Slice(code, pc + startByte, pc + endByte));
      LowBits(Shr(value, startBit % 8), length)
        == LowBits(Shr(FromBytes(Suffix(code, pc)), startBit), length)
  {
    var startByte := startBit / 8;
    var endByte := (startBit + length - 1) / 8 + 1;
    var bitOffset := startBit % 8;
    var t := Suffix(code, pc);
    assert startBit == 8 * startByte + bitOffset;
    if startByte >= |t| {
      assert Slice(code, pc + startByte, pc + endByte) == [];
      PastEndIsZero(t, startBit);
      assert Shr(0, bitOffset) == 0 by {
        ShrSmall(0, bitOffset);
      }
    } else {
      assert 8 * startByte + bitOffset + length <= 8 * endByte;
      SliceOfSuffix(code, pc, startByte, endByte);
      ReadWithinBytes(t, startByte, endByte, bitOffset, length);
    }
  }
}
