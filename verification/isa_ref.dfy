/** Reference semantics of three RV64I/RV64M instructions the ISA tests
    exercise — `slli`, `slliw` and `divw` — on 64-bit registers, and the
    tests' vectors as facts about them. */
module IsaRef {
  import opened Common

  const TWO31: int := 0x8000_0000

  /** The low word of a register. */
  function Low(x: bv64): bv32 {
    (x & 0xffff_ffff) as bv32
  }

  /** A word sign-extended to a register: the low word is kept and the
      upper word copies bit 31. */
  function Sext32(w: bv32): (r: bv64)
    ensures Low(r) == w
    ensures r >> 32 == (if w & 0x8000_0000 == 0 then 0 else 0xffff_ffff)
  {
    if w & 0x8000_0000 == 0 then w as bv64 else (w as bv64) | 0xffff_ffff_0000_0000
  }

  // ---------------------------------------------------------------------
  // slli, slliw

  /** `slli rd, rs1, shamt` on RV64: a logical left shift by 0..63, which
      keeps all 64 bits and discards what moves past bit 63. */
  function Slli(x: bv64, shamt: bv64): bv64
    requires shamt < 64
  {
    x << shamt
  }

  /** Shifting by zero is the identity. */
  lemma SlliZero(x: bv64)
    ensures Slli(x, 0) == x
  {
  }

  /** The `shamt` low bits of the result are zero. */
  lemma SlliLowBits(x: bv64, shamt: bv64)
    requires shamt < 64
    ensures Slli(x, shamt) & ((1 << shamt) - 1) == 0
  {
  }

  /** `slliw rd, rs1, shamt`: the low word shifted by 0..31 and the 32-bit
      result sign-extended. */
  function Slliw(x: bv64, shamt: bv32): bv64
    requires shamt < 32
  {
    Sext32(Low(x) << shamt)
  }

  /** `slliw` is `slli` cut to a word and sign-extended: it agrees with
      `slli` on the low word, and its upper word copies bit 31 of that
      word. */
  lemma SlliwIsWordSlli(x: bv64, shamt: bv32)
    requires shamt < 32
    ensures Low(Slliw(x, shamt)) == Low(Slli(x, shamt as bv64))
    ensures Slliw(x, shamt) >> 32 == (if Slli(x, shamt as bv64) & 0x8000_0000 == 0 then 0 else 0xffff_ffff)
  {
  }

  /** The source's upper word has no influence on `slliw`. */
  lemma SlliwIgnoresUpperWord(x: bv64, y: bv64, shamt: bv32)
    requires shamt < 32 && Low(x) == Low(y)
    ensures Slliw(x, shamt) == Slliw(y, shamt)
  {
  }

  /** The arithmetic tests of `slli.c`. */
  lemma SlliVectors()
    ensures Slli(0x1, 0) == 0x1 && Slli(0x1, 1) == 0x2 && Slli(0x1, 7) == 0x80
    ensures Slli(0x1, 14) == 0x4000 && Slli(0x1, 31) == 0x8000_0000
    ensures Slli(0xffff_ffff_ffff_ffff, 0) == 0xffff_ffff_ffff_ffff
    ensures Slli(0xffff_ffff_ffff_ffff, 1) == 0xffff_ffff_ffff_fffe
    ensures Slli(0xffff_ffff_ffff_ffff, 7) == 0xffff_ffff_ffff_ff80
    ensures Slli(0xffff_ffff_ffff_ffff, 14) == 0xffff_ffff_ffff_c000
    ensures Slli(0xffff_ffff_ffff_ffff, 31) == 0xffff_ffff_8000_0000
    ensures Slli(0x2121_2121, 0) == 0x2121_2121 && Slli(0x2121_2121, 1) == 0x4242_4242
    ensures Slli(0x2121_2121, 7) == 0x10_9090_9080 && Slli(0x2121_2121, 14) == 0x848_4848_4000
    ensures Slli(0x2121_2121, 31) == 0x1090_9090_8000_0000
    ensures Slli(0x1, 63) == 0x8000_0000_0000_0000
    ensures Slli(0xffff_ffff_ffff_ffff, 39) == 0xffff_ff80_0000_0000
    ensures Slli(0x2121_2121, 43) == 0x0909_0800_0000_0000
  {
  }

  /** The arithmetic tests of `slliw.c`, and the ones showing that the
      upper word of the source is ignored. */
  lemma SlliwVectors()
    ensures Slliw(0x1, 0) == 0x1 && Slliw(0x1, 1) == 0x2 && Slliw(0x1, 7) == 0x80
    ensures Slliw(0x1, 14) == 0x4000 && Slliw(0x1, 31) == 0xffff_ffff_8000_0000
    ensures Slliw(0xffff_ffff_ffff_ffff, 0) == 0xffff_ffff_ffff_ffff
    ensures Slliw(0xffff_ffff_ffff_ffff, 1) == 0xffff_ffff_ffff_fffe
    ensures Slliw(0xffff_ffff_ffff_ffff, 7) == 0xffff_ffff_ffff_ff80
    ensures Slliw(0xffff_ffff_ffff_ffff, 14) == 0xffff_ffff_ffff_c000
    ensures Slliw(0xffff_ffff_ffff_ffff, 31) == 0xffff_ffff_8000_0000
    ensures Slliw(0x2121_2121, 0) == 0x2121_2121 && Slliw(0x2121_2121, 1) == 0x4242_4242
    ensures Slliw(0x2121_2121, 7) == 0xffff_ffff_9090_9080 && Slliw(0x2121_2121, 14) == 0x4848_4000
    ensures Slliw(0x2121_2121, 31) == 0xffff_ffff_8000_0000
    ensures Slliw(0xffff_ffff_1234_5678, 0) == 0x1234_5678
    ensures Slliw(0xffff_ffff_1234_5678, 4) == 0x2345_6780
    ensures Slliw(0x9234_5678, 0) == 0xffff_ffff_9234_5678
    ensures Slliw(0x9934_5678, 4) == 0xffff_ffff_9345_6780
  {
  }

  // ---------------------------------------------------------------------
  // divw, on registers read as integers

  /** A register's contents as an unsigned integer. */
  type Reg64 = x: int | 0 <= x < TWO64

  /** The register holding `v` in two's complement. */
  function Reg(v: int): (x: Reg64)
    requires -(TWO64 / 2) <= v < TWO64 / 2
    ensures Signed64(x) == v
  {
    if v < 0 then v + TWO64 else v
  }

  /** The register read as a signed 64-bit integer. */
  function Signed64(x: Reg64): (v: int)
    ensures -(TWO64 / 2) <= v < TWO64 / 2
  {
    if x < TWO64 / 2 then x else x - TWO64
  }

  /** The low word of a register, read as a signed 32-bit integer. */
  function Signed32(x: Reg64): (v: int)
    ensures -TWO31 <= v < TWO31
    ensures (v - x) % TWO32 == 0
  {
    var w := x % TWO32;
    if w < TWO31 then w else w - TWO32
  }

  function Abs(a: int): nat { if a < 0 then -a else a }

  /** Division rounding toward zero, as C and RISC-V divide. */
  function TruncDiv(a: int, b: int): int
    requires b != 0
  {
    if (a < 0) == (b < 0) then Abs(a) / Abs(b) else -(Abs(a) / Abs(b))
  }

  lemma MulAtLeast(q: nat, n: nat)
    requires n >= 1
    ensures q * n >= q
  {
  }

  /** Euclidean division of naturals leaves a remainder below the divisor
      and a quotient no larger than the dividend. */
  lemma DivNat(n: nat, d: nat)
    requires d > 0
    ensures 0 <= n - (n / d) * d < d
    ensures n / d <= n
  {
    MulAtLeast(n / d, d);
  }

  /** The product of a signed quotient and divisor, by the signs. */
  lemma SignedProduct(q: int, b: int, q0: int, d: int, neg: bool)
    requires d == Abs(b) && q0 >= 0
    requires q == (if neg == (b < 0) then q0 else -q0)
    ensures q * b == (if neg then -(q0 * d) else q0 * d)
  {
    if b < 0 {
      assert q * b == -q * d;
    }
  }

  /** The quotient rounds toward zero: the remainder is smaller than the
      divisor in magnitude and is zero or has the dividend's sign; and the
      quotient is no larger in magnitude than the dividend. */
  lemma {:induction false} TruncDivSpec(a: int, b: int)
    requires b != 0
    ensures var q := TruncDiv(a, b); var r := a - q * b;
      && Abs(r) < Abs(b)
      && (r == 0 || (r < 0 <==> a < 0))
      && Abs(q) <= Abs(a)
  {
    var n: int, d: int := Abs(a), Abs(b);
    var q0: int := n / d;
    DivNat(n, d);
    var p := q0 * d;
    var q := TruncDiv(a, b);
    assert Abs(q) == q0;
    SignedProduct(q, b, q0, d, a < 0);
    assert q * b == (if a < 0 then -p else p);
    assert 0 <= n - p < d;
  }

  /** `divw rd, rs1, rs2`: the low words divided as signed 32-bit integers,
      rounding toward zero, the 32-bit quotient sign-extended; division by
      zero gives all ones, and the one overflowing quotient, -2^31 / -1,
      gives -2^31. */
  function Divw(x: Reg64, y: Reg64): Reg64 {
    var a, b := Signed32(x), Signed32(y);
    if b == 0 then Reg(-1)
    else if a == -TWO31 && b == -1 then Reg(-TWO31)
    else
      TruncDivSpec(a, b);
      Reg(TruncDiv(a, b))
  }

  /** The result is a sign-extended word: division by zero gives -1; the
      overflow case gives the dividend; otherwise the quotient rounds
      toward zero. */
  lemma DivwSpec(x: Reg64, y: Reg64)
    ensures var a, b, q := Signed32(x), Signed32(y), Signed64(Divw(x, y));
      && -TWO31 <= q < TWO31
      && (b == 0 ==> q == -1)
      && (a == -TWO31 && b == -1 ==> q == a)
      && (b != 0 && !(a == -TWO31 && b == -1) ==>
            Abs(a - q * b) < Abs(b) && (a - q * b == 0 || (a - q * b < 0 <==> a < 0)))
  {
    var a, b := Signed32(x), Signed32(y);
    if b != 0 && !(a == -TWO31 && b == -1) {
      TruncDivSpec(a, b);
      var t := TruncDiv(a, b);
      assert -TWO31 <= t < TWO31 by {
        if a == -TWO31 {
          assert b != -1;
          if b > 0 {
            assert t == -(Abs(a) / Abs(b));
          } else {
            assert Abs(b) >= 2;
            assert Abs(a) / Abs(b) <= Abs(a) / 2;
          }
        }
      }
    }
  }

  /** The sign tests of `divw.c`: the quotient rounds toward zero for
      every combination of signs. */
  lemma DivwSignVectors()
    ensures Divw(Reg(20), Reg(6)) == Reg(3)
    ensures Divw(Reg(-20), Reg(6)) == Reg(-3)
    ensures Divw(Reg(20), Reg(-6)) == Reg(-3)
    ensures Divw(Reg(-20), Reg(-6)) == Reg(3)
  {
  }

  /** The tests of `divw.c` at the most negative word, including the
      overflowing -2^31 / -1. */
  lemma DivwOverflowVectors()
    ensures Divw(Reg(-TWO31), Reg(1)) == Reg(-TWO31)
    ensures Divw(Reg(-TWO31), Reg(-1)) == Reg(-TWO31)
  {
    assert Signed32(Reg(-TWO31)) == -TWO31 && Signed32(Reg(1)) == 1 && Signed32(Reg(-1)) == -1;
    assert TruncDiv(-TWO31, 1) == -TWO31;
  }

  /** The division-by-zero tests of `divw.c`. */
  lemma DivwByZeroVectors()
    ensures Divw(Reg(-TWO31), Reg(0)) == Reg(-1)
    ensures Divw(Reg(1), Reg(0)) == Reg(-1)
    ensures Divw(Reg(0), Reg(0)) == Reg(-1)
  {
  }
}
