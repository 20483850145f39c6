/** A `usize` of a 64-bit target, held as its 64 bits, least significant bit first.
    The bitwise operators the palette applies to its packed words (`&`, `|`, `!`,
    `<<`, `>>`) are defined bit by bit, and `ToNat`/`FromNat` convert between a word
    and the unsigned number it denotes. */
module Words {

  const WORD_BITS: nat := 64

  type Word = w: seq<bool> | |w| == WORD_BITS witness seq(WORD_BITS, i => false)

  function Pow2(k: nat): (r: nat)
    ensures r >= 1
  {
    if k == 0 then 1 else 2 * Pow2(k - 1)
  }

  /** 2^64: one more than the largest `usize`. */
  const USIZE_MODULUS: nat := 0x1_0000_0000_0000_0000

  lemma Pow2Word()
    ensures Pow2(WORD_BITS) == USIZE_MODULUS
  {
    Pow2Square(4, 16);
    Pow2Square(8, 0x100);
    Pow2Square(16, 0x1_0000);
    Pow2Square(32, 0x1_0000_0000);
  }

  lemma Pow2Square(k: nat, v: nat)
    requires Pow2(k) == v
    ensures Pow2(k + k) == v * v
  {
    Pow2Add(k, k);
  }

  lemma {:induction false} Pow2Add(a: nat, b: nat)
    ensures Pow2(a + b) == Pow2(a) * Pow2(b)
  {
    if a > 0 {
      Pow2Add(a - 1, b);
    }
  }

  lemma {:induction false} Pow2Monotone(a: nat, b: nat)
    requires a <= b
    ensures Pow2(a) <= Pow2(b)
  {
    if a < b {
      Pow2Monotone(a, b - 1);
    }
  }

  /** The unsigned number a bit sequence denotes (least significant bit first). */
  function ToNat(s: seq<bool>): nat
  {
    if s == [] then 0 else (if s[0] then 1 else 0) + 2 * ToNat(s[1..])
  }

  /** The low `k` bits of `n`. */
  function BitsOf(n: nat, k: nat): (r: seq<bool>)
    ensures |r| == k
  {
    if k == 0 then [] else [n % 2 == 1] + BitsOf(n / 2, k - 1)
  }

  /** `n as usize`: the word holding the low 64 bits of `n`. */
  function FromNat(n: nat): Word
  {
    BitsOf(n, WORD_BITS)
  }

  const ZERO: Word := seq(WORD_BITS, i => false)

  /** The word whose low `k` bits are set and whose other bits are clear: 2^k - 1. */
  function LowBits(k: nat): Word
  {
    seq(WORD_BITS, i => i < k)
  }

  function And(a: Word, b: Word): Word
  {
    seq(WORD_BITS, i requires 0 <= i < WORD_BITS => a[i] && b[i])
  }

  function Or(a: Word, b: Word): Word
  {
    seq(WORD_BITS, i requires 0 <= i < WORD_BITS => a[i] || b[i])
  }

  function Not(a: Word): Word
  {
    seq(WORD_BITS, i requires 0 <= i < WORD_BITS => !a[i])
  }

  /** `a << k` on a `usize` (bits shifted out at the top are lost). */
  function Shl(a: Word, k: nat): Word
    requires k < WORD_BITS
  {
    seq(WORD_BITS, i requires 0 <= i < WORD_BITS => i >= k && a[i - k])
  }

  /** `a >> k` on a `usize` (a logical shift: zeros come in at the top). */
  function Shr(a: Word, k: nat): Word
    requires k < WORD_BITS
  {
    seq(WORD_BITS, i requires 0 <= i < WORD_BITS => i + k < WORD_BITS && a[i + k])
  }

  /** `(w & (mask << off)) >> off`: the field of `w` that `mask` selects at offset `off`. */
  function Slot(w: Word, mask: Word, off: nat): nat
    requires off < WORD_BITS
  {
    ToNat(Shr(And(w, Shl(mask, off)), off))
  }

  /** `(w & !(mask << off)) | (c << off)`: `w` with the field at `off` rewritten to `c`. */
  function Put(w: Word, mask: Word, off: nat, c: nat): Word
    requires off < WORD_BITS
  {
    Or(And(w, Not(Shl(mask, off))), Shl(FromNat(c), off))
  }

  // ---------------------------------------------------------------------------
  // Numbers and their bits

  lemma {:induction false} ToNatBound(s: seq<bool>)
    ensures ToNat(s) < Pow2(|s|)
  {
    if s != [] {
      ToNatBound(s[1..]);
    }
  }

  /** The bits of a number below 2^k, read back, give the number. */
  lemma {:induction false} ToNatBitsOf(n: nat, k: nat)
    requires n < Pow2(k)
    ensures ToNat(BitsOf(n, k)) == n
  {
    if k > 0 {
      ToNatBitsOf(n / 2, k - 1);
      assert BitsOf(n, k)[1..] == BitsOf(n / 2, k - 1);
    }
  }

  /** A number below 2^j has no bit set at position j or above. */
  lemma {:induction false} BitsOfHigh(n: nat, k: nat, j: nat, i: nat)
    requires n < Pow2(j) && j <= i < k
    ensures !BitsOf(n, k)[i]
  {
    if j == 0 {
      assert n == 0;
      BitsOfZero(k, i);
    } else {
      BitsOfHigh(n / 2, k - 1, j - 1, i - 1);
    }
  }

  lemma {:induction false} BitsOfZero(k: nat, i: nat)
    requires i < k
    ensures !BitsOf(0, k)[i]
  {
    if i > 0 {
      BitsOfZero(k - 1, i - 1);
    }
  }

  /** A bit sequence denotes 0 exactly when no bit is set. */
  lemma {:induction false} ToNatZero(s: seq<bool>)
    ensures ToNat(s) == 0 <==> forall i :: 0 <= i < |s| ==> !s[i]
  {
    if s != [] {
      ToNatZero(s[1..]);
      assert forall i :: 1 <= i < |s| ==> s[i] == s[1..][i - 1];
    }
  }

  /** The word of a number below 2^64 converts back to that number. */
  lemma FromNatToNat(n: nat)
    requires n < USIZE_MODULUS
    ensures ToNat(FromNat(n)) == n
  {
    Pow2Word();
    ToNatBitsOf(n, WORD_BITS);
  }

  lemma {:induction false} ToNatLowPrefix(k: nat, b: nat)
    requires b <= k
    ensures ToNat(seq(k, i => i < b)) == Pow2(b) - 1
  {
    if k > 0 {
      var s := seq(k, i => i < b);
      if b == 0 {
        ToNatZero(s);
      } else {
        assert s[1..] == seq(k - 1, i => i < b - 1);
        ToNatLowPrefix(k - 1, b - 1);
      }
    }
  }

  /** `LowBits(b)` is the number 2^b - 1. */
  lemma LowBitsValue(b: nat)
    requires b <= WORD_BITS
    ensures ToNat(LowBits(b)) == Pow2(b) - 1
  {
    ToNatLowPrefix(WORD_BITS, b);
  }

  // ---------------------------------------------------------------------------
  // Fields of width b inside a word

  /** Reading a field back after `Put` yields the value written, when it fits in b bits. */
  lemma SlotPut(w: Word, b: nat, off: nat, c: nat)
    requires 0 < b && off + b <= WORD_BITS && c < Pow2(b)
    ensures Slot(Put(w, LowBits(b), off, c), LowBits(b), off) == c
  {
    var put := Put(w, LowBits(b), off, c);
    var field := Shr(And(put, Shl(LowBits(b), off)), off);
    forall i | 0 <= i < WORD_BITS
      ensures field[i] == FromNat(c)[i]
    {
      if i >= b {
        BitsOfHigh(c, WORD_BITS, b, i);
      }
    }
    assert field == FromNat(c);
    Pow2Monotone(b, WORD_BITS);
    Pow2Word();
    FromNatToNat(c);
  }

  /** `Put` at one field leaves every field that does not overlap it unchanged. */
  lemma SlotPutOther(w: Word, b: nat, off: nat, off2: nat, c: nat)
    requires 0 < b && off + b <= WORD_BITS && off2 + b <= WORD_BITS && c < Pow2(b)
    requires off + b <= off2 || off2 + b <= off
    ensures Slot(Put(w, LowBits(b), off, c), LowBits(b), off2) == Slot(w, LowBits(b), off2)
  {
    var put := Put(w, LowBits(b), off, c);
    var before := Shr(And(w, Shl(LowBits(b), off2)), off2);
    var after := Shr(And(put, Shl(LowBits(b), off2)), off2);
    forall i | 0 <= i < WORD_BITS
      ensures after[i] == before[i]
    {
      if i < b {
        PutBitOutside(w, b, off, c, off2 + i);
      }
    }
    assert after == before;
  }

  /** `Put` leaves every bit outside its field as it was. */
  lemma PutBitOutside(w: Word, b: nat, off: nat, c: nat, k: nat)
    requires 0 < b && off + b <= WORD_BITS && k < WORD_BITS && c < Pow2(b)
    requires k < off || off + b <= k
    ensures Put(w, LowBits(b), off, c)[k] == w[k]
  {
    if off <= k {
      BitsOfHigh(c, WORD_BITS, b, k - off);
    }
  }

  /** Fields below `off` are unchanged when c is OR-ed in at `off`. */
  lemma SlotOrBelow(w: Word, b: nat, off: nat, off2: nat, c: nat)
    requires 0 < b && off < WORD_BITS && off2 + b <= off
    ensures Slot(Or(w, Shl(FromNat(c), off)), LowBits(b), off2) == Slot(w, LowBits(b), off2)
  {
    var before := Shr(And(w, Shl(LowBits(b), off2)), off2);
    var after := Shr(And(Or(w, Shl(FromNat(c), off)), Shl(LowBits(b), off2)), off2);
    assert after == before;
  }

  /** OR-ing c in at `off` into a word with no bit set from `off` upwards gives a word
      whose field at `off` is c and which has no bit set from `off + b` upwards. */
  lemma SlotOrAt(w: Word, b: nat, off: nat, c: nat)
    requires 0 < b && off + b <= WORD_BITS && c < Pow2(b)
    requires forall i :: off <= i < WORD_BITS ==> !w[i]
    ensures Slot(Or(w, Shl(FromNat(c), off)), LowBits(b), off) == c
    ensures forall i :: off + b <= i < WORD_BITS ==> !Or(w, Shl(FromNat(c), off))[i]
  {
    var r := Or(w, Shl(FromNat(c), off));
    var field := Shr(And(r, Shl(LowBits(b), off)), off);
    forall i | 0 <= i < WORD_BITS
      ensures field[i] == FromNat(c)[i]
    {
      if i >= b {
        BitsOfHigh(c, WORD_BITS, b, i);
      }
    }
    assert field == FromNat(c);
    forall i | off + b <= i < WORD_BITS
      ensures !r[i]
    {
      BitsOfHigh(c, WORD_BITS, b, i - off);
    }
    Pow2Monotone(b, WORD_BITS);
    Pow2Word();
    FromNatToNat(c);
  }

  /** Every field of the all-zero word is 0. */
  lemma SlotZero(mask: Word, off: nat)
    requires off < WORD_BITS
    ensures Slot(ZERO, mask, off) == 0
  {
    ToNatZero(Shr(And(ZERO, Shl(mask, off)), off));
  }

  /** A field of width b denotes a number below 2^b. */
  lemma SlotBound(w: Word, b: nat, off: nat)
    requires b <= WORD_BITS && off < WORD_BITS
    ensures Slot(w, LowBits(b), off) < Pow2(b)
  {
    var field := Shr(And(w, Shl(LowBits(b), off)), off);
    var low := field[..b];
    assert field == low + seq(WORD_BITS - b, i => false);
    ToNatAppendZeros(low, WORD_BITS - b);
    ToNatBound(low);
  }

  lemma {:induction false} ToNatAppendZeros(s: seq<bool>, k: nat)
    ensures ToNat(s + seq(k, i => false)) == ToNat(s)
  {
    if s == [] {
      ToNatZero(seq(k, i => false));
      assert s + seq(k, i => false) == seq(k, i => false);
    } else {
      assert (s + seq(k, i => false))[1..] == s[1..] + seq(k, i => false);
      ToNatAppendZeros(s[1..], k);
    }
  }

  /** A word denotes 0 exactly when it is the zero word. */
  lemma ZeroWord(w: Word)
    ensures ToNat(w) == 0 <==> w == ZERO
  {
    ToNatZero(w);
  }

  /** `1 << k` is the word with only bit k set, so OR-ing it into the k lowest bits gives
      the k + 1 lowest bits. */
  lemma OrShlOne(k: nat)
    requires k < WORD_BITS
    ensures Or(LowBits(k), Shl(FromNat(1), k)) == LowBits(k + 1)
  {
    BitsOfOne(WORD_BITS);
  }

  /** 1 has only its lowest bit set. */
  lemma BitsOfOne(k: nat)
    requires k > 0
    ensures BitsOf(1, k)[0] && forall i :: 0 < i < k ==> !BitsOf(1, k)[i]
  {
    assert BitsOf(1, k) == [true] + BitsOf(0, k - 1);
    forall i | 0 < i < k
      ensures !BitsOf(1, k)[i]
    {
      BitsOfZero(k - 1, i - 1);
    }
  }

  /** OR-ing in a shifted 0 changes nothing. */
  lemma OrShlZero(w: Word, off: nat)
    requires off < WORD_BITS
    ensures Or(w, Shl(FromNat(0), off)) == w
  {
    forall i | 0 <= i < WORD_BITS
      ensures !FromNat(0)[i]
    {
      BitsOfZero(WORD_BITS, i);
    }
  }
}
