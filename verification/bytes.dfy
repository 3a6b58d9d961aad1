/**
 * Byte images and the 32-bit little-endian words the Propeller 2 boot loader
 * checksums them with.
 */
module Bytes {

  /** An element of a Java `byte[]`, read unsigned (as the source does with `& 0xFF`). */
  type Byte = b: int | 0 <= b < 256

  /** 2^32: Java `int` arithmetic wraps modulo this. */
  const U32: int := 0x1_0000_0000

  /** The value Java gives a `byte` when it is widened without masking. */
  function Signed(b: Byte): (r: int)
    ensures -128 <= r < 128
    ensures r % 256 == b
    ensures (r < 0) == (b >= 128)
  {
    if b < 128 then b else b - 256
  }

  /** Java's `(byte) x`: the low eight bits of `x`, read back signed. */
  function ToSignedByte(x: int): (r: int)
    ensures -128 <= r < 128
    ensures (r - x) % 256 == 0
  {
    Signed(x % 256)
  }

  /** Byte `i` of `s`, or 0 past its end. */
  function ByteOr0(s: seq<Byte>, i: nat): Byte
  {
    if i < |s| then s[i] else 0
  }

  /**
   * The little-endian word at offset `n`; when fewer than four bytes remain the
   * missing high bytes read as zero.
   */
  function WordAt(s: seq<Byte>, n: nat): (w: int)
    ensures 0 <= w < U32
  {
    ByteOr0(s, n) + 0x100 * ByteOr0(s, n + 1) + 0x1_0000 * ByteOr0(s, n + 2) + 0x100_0000 * ByteOr0(s, n + 3)
  }

  /** The four bytes of `w` (taken modulo 2^32), least significant first. */
  function LittleEndian(w: int): (r: seq<Byte>)
    ensures |r| == 4
  {
    var u := w % U32;
    [u % 0x100, (u / 0x100) % 0x100, (u / 0x1_0000) % 0x100, u / 0x100_0000]
  }

  /** The smallest multiple of four that is at least `n`. */
  function RoundUp4(n: nat): nat
  {
    (n + 3) / 4 * 4
  }

  /** Word offsets below the length stay within the rounded-up length. */
  lemma RoundUp4Bounds(n: nat, len: nat)
    requires n % 4 == 0
    ensures n < len ==> n + 4 <= RoundUp4(len)
    ensures len <= n <= RoundUp4(len) ==> n == RoundUp4(len)
  {
  }

  /** `n` zero bytes. */
  function Zeros(n: nat): (r: seq<Byte>)
    ensures |r| == n && forall i :: 0 <= i < n ==> r[i] == 0
  {
    seq(n, _ => 0)
  }

  /**
   * The sum modulo 2^32 of the words at offsets 0, 4, ..., n - 4, each read with
   * `WordAt`; `n` is a multiple of four.
   */
  function WordSumBelow(s: seq<Byte>, n: nat): (sum: int)
    requires n % 4 == 0
    ensures 0 <= sum < U32
    decreases n
  {
    if n == 0 then 0 else (WordSumBelow(s, n - 4) + WordAt(s, n - 4)) % U32
  }

  lemma ModOfBounded(x: int)
    requires 0 <= x < U32
    ensures x % U32 == x
  {
  }

  /** One more word folded into the running sum. */
  lemma WordSumBelowStep(s: seq<Byte>, n: nat)
    requires n % 4 == 0
    ensures WordSumBelow(s, n + 4) == (WordSumBelow(s, n) + WordAt(s, n)) % U32
  {
  }

  /** The last word folded into the running sum below `n`. */
  lemma WordSumBelowLast(s: seq<Byte>, n: nat)
    requires n % 4 == 0 && n >= 4
    ensures WordSumBelow(s, n) == (WordSumBelow(s, n - 4) + WordAt(s, n - 4)) % U32
  {
  }

  /** The sum modulo 2^32 of all little-endian words of `s`, a partial last word zero-extended. */
  function WordSum(s: seq<Byte>): (sum: int)
    ensures 0 <= sum < U32
  {
    WordSumBelow(s, RoundUp4(|s|))
  }

  /** Regrouping a concatenation of three sequences. */
  lemma AppendAssoc<T>(a: seq<T>, b: seq<T>, c: seq<T>)
    ensures (a + b) + c == a + (b + c)
  {
  }

  /** Regrouping a concatenation of four sequences around the middle two. */
  lemma AppendAssoc4<T>(a: seq<T>, b: seq<T>, c: seq<T>, d: seq<T>)
    ensures ((a + b) + c) + d == a + ((b + c) + d)
  {
    AppendAssoc(a, b, c);
    AppendAssoc(a, b + c, d);
  }

  /** Three parts appended after `p`, one at a time. */
  lemma AppendAfter<T>(p: seq<T>, a: seq<T>, b: seq<T>, c: seq<T>)
    ensures p + ((a + b) + c) == ((p + a) + b) + c
  {
    AppendAssoc(p, a + b, c);
    AppendAssoc(p, a, b);
  }

  /** The sum of the bytes of `s`, unbounded. */
  function ByteSum(s: seq<Byte>): int
  {
    if s == [] then 0 else ByteSum(s[..|s| - 1]) + s[|s| - 1]
  }

  /** Reading back the word that `LittleEndian` wrote gives the word modulo 2^32. */
  lemma WordOfLittleEndian(s: seq<Byte>, n: nat, w: int)
    requires n + 4 <= |s| && s[n..n + 4] == LittleEndian(w)
    ensures WordAt(s, n) == w % U32
  {
    var u := w % U32;
    var q1 := u / 0x100;
    var q2 := q1 / 0x100;
    assert u == q1 * 0x100 + u % 0x100;
    assert q1 == q2 * 0x100 + q1 % 0x100;
    assert q2 == (q2 / 0x100) * 0x100 + q2 % 0x100;
    assert q2 == u / 0x1_0000;
    assert q2 / 0x100 == u / 0x100_0000;
    assert s[n] == u % 0x100 && s[n + 1] == q1 % 0x100;
    assert s[n + 2] == q2 % 0x100 && s[n + 3] == q2 / 0x100;
  }

  /** Word sums below `n` only depend on the first `n` bytes, with missing bytes read as zero. */
  lemma {:induction false} WordSumBelowAgree(s: seq<Byte>, t: seq<Byte>, n: nat)
    requires n % 4 == 0
    requires forall i :: 0 <= i < n ==> ByteOr0(s, i) == ByteOr0(t, i)
    ensures WordSumBelow(s, n) == WordSumBelow(t, n)
  {
    if n > 0 {
      WordSumBelowAgree(s, t, n - 4);
      assert WordAt(s, n - 4) == WordAt(t, n - 4) by {
        assert ByteOr0(s, n - 4) == ByteOr0(t, n - 4);
        assert ByteOr0(s, n - 3) == ByteOr0(t, n - 3);
        assert ByteOr0(s, n - 2) == ByteOr0(t, n - 2);
        assert ByteOr0(s, n - 1) == ByteOr0(t, n - 1);
      }
    }
  }

  /** Splitting a number below 256 * 2^k at its low byte. */
  lemma SplitLowByte(lo: int, hi: int)
    requires 0 <= lo < 0x100
    ensures (lo + 0x100 * hi) % 0x100 == lo && (lo + 0x100 * hi) / 0x100 == hi
  {
  }

  /** The bytes `WordAt` reads are the bytes `LittleEndian` writes back. */
  lemma LittleEndianOfWordAt(s: seq<Byte>, n: nat)
    ensures LittleEndian(WordAt(s, n)) == [ByteOr0(s, n), ByteOr0(s, n + 1), ByteOr0(s, n + 2), ByteOr0(s, n + 3)]
  {
    var a: int, b: int, c: int, d: int := ByteOr0(s, n), ByteOr0(s, n + 1), ByteOr0(s, n + 2), ByteOr0(s, n + 3);
    var u := WordAt(s, n);
    assert u % U32 == u;
    var q1: int := b + 0x100 * (c + 0x100 * d);
    var q2: int := c + 0x100 * d;
    assert u == a + 0x100 * q1;
    SplitLowByte(a, q1);
    SplitLowByte(b, q2);
    SplitLowByte(c, d);
    assert u / 0x1_0000 == q1 / 0x100;
    assert u / 0x100_0000 == q2 / 0x100;
  }

  /** Adding to a value reduced modulo 2^32 is adding to the value. */
  lemma ModAdd(x: int, y: int)
    ensures (x % U32 + y) % U32 == (x + y) % U32
  {
  }

  /** The word sum below `n` before any reduction modulo 2^32. */
  function WordTotal(s: seq<Byte>, n: nat): int
    requires n % 4 == 0
    decreases n
  {
    if n == 0 then 0 else WordTotal(s, n - 4) + WordAt(s, n - 4)
  }

  /** Reducing at every step, as the loops do, is reducing once at the end. */
  lemma {:induction false} WordSumBelowTotal(s: seq<Byte>, n: nat)
    requires n % 4 == 0
    ensures WordSumBelow(s, n) == WordTotal(s, n) % U32
    decreases n
  {
    if n > 0 {
      WordSumBelowTotal(s, n - 4);
      WordSumBelowLast(s, n);
      ModAdd(WordTotal(s, n - 4), WordAt(s, n - 4));
    }
  }

  /**
   * Overwriting the aligned word at `k` changes the unreduced sum below `n`
   * by the difference of the two words when `k` is below `n`, and not at all
   * otherwise.
   */
  lemma {:induction false} WordTotalReplace(s: seq<Byte>, t: seq<Byte>, n: nat, k: nat)
    requires n % 4 == 0 && k % 4 == 0
    requires forall i :: 0 <= i < n && !(k <= i < k + 4) ==> ByteOr0(s, i) == ByteOr0(t, i)
    ensures WordTotal(t, n) == WordTotal(s, n) - (if k < n then WordAt(s, k) - WordAt(t, k) else 0)
    decreases n
  {
    if n > 0 {
      var m := n - 4;
      WordTotalReplace(s, t, m, k);
      if k != m {
        AlignedApart(k, m);
        assert WordAt(s, m) == WordAt(t, m) by {
          assert ByteOr0(s, m) == ByteOr0(t, m);
          assert ByteOr0(s, m + 1) == ByteOr0(t, m + 1);
          assert ByteOr0(s, m + 2) == ByteOr0(t, m + 2);
          assert ByteOr0(s, m + 3) == ByteOr0(t, m + 3);
        }
      }
    }
  }

  /** Two distinct aligned offsets are a whole word apart. */
  lemma AlignedApart(k: int, m: int)
    requires k % 4 == 0 && m % 4 == 0 && k != m
    ensures k + 4 <= m || m + 4 <= k
  {
  }

  /**
   * Overwriting one aligned word below `n` changes the word sum below `n` by
   * the difference of the two words, modulo 2^32.
   */
  lemma WordSumBelowReplace(s: seq<Byte>, t: seq<Byte>, n: nat, k: nat)
    requires n % 4 == 0 && k % 4 == 0 && k + 4 <= n
    requires forall i :: 0 <= i < n && !(k <= i < k + 4) ==> ByteOr0(s, i) == ByteOr0(t, i)
    ensures WordSumBelow(t, n) == (WordSumBelow(s, n) - WordAt(s, k) + WordAt(t, k)) % U32
  {
    WordSumBelowTotal(s, n);
    WordSumBelowTotal(t, n);
    WordTotalReplace(s, t, n, k);
    ModAdd(WordTotal(s, n), WordAt(t, k) - WordAt(s, k));
  }

  lemma WordAtAgree(s: seq<Byte>, t: seq<Byte>, n: nat)
    requires forall i :: n <= i < n + 4 ==> ByteOr0(s, i) == ByteOr0(t, i)
    ensures WordAt(s, n) == WordAt(t, n)
  {
    assert ByteOr0(s, n) == ByteOr0(t, n);
    assert ByteOr0(s, n + 1) == ByteOr0(t, n + 1);
    assert ByteOr0(s, n + 2) == ByteOr0(t, n + 2);
    assert ByteOr0(s, n + 3) == ByteOr0(t, n + 3);
  }
}
