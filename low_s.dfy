/**
 * `normalize_s` and the recovery-id search of the contract's test suite:
 * putting an ECDSA secp256k1 signature into low-s form with hand-written
 * 256-bit big-endian arithmetic, and picking the recovery id (0 to 3) whose
 * recovered key is the chip's.
 *
 * Numbers are 32-byte big-endian words; `Value` reads one as a natural.
 */
module LowS {
  import opened Types
  import opened Wrappers
  import opened Errors
  import opened BigEndian
  import opened ChipAuth

  /** The order n of the secp256k1 group. */
  const N: nat := 0xFFFFFFFFFFFFFFFFFFFFFFFFFFFFFFFEBAAEDCE6AF48A03BBFD25E8CD0364141

  /** (n - 1) / 2: a signature is in low-s form when s is at most this. */
  const HALF_N: nat := 0x7FFFFFFFFFFFFFFFFFFFFFFFFFFFFFFF5D576E7357A4501DDFE92F46681B20A0

  /** The bytes of `curve_order`: n, big-endian. */
  predicate IsCurveOrder(w: seq<u8>)
  {
    && |w| == 32
    && w[0] == 0xFF
    && w[1] == 0xFF
    && w[2] == 0xFF
    && w[3] == 0xFF
    && w[4] == 0xFF
    && w[5] == 0xFF
    && w[6] == 0xFF
    && w[7] == 0xFF
    && w[8] == 0xFF
    && w[9] == 0xFF
    && w[10] == 0xFF
    && w[11] == 0xFF
    && w[12] == 0xFF
    && w[13] == 0xFF
    && w[14] == 0xFF
    && w[15] == 0xFE
    && w[16] == 0xBA
    && w[17] == 0xAE
    && w[18] == 0xDC
    && w[19] == 0xE6
    && w[20] == 0xAF
    && w[21] == 0x48
    && w[22] == 0xA0
    && w[23] == 0x3B
    && w[24] == 0xBF
    && w[25] == 0xD2
    && w[26] == 0x5E
    && w[27] == 0x8C
    && w[28] == 0xD0
    && w[29] == 0x36
    && w[30] == 0x41
    && w[31] == 0x41
  }

  /** The half order, byte by byte, as its hexadecimal value is written in the comment above `normalize_s`. */
  predicate IsHalfOrder(w: seq<u8>)
  {
    && |w| == 32
    && w[0] == 0x7F
    && w[1] == 0xFF
    && w[2] == 0xFF
    && w[3] == 0xFF
    && w[4] == 0xFF
    && w[5] == 0xFF
    && w[6] == 0xFF
    && w[7] == 0xFF
    && w[8] == 0xFF
    && w[9] == 0xFF
    && w[10] == 0xFF
    && w[11] == 0xFF
    && w[12] == 0xFF
    && w[13] == 0xFF
    && w[14] == 0xFF
    && w[15] == 0xFF
    && w[16] == 0x5D
    && w[17] == 0x57
    && w[18] == 0x6E
    && w[19] == 0x73
    && w[20] == 0x57
    && w[21] == 0xA4
    && w[22] == 0x50
    && w[23] == 0x1D
    && w[24] == 0xDF
    && w[25] == 0xE9
    && w[26] == 0x2F
    && w[27] == 0x46
    && w[28] == 0x68
    && w[29] == 0x1B
    && w[30] == 0x20
    && w[31] == 0xA0
  }

  /**
   * The bytes of the `half_order` array as the test writes it: bytes 16 to
   * 23 are 0xFF and the last eight bytes of the half order are missing, so
   * it is larger than (n - 1) / 2.
   */
  predicate IsHalfOrderAsWritten(w: seq<u8>)
  {
    && |w| == 32
    && w[0] == 0x7F
    && w[1] == 0xFF
    && w[2] == 0xFF
    && w[3] == 0xFF
    && w[4] == 0xFF
    && w[5] == 0xFF
    && w[6] == 0xFF
    && w[7] == 0xFF
    && w[8] == 0xFF
    && w[9] == 0xFF
    && w[10] == 0xFF
    && w[11] == 0xFF
    && w[12] == 0xFF
    && w[13] == 0xFF
    && w[14] == 0xFF
    && w[15] == 0xFF
    && w[16] == 0xFF
    && w[17] == 0xFF
    && w[18] == 0xFF
    && w[19] == 0xFF
    && w[20] == 0xFF
    && w[21] == 0xFF
    && w[22] == 0xFF
    && w[23] == 0xFF
    && w[24] == 0x5D
    && w[25] == 0x57
    && w[26] == 0x6E
    && w[27] == 0x73
    && w[28] == 0x57
    && w[29] == 0xA4
    && w[30] == 0x50
    && w[31] == 0x1D
  }

  /** The number the as-written `half_order` bytes denote. */
  const HALF_N_AS_WRITTEN: nat := 0x7FFFFFFFFFFFFFFFFFFFFFFFFFFFFFFFFFFFFFFFFFFFFFFF5D576E7357A4501D

  /** The powers of 256 that the value of a 32-byte word is built from. */
  lemma Pow256Table()
    ensures Pow256(0) == 0x1 && Pow256(1) == 0x100 && Pow256(2) == 0x10000 && Pow256(3) == 0x1000000 && Pow256(4) == 0x100000000 && Pow256(5) == 0x10000000000 && Pow256(6) == 0x1000000000000 && Pow256(7) == 0x100000000000000 && Pow256(8) == 0x10000000000000000 && Pow256(9) == 0x1000000000000000000 && Pow256(10) == 0x100000000000000000000 && Pow256(11) == 0x10000000000000000000000 && Pow256(12) == 0x1000000000000000000000000 && Pow256(13) == 0x100000000000000000000000000 && Pow256(14) == 0x10000000000000000000000000000 && Pow256(15) == 0x1000000000000000000000000000000 && Pow256(16) == 0x100000000000000000000000000000000 && Pow256(17) == 0x10000000000000000000000000000000000 && Pow256(18) == 0x1000000000000000000000000000000000000 && Pow256(19) == 0x100000000000000000000000000000000000000 && Pow256(20) == 0x10000000000000000000000000000000000000000 && Pow256(21) == 0x1000000000000000000000000000000000000000000 && Pow256(22) == 0x100000000000000000000000000000000000000000000 && Pow256(23) == 0x10000000000000000000000000000000000000000000000 && Pow256(24) == 0x1000000000000000000000000000000000000000000000000 && Pow256(25) == 0x100000000000000000000000000000000000000000000000000 && Pow256(26) == 0x10000000000000000000000000000000000000000000000000000 && Pow256(27) == 0x1000000000000000000000000000000000000000000000000000000 && Pow256(28) == 0x100000000000000000000000000000000000000000000000000000000 && Pow256(29) == 0x10000000000000000000000000000000000000000000000000000000000 && Pow256(30) == 0x1000000000000000000000000000000000000000000000000000000000000 && Pow256(31) == 0x100000000000000000000000000000000000000000000000000000000000000 && Pow256(32) == 0x10000000000000000000000000000000000000000000000000000000000000000
  {
  }

  lemma ValueUnfold(s: seq<u8>, i: nat)
    requires i < |s|
    ensures Value(s[i..]) == s[i] as int * Pow256(|s| - 1 - i) + Value(s[i + 1..])
  {
    assert s[i..][1..] == s[i + 1..];
  }

  /** The value of the low half of a 32-byte word as a sum of its bytes' weights. */
  lemma ValueLowHalf(s: seq<u8>)
    requires |s| == 32
    ensures Value(s[16..]) == s[16] as int * 0x1000000000000000000000000000000 + s[17] as int * 0x10000000000000000000000000000 + s[18] as int * 0x100000000000000000000000000 + s[19] as int * 0x1000000000000000000000000 + s[20] as int * 0x10000000000000000000000 + s[21] as int * 0x100000000000000000000 + s[22] as int * 0x1000000000000000000 + s[23] as int * 0x10000000000000000 + s[24] as int * 0x100000000000000 + s[25] as int * 0x1000000000000 + s[26] as int * 0x10000000000 + s[27] as int * 0x100000000 + s[28] as int * 0x1000000 + s[29] as int * 0x10000 + s[30] as int * 0x100 + s[31] as int * 0x1
  {
    Pow256Table();
    assert s[32..] == [];
    ValueUnfold(s, 31);
    ValueUnfold(s, 30);
    ValueUnfold(s, 29);
    ValueUnfold(s, 28);
    ValueUnfold(s, 27);
    ValueUnfold(s, 26);
    ValueUnfold(s, 25);
    ValueUnfold(s, 24);
    ValueUnfold(s, 23);
    ValueUnfold(s, 22);
    ValueUnfold(s, 21);
    ValueUnfold(s, 20);
    ValueUnfold(s, 19);
    ValueUnfold(s, 18);
    ValueUnfold(s, 17);
    ValueUnfold(s, 16);
  }

  /** The value of a 32-byte word as a sum of its bytes' weights. */
  lemma Value32(s: seq<u8>)
    requires |s| == 32
    ensures Value(s) == s[0] as int * 0x100000000000000000000000000000000000000000000000000000000000000 + s[1] as int * 0x1000000000000000000000000000000000000000000000000000000000000 + s[2] as int * 0x10000000000000000000000000000000000000000000000000000000000 + s[3] as int * 0x100000000000000000000000000000000000000000000000000000000 + s[4] as int * 0x1000000000000000000000000000000000000000000000000000000 + s[5] as int * 0x10000000000000000000000000000000000000000000000000000 + s[6] as int * 0x100000000000000000000000000000000000000000000000000 + s[7] as int * 0x1000000000000000000000000000000000000000000000000 + s[8] as int * 0x10000000000000000000000000000000000000000000000 + s[9] as int * 0x100000000000000000000000000000000000000000000 + s[10] as int * 0x1000000000000000000000000000000000000000000 + s[11] as int * 0x10000000000000000000000000000000000000000 + s[12] as int * 0x100000000000000000000000000000000000000 + s[13] as int * 0x1000000000000000000000000000000000000 + s[14] as int * 0x10000000000000000000000000000000000 + s[15] as int * 0x100000000000000000000000000000000 + s[16] as int * 0x1000000000000000000000000000000 + s[17] as int * 0x10000000000000000000000000000 + s[18] as int * 0x100000000000000000000000000 + s[19] as int * 0x1000000000000000000000000 + s[20] as int * 0x10000000000000000000000 + s[21] as int * 0x100000000000000000000 + s[22] as int * 0x1000000000000000000 + s[23] as int * 0x10000000000000000 + s[24] as int * 0x100000000000000 + s[25] as int * 0x1000000000000 + s[26] as int * 0x10000000000 + s[27] as int * 0x100000000 + s[28] as int * 0x1000000 + s[29] as int * 0x10000 + s[30] as int * 0x100 + s[31] as int * 0x1
  {
    ValueLowHalf(s);
    Pow256Table();
    assert s[0..] == s;
    ValueUnfold(s, 15);
    ValueUnfold(s, 14);
    ValueUnfold(s, 13);
    ValueUnfold(s, 12);
    ValueUnfold(s, 11);
    ValueUnfold(s, 10);
    ValueUnfold(s, 9);
    ValueUnfold(s, 8);
    ValueUnfold(s, 7);
    ValueUnfold(s, 6);
    ValueUnfold(s, 5);
    ValueUnfold(s, 4);
    ValueUnfold(s, 3);
    ValueUnfold(s, 2);
    ValueUnfold(s, 1);
    ValueUnfold(s, 0);
  }

  /** The `curve_order` bytes denote n. */
  lemma CurveOrderValue(w: seq<u8>)
    requires IsCurveOrder(w)
    ensures Value(w) == N
  {
    Value32(w);
  }

  /** The bytes of the half order n / 2 denote it. */
  lemma HalfOrderValue(w: seq<u8>)
    requires IsHalfOrder(w)
    ensures Value(w) == HALF_N
  {
    Value32(w);
  }

  /** The as-written `half_order` bytes denote HALF_N_AS_WRITTEN. */
  lemma HalfOrderAsWrittenValue(w: seq<u8>)
    requires IsHalfOrderAsWritten(w)
    ensures Value(w) == HALF_N_AS_WRITTEN
  {
    Value32(w);
  }

  /** The two byte constants agree: n = 2 * half + 1, so s and n - s are never both above the half. */
  lemma HalfOrderIsHalfCurveOrder(half: seq<u8>, order: seq<u8>)
    requires IsHalfOrder(half) && IsCurveOrder(order)
    ensures Value(order) == 2 * Value(half) + 1
  {
    CurveOrderValue(order);
    HalfOrderValue(half);
  }

  /**
   * The comparison loop of `normalize_s`: scans from the most significant
   * byte and decides at the first byte where `s` and `half` differ.
   */
  method ExceedsHalf(s: array<u8>, half: seq<u8>) returns (greater: bool)
    requires s.Length == 32 && |half| == 32
    ensures greater == LexGreater(s[..], half)
    ensures greater <==> Value(s[..]) > Value(half)
  {
    ghost var word := s[..];
    greater := false;
    var i := 0;
    while i < 32
      invariant 0 <= i <= 32
      invariant !greater
      invariant LexGreater(word, half) == LexGreater(word[i..], half[i..])
    {
      assert word[i..][1..] == word[i + 1..] && half[i..][1..] == half[i + 1..];
      if s[i] > half[i] {
        greater := true;
        break;
      } else if s[i] < half[i] {
        break;
      }
      i := i + 1;
    }
    LexGreaterIsNumericGreater(word, half);
  }

  /** One byte of the borrow subtraction, on the values of the suffixes it has covered. */
  lemma BorrowStep(c: int, s: int, borrow: int, r: int, borrowOut: int, p: nat,
                   restC: int, restS: int, restR: int)
    requires r - 256 * borrowOut == c - s - borrow
    requires restC - restS == restR - borrow * p
    ensures (c * p + restC) - (s * p + restS) == (r * p + restR) - borrowOut * (256 * p)
  {
  }

  /** The loop invariant of `SubtractFrom` carried over one more byte. */
  lemma SubtractStep(order: seq<u8>, word: seq<u8>, before: seq<u8>, after: seq<u8>, i: nat,
                     borrow: int, borrowOut: int)
    requires |order| == |word| == |before| == |after| && i < |order|
    requires after[i + 1..] == before[i + 1..]
    requires after[i] as int - 256 * borrowOut == order[i] as int - word[i] as int - borrow
    requires Value(order[i + 1..]) - Value(word[i + 1..]) == Value(before[i + 1..]) - borrow * Pow256(|order| - 1 - i)
    ensures Value(order[i..]) - Value(word[i..]) == Value(after[i..]) - borrowOut * Pow256(|order| - i)
  {
    ValueUnfold(order, i);
    ValueUnfold(word, i);
    ValueUnfold(after, i);
    BorrowStep(order[i] as int, word[i] as int, borrow, after[i] as int, borrowOut, Pow256(|order| - 1 - i),
               Value(order[i + 1..]), Value(word[i + 1..]), Value(after[i + 1..]));
  }

  /**
   * The subtraction branch of `normalize_s`: `order - s` from the least
   * significant byte up, carrying a borrow of 0 or 1. The final borrow is
   * dropped, so the result is `order - s` modulo 256^k for k-byte words
   * (k is 32 in `normalize_s`).
   */
  method SubtractFrom(order: seq<u8>, s: array<u8>) returns (difference: seq<u8>, borrow: int)
    requires |order| == s.Length
    ensures |difference| == s.Length
    ensures borrow == 0 || borrow == 1
    ensures Value(difference) == (Value(order) - Value(s[..])) % Pow256(|difference|)
    ensures Value(s[..]) <= Value(order) ==> borrow == 0 && Value(difference) == Value(order) - Value(s[..])
    ensures Value(order) < Value(s[..]) ==>
              borrow == 1 && Value(difference) == Value(order) - Value(s[..]) + Pow256(|difference|)
  {
    ghost var word := s[..];
    var result := new u8[s.Length];
    borrow := 0;
    var i := s.Length;
    assert result[..][i..] == [] && word[i..] == [] && order[i..] == [];
    while i > 0
      invariant 0 <= i <= s.Length
      invariant borrow == 0 || borrow == 1
      invariant Value(order[i..]) - Value(word[i..]) == Value(result[..][i..]) - borrow * Pow256(|order| - i)
    {
      i := i - 1;
      ghost var before := result[..];
      var curveByte := order[i] as int;
      var sByte := s[i] as int;
      var totalToSubtract := sByte + borrow;
      var borrowOut;
      if curveByte >= totalToSubtract {
        result[i] := curveByte - totalToSubtract;
        borrowOut := 0;
      } else {
        result[i] := (256 + curveByte) - totalToSubtract;
        borrowOut := 1;
      }
      SubtractStep(order, word, before, result[..], i, borrow, borrowOut);
      borrow := borrowOut;
    }
    difference := result[..];
    assert order[i..] == order && word[i..] == word && result[..][i..] == difference;
    DropBorrow(Value(order) - Value(word), Value(difference), borrow, Pow256(|order| - i));
  }

  /**
   * A difference `x` that equals `v - borrow * p`, with `v` in range, is `v`
   * modulo `p`; when `x` is not negative the borrow is 0.
   */
  lemma DropBorrow(x: int, v: int, borrow: int, p: nat)
    requires p > 0 && 0 <= v < p && (borrow == 0 || borrow == 1)
    requires x == v - borrow * p
    ensures v == x % p
    ensures x >= 0 ==> borrow == 0 && v == x
    ensures x < 0 ==> borrow == 1 && v == x + p
  {
    if borrow == 1 {
      assert x + p == v;
    }
  }

  /**
   * `normalize_s` with its two constants as parameters: `s` is returned as
   * it is unless it exceeds `half` in big-endian order, in which case the
   * result is `order - s`, plus 2^256 when s is above `order` (the final
   * borrow is dropped).
   */
  method NormalizeSWith(s: array<u8>, half: seq<u8>, order: seq<u8>) returns (normalized: seq<u8>)
    requires s.Length == 32 && |half| == 32 && |order| == 32
    ensures |normalized| == 32
    ensures Value(s[..]) <= Value(half) ==> normalized == s[..]
    ensures Value(half) < Value(s[..]) <= Value(order) ==> Value(normalized) == Value(order) - Value(s[..])
    ensures Value(half) < Value(s[..]) && Value(order) < Value(s[..]) ==>
              Value(normalized) == Value(order) - Value(s[..]) + Pow256(|normalized|)
  {
    var greater := ExceedsHalf(s, half);
    if greater {
      var finalBorrow;
      normalized, finalBorrow := SubtractFrom(order, s);
    } else {
      normalized := s[..];
    }
  }

  /**
   * `normalize_s` with the half order the test's comment states. Every s up
   * to n comes out in low-s form, and one above the half becomes n - s.
   */
  method NormalizeS(s: array<u8>) returns (normalized: seq<u8>)
    requires s.Length == 32
    ensures |normalized| == 32
    ensures Value(s[..]) <= HALF_N ==> normalized == s[..]
    ensures HALF_N < Value(s[..]) <= N ==> Value(normalized) == N - Value(s[..])
    ensures Value(s[..]) <= N ==> Value(normalized) <= HALF_N
    ensures N < Value(s[..]) ==> Value(normalized) == N - Value(s[..]) + Pow256(|normalized|)
  {
    var halfOrder := new u8[32] [
      0x7F, 0xFF, 0xFF, 0xFF, 0xFF, 0xFF, 0xFF, 0xFF, 0xFF, 0xFF, 0xFF, 0xFF, 0xFF, 0xFF, 0xFF, 0xFF,
      0x5D, 0x57, 0x6E, 0x73, 0x57, 0xA4, 0x50, 0x1D, 0xDF, 0xE9, 0x2F, 0x46, 0x68, 0x1B, 0x20, 0xA0];
    var curveOrder := new u8[32] [
      0xFF, 0xFF, 0xFF, 0xFF, 0xFF, 0xFF, 0xFF, 0xFF, 0xFF, 0xFF, 0xFF, 0xFF, 0xFF, 0xFF, 0xFF, 0xFE,
      0xBA, 0xAE, 0xDC, 0xE6, 0xAF, 0x48, 0xA0, 0x3B, 0xBF, 0xD2, 0x5E, 0x8C, 0xD0, 0x36, 0x41, 0x41];
    HalfOrderValue(halfOrder[..]);
    CurveOrderValue(curveOrder[..]);
    normalized := NormalizeSWith(s, halfOrder[..], curveOrder[..]);
  }

  /**
   * `normalize_s` with the `half_order` array as the test writes it: every
   * s up to that array's value is returned unchanged.
   */
  method NormalizeSAsWritten(s: array<u8>) returns (normalized: seq<u8>)
    requires s.Length == 32
    ensures |normalized| == 32
    ensures Value(s[..]) <= HALF_N_AS_WRITTEN ==> normalized == s[..]
    ensures HALF_N_AS_WRITTEN < Value(s[..]) <= N ==> Value(normalized) == N - Value(s[..])
    ensures N < Value(s[..]) ==> Value(normalized) == N - Value(s[..]) + Pow256(|normalized|)
  {
    var halfOrder := new u8[32] [
      0x7F, 0xFF, 0xFF, 0xFF, 0xFF, 0xFF, 0xFF, 0xFF, 0xFF, 0xFF, 0xFF, 0xFF, 0xFF, 0xFF, 0xFF, 0xFF,
      0xFF, 0xFF, 0xFF, 0xFF, 0xFF, 0xFF, 0xFF, 0xFF, 0x5D, 0x57, 0x6E, 0x73, 0x57, 0xA4, 0x50, 0x1D];
    var curveOrder := new u8[32] [
      0xFF, 0xFF, 0xFF, 0xFF, 0xFF, 0xFF, 0xFF, 0xFF, 0xFF, 0xFF, 0xFF, 0xFF, 0xFF, 0xFF, 0xFF, 0xFE,
      0xBA, 0xAE, 0xDC, 0xE6, 0xAF, 0x48, 0xA0, 0x3B, 0xBF, 0xD2, 0x5E, 0x8C, 0xD0, 0x36, 0x41, 0x41];
    HalfOrderAsWrittenValue(halfOrder[..]);
    CurveOrderValue(curveOrder[..]);
    normalized := NormalizeSWith(s, halfOrder[..], curveOrder[..]);
  }

  /** (n + 1) / 2, the smallest s that is not in low-s form. */
  const JUST_ABOVE_HALF: seq<u8> := [
    0x7F, 0xFF, 0xFF, 0xFF, 0xFF, 0xFF, 0xFF, 0xFF, 0xFF, 0xFF, 0xFF, 0xFF, 0xFF, 0xFF, 0xFF, 0xFF,
    0x5D, 0x57, 0x6E, 0x73, 0x57, 0xA4, 0x50, 0x1D, 0xDF, 0xE9, 0x2F, 0x46, 0x68, 0x1B, 0x20, 0xA1]

  /**
   * The smallest high s is a valid scalar that the as-written comparison
   * does not exceed, so `NormalizeSAsWritten` hands it back unchanged and
   * not in low-s form; `NormalizeS` turns it into n - s.
   */
  lemma HighSKeptAsWritten()
    ensures |JUST_ABOVE_HALF| == 32
    ensures HALF_N < Value(JUST_ABOVE_HALF) <= N
    ensures Value(JUST_ABOVE_HALF) <= HALF_N_AS_WRITTEN
  {
    assert JUST_ABOVE_HALF[0] == 0x7F;
    assert JUST_ABOVE_HALF[1] == 0xFF;
    assert JUST_ABOVE_HALF[2] == 0xFF;
    assert JUST_ABOVE_HALF[3] == 0xFF;
    assert JUST_ABOVE_HALF[4] == 0xFF;
    assert JUST_ABOVE_HALF[5] == 0xFF;
    assert JUST_ABOVE_HALF[6] == 0xFF;
    assert JUST_ABOVE_HALF[7] == 0xFF;
    assert JUST_ABOVE_HALF[8] == 0xFF;
    assert JUST_ABOVE_HALF[9] == 0xFF;
    assert JUST_ABOVE_HALF[10] == 0xFF;
    assert JUST_ABOVE_HALF[11] == 0xFF;
    assert JUST_ABOVE_HALF[12] == 0xFF;
    assert JUST_ABOVE_HALF[13] == 0xFF;
    assert JUST_ABOVE_HALF[14] == 0xFF;
    assert JUST_ABOVE_HALF[15] == 0xFF;
    assert JUST_ABOVE_HALF[16] == 0x5D;
    assert JUST_ABOVE_HALF[17] == 0x57;
    assert JUST_ABOVE_HALF[18] == 0x6E;
    assert JUST_ABOVE_HALF[19] == 0x73;
    assert JUST_ABOVE_HALF[20] == 0x57;
    assert JUST_ABOVE_HALF[21] == 0xA4;
    assert JUST_ABOVE_HALF[22] == 0x50;
    assert JUST_ABOVE_HALF[23] == 0x1D;
    assert JUST_ABOVE_HALF[24] == 0xDF;
    assert JUST_ABOVE_HALF[25] == 0xE9;
    assert JUST_ABOVE_HALF[26] == 0x2F;
    assert JUST_ABOVE_HALF[27] == 0x46;
    assert JUST_ABOVE_HALF[28] == 0x68;
    assert JUST_ABOVE_HALF[29] == 0x1B;
    assert JUST_ABOVE_HALF[30] == 0x20;
    assert JUST_ABOVE_HALF[31] == 0xA1;
    Value32(JUST_ABOVE_HALF);
  }

  /** `secp256k1_recover` answered for this id and gave a key other than the expected one. */
  predicate Mismatch(host: Host, messageHash: Hash, signature: Signature, expected: PublicKey, recoveryId: u32)
  {
    var recovered := host.secp256k1Recover(messageHash, signature, recoveryId);
    recovered.Some? && recovered.value != expected
  }

  /**
   * The recovery-id search: tries 0, 1, 2 and 3 in order and stops at the
   * first whose recovered key is `expected`. A recovery the host cannot
   * perform traps, which aborts the search.
   */
  method FindRecoveryId(host: Host, messageHash: Hash, signature: Signature, expected: PublicKey)
    returns (r: Result<Option<u32>, Abort>)
    ensures r.Success? && r.value.Some? ==>
      && r.value.value <= 3
      && host.secp256k1Recover(messageHash, signature, r.value.value) == Some(expected)
      && forall j: u32 :: j < r.value.value ==> Mismatch(host, messageHash, signature, expected, j)
    ensures r.Success? && r.value.None? ==>
      forall j: u32 :: j <= 3 ==> Mismatch(host, messageHash, signature, expected, j)
    ensures r.Failure? ==>
      && r.error == RecoveryFailed
      && exists j: u32 :: j <= 3 && host.secp256k1Recover(messageHash, signature, j).None?
                          && forall k: u32 :: k < j ==> Mismatch(host, messageHash, signature, expected, k)
  {
    var recoveryId: u32 := 0;
    while recoveryId <= 3
      invariant recoveryId <= 4
      invariant forall j: u32 :: j < recoveryId ==> Mismatch(host, messageHash, signature, expected, j)
    {
      var recovered := host.secp256k1Recover(messageHash, signature, recoveryId);
      if recovered.None? {
        return Failure(RecoveryFailed);
      }
      if recovered.value == expected {
        return Success(Some(recoveryId));
      }
      recoveryId := recoveryId + 1;
    }
    return Success(None);
  }
}
