/**
 * Big-endian byte strings: their numeric value, the fixed-width encoding of a
 * number (Rust's `to_be_bytes`) and byte-wise lexicographic comparison.
 */
module BigEndian {
  import opened Types

  /** 256^n. */
  function Pow256(n: nat): (p: nat)
    ensures p >= 1
  {
    if n == 0 then 1 else 256 * Pow256(n - 1)
  }

  /** The number a byte string denotes, most significant byte first. */
  function Value(s: seq<u8>): (v: nat)
    ensures v < Pow256(|s|)
  {
    if s == [] then 0
    else
      var rest := Value(s[1..]);
      var p := Pow256(|s| - 1);
      MulMonotone(s[0], 255, p);
      s[0] * p + rest
  }

  /** The `n` big-endian bytes of `x`; Value undoes it. */
  function ToBytes(x: nat, n: nat): (s: seq<u8>)
    requires x < Pow256(n)
    ensures |s| == n && Value(s) == x
  {
    if n == 0 then []
    else
      var p := Pow256(n - 1);
      DivModSplit(x, p);
      DivBelow(x, p, 256);
      var d: u8 := x / p;
      var tail := ToBytes(x % p, n - 1);
      ValueCons(d, tail);
      [d] + tail
  }

  lemma ValueCons(d: u8, t: seq<u8>)
    ensures Value([d] + t) == d * Pow256(|t|) + Value(t)
  {
    assert ([d] + t)[1..] == t;
  }

  /** ToBytes undoes Value: a fixed-width string is determined by its value. */
  lemma {:induction false} ToBytesOfValue(s: seq<u8>)
    ensures ToBytes(Value(s), |s|) == s
  {
    if s != [] {
      var p := Pow256(|s| - 1);
      DivModUnique(s[0] * p + Value(s[1..]), p, s[0], Value(s[1..]));
      ToBytesOfValue(s[1..]);
    }
  }

  /** Two strings of one length with the same value are equal. */
  lemma ValueInjective(a: seq<u8>, b: seq<u8>)
    requires |a| == |b| && Value(a) == Value(b)
    ensures a == b
  {
    ToBytesOfValue(a);
    ToBytesOfValue(b);
  }

  /**
   * `a` is greater than `b` when compared byte by byte from the most
   * significant end: the first byte where they differ decides.
   */
  predicate LexGreater(a: seq<u8>, b: seq<u8>)
    requires |a| == |b|
  {
    |a| > 0 && (a[0] > b[0] || (a[0] == b[0] && LexGreater(a[1..], b[1..])))
  }

  /** For strings of one length, the byte-wise order is the numeric order. */
  lemma {:induction false} LexGreaterIsNumericGreater(a: seq<u8>, b: seq<u8>)
    requires |a| == |b|
    ensures LexGreater(a, b) <==> Value(a) > Value(b)
  {
    if |a| > 0 {
      var p := Pow256(|a| - 1);
      var ra, rb := Value(a[1..]), Value(b[1..]);
      assert Value(a) == a[0] * p + ra && Value(b) == b[0] * p + rb;
      LexGreaterIsNumericGreater(a[1..], b[1..]);
      if a[0] > b[0] {
        LeadingDigitDecides(a[0], b[0], ra, rb, p);
      } else if a[0] < b[0] {
        LeadingDigitDecides(b[0], a[0], rb, ra, p);
      }
    }
  }

  // Arithmetic facts the solver does not find on its own.

  lemma MulMonotone(a: int, b: int, p: nat)
    ensures a <= b ==> a * p <= b * p
  {
    assert b * p - a * p == (b - a) * p;
  }

  lemma LeadingDigitDecides(x: nat, y: nat, rx: nat, ry: nat, p: nat)
    requires x > y && rx < p && ry < p
    ensures x * p + rx > y * p + ry
  {
    MulMonotone(y + 1, x, p);
    assert (y + 1) * p == y * p + p;
  }

  lemma DivBelow(x: nat, p: nat, k: nat)
    requires p > 0 && x < k * p
    ensures x / p < k
  {
    MulMonotone(k, x / p, p);
  }

  lemma DivModSplit(x: nat, p: nat)
    requires p > 0
    ensures x == (x / p) * p + x % p
  {
  }

  lemma DivModUnique(x: nat, p: nat, q: nat, r: nat)
    requires p > 0 && r < p && x == q * p + r
    ensures x / p == q && x % p == r
  {
    var q', r' := x / p, x % p;
    assert (q' - q) * p == r - r';
    MulMonotone(1, q' - q, p);
    MulMonotone(1, q - q', p);
  }
}
