/** Machine words as the image tools store them: byte sequences, little- and
    big-endian fields of w bytes, and the addition of a constant to one field. */
module Words {

  type byte = x: int | 0 <= x < 256

  /** 256 to the power w: the modulus of a field of w bytes. */
  function Modulus(w: nat): (m: nat)
    ensures m > 0
  {
    if w == 0 then 1 else 256 * Modulus(w - 1)
  }

  function FromLE(s: seq<byte>): nat {
    if |s| == 0 then 0 else s[0] + 256 * FromLE(s[1..])
  }

  /** The low w bytes of v, least significant first; a negative v is taken in two's complement. */
  function ToLE(v: int, w: nat): (s: seq<byte>)
    ensures |s| == w
    decreases w, v
  {
    if w == 0 then [] else [v % 256] + ToLE(v / 256, w - 1)
  }

  function Reverse(s: seq<byte>): (r: seq<byte>)
    ensures |r| == |s|
    ensures forall i :: 0 <= i < |s| ==> r[i] == s[|s| - 1 - i]
  {
    if |s| == 0 then [] else Reverse(s[1..]) + [s[0]]
  }

  function FromBE(s: seq<byte>): nat { FromLE(Reverse(s)) }

  function ToBE(v: int, w: nat): (s: seq<byte>)
    ensures |s| == w
  {
    Reverse(ToLE(v, w))
  }

  lemma LowByte(x: byte, rest: seq<byte>)
    ensures FromLE([x] + rest) == x + 0x100 * FromLE(rest)
  {
    assert ([x] + rest)[1..] == rest;
  }

  lemma LittleEndian(a: byte, b: byte, c: byte, d: byte)
    ensures FromLE([a, b]) == a + 0x100 * b
    ensures FromLE([a, b, c, d]) == a + 0x100 * b + 0x1_0000 * c + 0x100_0000 * d
  {
    LowByte(d, []);
    LowByte(c, [d]);
    LowByte(b, [c, d]);
    LowByte(a, [b, c, d]);
    LowByte(b, []);
    LowByte(a, [b]);
    assert [d] + [] == [d] && [c] + [d] == [c, d] && [b] + [c, d] == [b, c, d] && [a] + [b, c, d] == [a, b, c, d];
    assert [b] + [] == [b] && [a] + [b] == [a, b] && FromLE([]) == 0;
  }

  /** The two byte orders. */
  lemma ByteOrder(a: byte, b: byte, c: byte, d: byte)
    ensures FromLE([a, b]) == a + 0x100 * b && FromBE([a, b]) == 0x100 * a + b
    ensures FromLE([a, b, c, d]) == a + 0x100 * b + 0x1_0000 * c + 0x100_0000 * d
    ensures FromBE([a, b, c, d]) == 0x100_0000 * a + 0x1_0000 * b + 0x100 * c + d
  {
    hide FromLE;
    LittleEndian(a, b, c, d);
    LittleEndian(d, c, b, a);
    LittleEndian(b, a, b, a);
    assert Reverse([a, b, c, d]) == [d, c, b, a] && Reverse([a, b]) == [b, a];
  }

  lemma DivModSplit(v: int, m: nat)
    requires m > 0
    ensures v % (256 * m) == v % 256 + 256 * ((v / 256) % m)
  {
    var q, r := v / 256, v % 256;
    var q', r' := q / m, q % m;
    assert v == 256 * (m * q' + r') + r;
    assert v == (256 * m) * q' + (256 * r' + r);
    assert 256 * r' + r < 256 * m by { assert r' <= m - 1; }
    ModUnique(v, 256 * m, q', 256 * r' + r);
  }

  lemma ModUnique(v: int, m: int, q: int, r: int)
    requires 0 <= r < m && v == m * q + r
    ensures v % m == r
  {
    var q', r' := v / m, v % m;
    assert m * (q - q') == r' - r;
    assert q - q' >= 1 ==> m * (q - q') >= m;
    assert q - q' <= -1 ==> m * (q - q') <= -m;
  }

  lemma {:induction false} LERoundTrip(v: int, w: nat)
    ensures FromLE(ToLE(v, w)) == v % Modulus(w)
    decreases w
  {
    if w > 0 {
      LERoundTrip(v / 256, w - 1);
      DivModSplit(v, Modulus(w - 1));
      assert ToLE(v, w)[1..] == ToLE(v / 256, w - 1);
    }
  }

  lemma {:induction false} LEInverse(s: seq<byte>)
    ensures ToLE(FromLE(s), |s|) == s
  {
    if |s| > 0 {
      LEInverse(s[1..]);
      assert FromLE(s) / 256 == FromLE(s[1..]);
      assert [s[0]] + s[1..] == s;
    }
  }

  lemma {:induction false} FromLEBound(s: seq<byte>)
    ensures FromLE(s) < Modulus(|s|)
  {
    if |s| > 0 { FromLEBound(s[1..]); }
  }

  lemma ReverseReverse(s: seq<byte>)
    ensures Reverse(Reverse(s)) == s
  {
  }

  lemma BERoundTrip(v: int, w: nat)
    ensures FromBE(ToBE(v, w)) == v % Modulus(w)
  {
    ReverseReverse(ToLE(v, w));
    LERoundTrip(v, w);
  }

  /** ToLE only looks at its argument modulo 256^w. */
  lemma ToLEMod(u: int, v: int, w: nat)
    requires u % Modulus(w) == v % Modulus(w)
    ensures ToLE(u, w) == ToLE(v, w)
  {
    LERoundTrip(u, w);
    LERoundTrip(v, w);
    LEInverse(ToLE(u, w));
    LEInverse(ToLE(v, w));
  }

  lemma ModAdd(x: int, a: int, m: int)
    requires m > 0
    ensures (x % m + a) % m == (x + a) % m
  {
    var q, r := (x % m + a) / m, (x % m + a) % m;
    assert x == m * (x / m) + x % m;
    assert x + a == m * (x / m) + m * q + r;
    assert m * (x / m) + m * q == m * (x / m + q);
    ModUnique(x + a, m, x / m + q, r);
  }

  /** Equal deltas modulo m stay equal after adding the same amount. */
  lemma ModCongruent(a: int, b: int, c: int, m: int)
    requires m > 0 && a % m == b % m
    ensures (a + c) % m == (b + c) % m
  {
    ModAdd(a, c, m);
    ModAdd(b, c, m);
  }

  // ----- bitwise or -----

  function Pow2(n: nat): (p: nat)
    ensures p > 0
  {
    if n == 0 then 1 else 2 * Pow2(n - 1)
  }

  /** Bitwise or of the low w bits. */
  function BitOr(a: nat, b: nat, w: nat): nat {
    if w == 0 then 0
    else (if a % 2 == 1 || b % 2 == 1 then 1 else 0) + 2 * BitOr(a / 2, b / 2, w - 1)
  }

  lemma {:induction false} BitOrZero(a: nat, w: nat)
    requires a < Pow2(w)
    ensures BitOr(a, 0, w) == a
  {
    if w > 0 { BitOrZero(a / 2, w - 1); }
  }

  /** Only the low w bits of an operand matter. */
  lemma {:induction false} BitOrLow(a: nat, b: nat, w: nat)
    ensures BitOr(a, b, w) == BitOr(a, b % Pow2(w), w)
  {
    if w > 0 {
      var p := Pow2(w - 1);
      HalfMod(b, p);
      BitOrLow(a / 2, b / 2, w - 1);
    }
  }

  lemma HalfMod(b: nat, p: nat)
    requires p > 0
    ensures (b % (2 * p)) / 2 == (b / 2) % p && (b % (2 * p)) % 2 == b % 2
  {
    var q, r := b / (2 * p), b % (2 * p);
    assert b == 2 * (p * q) + r;
    assert b / 2 == p * q + r / 2;
    ModUnique(b / 2, p, q, r / 2);
  }

  /** Or-ing a value shifted left by low with one of low bits puts them side by side. */
  lemma {:induction false} BitOrSideBySide(a: nat, b: nat, low: nat, w: nat)
    requires b < Pow2(low) && a < Pow2(w)
    ensures BitOr(a * Pow2(low), b, low + w) == a * Pow2(low) + b
    decreases low
  {
    if low == 0 {
      BitOrZero(a, w);
    } else {
      assert a * Pow2(low) == 2 * (a * Pow2(low - 1));
      BitOrSideBySide(a, b / 2, low - 1, w);
    }
  }

  // ----- one field updated in place -----

  function Field(s: seq<byte>, pos: nat, w: nat): seq<byte>
    requires pos + w <= |s|
  {
    s[pos..pos + w]
  }

  function Splice(s: seq<byte>, pos: nat, f: seq<byte>): (r: seq<byte>)
    requires pos + |f| <= |s|
    ensures |r| == |s|
    ensures forall i :: 0 <= i < |s| ==> r[i] == if pos <= i < pos + |f| then f[i - pos] else s[i]
  {
    s[..pos] + f + s[pos + |f|..]
  }

  /** Add delta to the little-endian field of w bytes at pos, wrapping around. */
  function AddAt(s: seq<byte>, pos: nat, w: nat, delta: int): (r: seq<byte>)
    requires pos + w <= |s|
    ensures |r| == |s|
  {
    Splice(s, pos, ToLE(FromLE(Field(s, pos, w)) + delta, w))
  }

  lemma FieldOfAddAt(s: seq<byte>, pos: nat, w: nat, delta: int)
    requires pos + w <= |s|
    ensures Field(AddAt(s, pos, w, delta), pos, w) == ToLE(FromLE(Field(s, pos, w)) + delta, w)
  {
  }

  lemma AddAtTwice(s: seq<byte>, pos: nat, w: nat, a: int, b: int)
    requires pos + w <= |s|
    ensures AddAt(AddAt(s, pos, w, a), pos, w, b) == AddAt(s, pos, w, a + b)
  {
    hide ToLE, FromLE;
    var x, m := FromLE(Field(s, pos, w)), Modulus(w);
    FieldOfAddAt(s, pos, w, a);
    LERoundTrip(x + a, w);
    ModAdd(x + a, b, m);
    ToLEMod((x + a) % m + b, x + (a + b), w);
  }

  lemma AddAtCongruent(s: seq<byte>, pos: nat, w: nat, a: int, b: int)
    requires pos + w <= |s|
    requires a % Modulus(w) == b % Modulus(w)
    ensures AddAt(s, pos, w, a) == AddAt(s, pos, w, b)
  {
    var x := FromLE(Field(s, pos, w));
    ModCongruent(a, b, x, Modulus(w));
    ToLEMod(x + a, x + b, w);
  }

  /** A delta may be replaced by two additions that are congruent to it. */
  lemma AddAtSplit(s: seq<byte>, pos: nat, w: nat, delta: int, a: int, b: int)
    requires pos + w <= |s|
    requires delta % Modulus(w) == (a + b) % Modulus(w)
    ensures AddAt(s, pos, w, delta) == AddAt(AddAt(s, pos, w, a), pos, w, b)
  {
    AddAtCongruent(s, pos, w, delta, a + b);
    AddAtTwice(s, pos, w, a, b);
  }

  lemma AddAtDisjoint(s: seq<byte>, p: nat, w: nat, a: int, q: nat, v: nat, b: int)
    requires p + w <= |s| && q + v <= |s|
    requires p + w <= q || q + v <= p
    ensures AddAt(AddAt(s, p, w, a), q, v, b) == AddAt(AddAt(s, q, v, b), p, w, a)
  {
    assert Field(AddAt(s, p, w, a), q, v) == Field(s, q, v);
    assert Field(AddAt(s, q, v, b), p, w) == Field(s, p, w);
  }

  /** Two fields are either the same field or share no byte. */
  predicate NoPartialOverlap(p: nat, w: nat, q: nat, v: nat) {
    (p == q && w == v) || p + w <= q || q + v <= p
  }

  lemma AddAtCommutes(s: seq<byte>, p: nat, w: nat, a: int, q: nat, v: nat, b: int)
    requires p + w <= |s| && q + v <= |s|
    requires NoPartialOverlap(p, w, q, v)
    ensures AddAt(AddAt(s, p, w, a), q, v, b) == AddAt(AddAt(s, q, v, b), p, w, a)
  {
    if p == q && w == v {
      AddAtTwice(s, p, w, a, b);
      AddAtTwice(s, p, w, b, a);
    } else {
      AddAtDisjoint(s, p, w, a, q, v, b);
    }
  }
}
