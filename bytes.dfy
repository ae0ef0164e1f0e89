/** Byte strings as the Go standard library treats them: `bytes.Compare`,
    `big.Int.SetBytes` and `big.Int.Bytes`, and fixed-width big-endian
    encodings such as `binary.Write(buff, binary.BigEndian, num)`. */
module Bytes {

  type byte = b: int | 0 <= b < 256

  /** Go's `int64`. */
  type int64 = x: int | -0x8000_0000_0000_0000 <= x < 0x8000_0000_0000_0000

  /** A Go `[32]byte` array: hashes and transaction ids. */
  type Hash32 = h: seq<byte> | |h| == 32 witness Zeros(32)

  function Zeros(n: nat): (z: seq<byte>)
    ensures |z| == n
    ensures forall i :: 0 <= i < n ==> z[i] == 0
  {
    seq(n, _ => 0)
  }

  lemma ZerosSnoc(n: nat)
    ensures Zeros(n) + [0] == Zeros(n + 1)
  {
  }

  function Pow2(n: nat): (p: nat)
    ensures p > 0
  {
    if n == 0 then 1 else 2 * Pow2(n - 1)
  }

  function Pow256(n: nat): (p: nat)
    ensures p > 0
  {
    if n == 0 then 1 else 256 * Pow256(n - 1)
  }

  lemma {:induction false} Pow2Add(a: nat, b: nat)
    ensures Pow2(a + b) == Pow2(a) * Pow2(b)
  {
    if a > 0 {
      Pow2Add(a - 1, b);
      assert Pow2(a + b) == 2 * Pow2(a - 1 + b);
    }
  }

  lemma {:induction false} Pow2Monotone(a: nat, b: nat)
    requires a < b
    ensures Pow2(a) < Pow2(b)
  {
    if a + 1 < b {
      Pow2Monotone(a, b - 1);
    }
  }

  lemma {:induction false} Pow256IsPow2(n: nat)
    ensures Pow256(n) == Pow2(8 * n)
  {
    if n > 0 {
      Pow256IsPow2(n - 1);
      Pow2Add(8, 8 * (n - 1));
      assert Pow2(8) == 256;
    }
  }

  lemma Pow256Eight()
    ensures Pow256(8) == 0x1_0000_0000_0000_0000
  {
    assert Pow256(2) == 0x1_0000;
    assert Pow256(4) == 0x1_0000_0000;
    assert Pow256(6) == 0x1_0000_0000_0000;
  }

  lemma {:induction false} Pow256Add(a: nat, b: nat)
    ensures Pow256(a + b) == Pow256(a) * Pow256(b)
  {
    if a > 0 {
      Pow256Add(a - 1, b);
      assert Pow256(a + b) == 256 * Pow256(a - 1 + b);
    }
  }

  lemma MulLeft(a: int, b: int, c: nat)
    requires a <= b
    ensures a * c <= b * c
  {
  }

  /** A higher leading digit wins whatever the lower digits are. */
  lemma DigitOrder(x: int, y: int, p: nat, rx: int, ry: int)
    requires x < y && 0 <= rx < p && 0 <= ry < p
    ensures x * p + rx < y * p + ry
  {
    MulLeft(x + 1, y, p);
  }

  /** A number below `256 * p` has a leading digit below 256. */
  lemma LeadingDigit(x: nat, p: nat)
    requires p > 0 && x < 256 * p
    ensures x / p < 256 && x == (x / p) * p + x % p
  {
    var q := x / p;
    assert x == q * p + x % p;
    if 256 <= q {
      MulLeft(256, q, p);
      assert false;
    }
  }

  /** `x == q * d + r` with `0 <= r < d` determines Euclidean quotient and remainder. */
  lemma DivModUnique(x: int, d: int, q: int, r: int)
    requires d > 0 && 0 <= r < d && x == q * d + r
    ensures x / d == q && x % d == r
  {
    var q0, r0 := x / d, x % d;
    assert x == q0 * d + r0;
    if q0 < q {
      MulLeft(q0 + 1, q, d);
      assert false;
    } else if q < q0 {
      MulLeft(q + 1, q0, d);
      assert false;
    }
  }

  /** The unsigned big-endian value of `s`, as `new(big.Int).SetBytes(s)` computes it. */
  function BigEndian(s: seq<byte>): (v: nat)
    ensures v < Pow256(|s|)
  {
    if s == [] then 0
    else
      var p := Pow256(|s| - 1);
      MulLeft(s[0], 255, p);
      s[0] * p + BigEndian(s[1..])
  }

  lemma BigEndianCons(b: byte, s: seq<byte>)
    ensures BigEndian([b] + s) == b * Pow256(|s|) + BigEndian(s)
  {
    assert ([b] + s)[1..] == s;
  }

  /** The `k`-byte big-endian encoding of `x`, most significant byte first. */
  function ToBigEndian(k: nat, x: nat): (s: seq<byte>)
    requires x < Pow256(k)
    ensures |s| == k
    ensures BigEndian(s) == x
  {
    if k == 0 then []
    else
      var p := Pow256(k - 1);
      LeadingDigit(x, p);
      var q: byte, r := x / p, x % p;
      var rest := ToBigEndian(k - 1, r);
      BigEndianCons(q, rest);
      assert BigEndian([q] + rest) == q * p + r;
      [q] + rest
  }

  lemma {:induction false} ToBigEndianOfBigEndian(s: seq<byte>)
    ensures ToBigEndian(|s|, BigEndian(s)) == s
  {
    if s != [] {
      var p := Pow256(|s| - 1);
      DivModUnique(BigEndian(s), p, s[0], BigEndian(s[1..]));
      ToBigEndianOfBigEndian(s[1..]);
    }
  }

  /** Byte `i` of the `k`-byte encoding of `x` is `(x / 256^(k-1-i)) % 256`. */
  lemma {:induction false} ToBigEndianAt(k: nat, x: nat, i: nat)
    requires x < Pow256(k) && i < k
    ensures ToBigEndian(k, x)[i] == (x / Pow256(k - 1 - i)) % 256
  {
    var p := Pow256(k - 1);
    LeadingDigit(x, p);
    var q := x / p;
    if i == 0 {
      DivModUnique(q, 256, 0, q);
    } else {
      ToBigEndianAt(k - 1, x % p, i - 1);
      var j := k - 1 - i;
      Pow256Add(j, i);
      assert p == Pow256(j) * Pow256(i);
      DropHighDigits(x, Pow256(j), Pow256(i - 1));
    }
  }

  /** Reducing modulo `d * 256 * m` leaves the digit at position `d` unchanged. */
  lemma DropHighDigits(x: nat, d: nat, m: nat)
    requires d > 0 && m > 0
    ensures ((x % (d * (256 * m))) / d) % 256 == (x / d) % 256
  {
    var n := d * (256 * m);
    var q, r := x / n, x % n;
    var a, b := r / d, r % d;
    assert x == q * n + r;
    assert x == (q * (256 * m) + a) * d + b;
    DivModUnique(x, d, q * (256 * m) + a, b);
    assert q * (256 * m) + a == (q * m) * 256 + a;
    DivModUnique(x / d, 256, q * m + a / 256, a % 256);
  }

  lemma {:induction false} BigEndianSnoc(s: seq<byte>, b: byte)
    ensures BigEndian(s + [b]) == BigEndian(s) * 256 + b
  {
    if s != [] {
      var t := s[1..];
      assert (s + [b])[1..] == t + [b];
      BigEndianSnoc(t, b);
      var p := Pow256(|t|);
      assert BigEndian(s + [b]) == s[0] * Pow256(|s|) + BigEndian(t + [b]);
      assert Pow256(|s|) == 256 * p;
      ShiftByte(s[0], p, BigEndian(t));
    }
  }

  /** Shifting a number `a * p + r` one byte up shifts both of its parts. */
  lemma ShiftByte(a: int, p: int, r: int)
    ensures a * (256 * p) + r * 256 == (a * p + r) * 256
  {
  }

  /** Leading zero bytes do not change the value `SetBytes` computes. */
  lemma {:induction false} BigEndianLeadingZeros(n: nat, s: seq<byte>)
    ensures BigEndian(Zeros(n) + s) == BigEndian(s)
  {
    if n > 0 {
      var t := Zeros(n - 1) + s;
      assert Zeros(n) + s == [0] + t by {
        assert forall i :: 0 <= i < |t| + 1 ==> (Zeros(n) + s)[i] == ([0] + t)[i];
      }
      BigEndianCons(0, t);
      BigEndianLeadingZeros(n - 1, s);
      assert BigEndian(Zeros(n) + s) == BigEndian([0] + t) == BigEndian(t);
    } else {
      assert Zeros(n) + s == s;
    }
  }

  /** Adding a multiple of `256 * d` leaves digit `(x / d) % 256` unchanged. */
  lemma AddWholeBytes(x: int, d: nat, m: nat)
    requires d > 0
    ensures ((x + d * (256 * m)) / d) % 256 == (x / d) % 256
  {
    var q, r := x / d, x % d;
    assert x + d * (256 * m) == (q + 256 * m) * d + r;
    DivModUnique(x + d * (256 * m), d, q + 256 * m, r);
    DivModUnique(q + 256 * m, 256, q / 256 + m, q % 256);
  }

  /** `x.Bytes()` for a `big.Int` x >= 0: big-endian with no leading zero byte (empty for 0). */
  function MinimalBigEndian(x: nat): (s: seq<byte>)
    ensures BigEndian(s) == x
    ensures s == [] || s[0] != 0
  {
    if x == 0 then []
    else
      var front := MinimalBigEndian(x / 256);
      BigEndianSnoc(front, x % 256);
      front + [x % 256]
  }

  /** Multiplying a positive number by 256 appends a zero byte to its minimal encoding. */
  lemma MinimalBigEndianTimes256(y: nat)
    requires y > 0
    ensures MinimalBigEndian(y * 256) == MinimalBigEndian(y) + [0]
  {
    DivModUnique(y * 256, 256, y, 0);
  }

  /** One step of `MinimalBigEndianShift`: a further factor of 256 appends one more zero byte. */
  lemma ShiftStep(c: nat, n: nat, x: nat, y: nat)
    requires n > 0 && y > 0 && x == y * 256
    requires MinimalBigEndian(y) == MinimalBigEndian(c) + Zeros(n - 1)
    ensures MinimalBigEndian(x) == MinimalBigEndian(c) + Zeros(n)
  {
    MinimalBigEndianTimes256(y);
    var front, zeros := MinimalBigEndian(c), Zeros(n - 1);
    assert (front + zeros) + [0] == front + (zeros + [0]);
    ZerosSnoc(n - 1);
  }

  /** Appending `n` zero digits to a positive number appends `n` zero bytes to its minimal encoding. */
  lemma {:induction false} MinimalBigEndianShift(c: nat, n: nat)
    requires c > 0
    ensures MinimalBigEndian(c * Pow256(n)) == MinimalBigEndian(c) + Zeros(n)
  {
    if n > 0 {
      var p := Pow256(n - 1);
      var y := c * p;
      assert c * Pow256(n) == y * 256 by {
        assert Pow256(n) == 256 * p;
        ShiftByte(c, p, 0);
      }
      assert y > 0 by {
        MulLeft(1, c, p);
      }
      MinimalBigEndianShift(c, n - 1);
      ShiftStep(c, n, c * Pow256(n), y);
    } else {
      assert c * Pow256(n) == c;
      assert MinimalBigEndian(c) + Zeros(n) == MinimalBigEndian(c);
    }
  }

  /** A string with a non-zero first byte is worth at least 256^(its length - 1). */
  lemma LeadingByteBound(m: seq<byte>)
    requires m != [] && m[0] != 0
    ensures Pow256(|m| - 1) <= BigEndian(m)
  {
    MulLeft(1, m[0], Pow256(|m| - 1));
  }

  lemma Pow256Monotone(a: nat, b: nat)
    requires a <= b
    ensures Pow256(a) <= Pow256(b)
  {
    Pow256Add(a, b - a);
    MulLeft(1, Pow256(b - a), Pow256(a));
  }

  /** `bytes.Compare(a, b)`: 0 when equal, -1 when `a` comes first in lexicographic
      order (a proper prefix comes first), 1 otherwise. */
  function Compare(a: seq<byte>, b: seq<byte>): (c: int)
    ensures c == -1 || c == 0 || c == 1
    ensures c == 0 <==> a == b
  {
    if a == [] && b == [] then 0
    else if a == [] then -1
    else if b == [] then 1
    else if a[0] < b[0] then -1
    else if a[0] > b[0] then 1
    else
      var c := Compare(a[1..], b[1..]);
      assert a == [a[0]] + a[1..] && b == [b[0]] + b[1..];
      c
  }

  /** On byte strings of equal length, `bytes.Compare` is the numeric order of their big-endian values. */
  lemma {:induction false} CompareIsNumeric(a: seq<byte>, b: seq<byte>)
    requires |a| == |b|
    ensures Compare(a, b) == -1 <==> BigEndian(a) < BigEndian(b)
    ensures Compare(a, b) == 1 <==> BigEndian(a) > BigEndian(b)
  {
    if a != [] {
      var p := Pow256(|a| - 1);
      var ra, rb := BigEndian(a[1..]), BigEndian(b[1..]);
      assert BigEndian(a) == a[0] * p + ra;
      assert BigEndian(b) == b[0] * p + rb;
      if a[0] < b[0] {
        DigitOrder(a[0], b[0], p, ra, rb);
      } else if a[0] > b[0] {
        DigitOrder(b[0], a[0], p, rb, ra);
      } else {
        CompareIsNumeric(a[1..], b[1..]);
      }
    }
  }

  /** No byte string of at least `n` bytes compares below `n` zero bytes. */
  lemma {:induction false} CompareWithZeros(a: seq<byte>, n: nat)
    requires |a| >= n
    ensures Compare(a, Zeros(n)) != -1
  {
    if n > 0 && a[0] == 0 {
      assert Zeros(n)[1..] == Zeros(n - 1);
      CompareWithZeros(a[1..], n - 1);
    }
  }
}
