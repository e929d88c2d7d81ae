/** Byte strings, big-endian numbers and the block counters shared by the
    block-cipher modes and MGM. A block is a byte string whose byte 0 is the
    most significant one, as in GOST R 34.12-2015 and GOST R 34.13-2015. */
module Octets {

  type Byte = bv8
  type Bytes = seq<bv8>

  /** The block sizes of the cipher family: 8 bytes (Magma), 16 bytes (Kuznechik). */
  predicate BlockSize(n: nat) {
    n == 8 || n == 16
  }

  function Zeros(len: nat): (r: Bytes)
    ensures |r| == len
  {
    seq(len, _ => 0)
  }

  /** Bytewise exclusive or of two strings of the same length. */
  function Xor(a: Bytes, b: Bytes): (r: Bytes)
    requires |a| == |b|
    ensures |r| == |a|
  {
    seq(|a|, i requires 0 <= i < |a| => a[i] ^ b[i])
  }

  lemma AppendAssoc(a: Bytes, b: Bytes, c: Bytes)
    ensures a + (b + c) == (a + b) + c
  {
  }

  lemma XorCancel(a: Bytes, b: Bytes)
    requires |a| == |b|
    ensures Xor(Xor(a, b), b) == a
  {
  }

  /** 256^k: the number of values a k-byte string can hold. */
  function Pow256(k: nat): (r: nat)
    ensures r >= 1
  {
    if k == 0 then 1 else 256 * Pow256(k - 1)
  }

  /** The big-endian value of a byte string. */
  function ToNat(b: Bytes): nat {
    if |b| == 0 then 0 else ToNat(b[..|b| - 1]) * 256 + b[|b| - 1] as int
  }

  /** The big-endian encoding of x on len bytes (x taken modulo 256^len). */
  function FromNat(x: nat, len: nat): (r: Bytes)
    ensures |r| == len
  {
    if len == 0 then [] else FromNat(x / 256, len - 1) + [ByteOf(x % 256)]
  }

  lemma {:induction false} ToNatBound(b: Bytes)
    ensures ToNat(b) < Pow256(|b|)
  {
    if |b| > 0 {
      ToNatBound(b[..|b| - 1]);
    }
  }

  lemma {:induction false} FromNatToNat(x: nat, len: nat)
    requires x < Pow256(len)
    ensures ToNat(FromNat(x, len)) == x
  {
    if len > 0 {
      var q, d := x / 256, x % 256;
      assert Pow256(len) == 256 * Pow256(len - 1);
      DivideByte(x, Pow256(len - 1));
      FromNatToNat(q, len - 1);
      FromNatLast(x, len);
      assert ToNat(FromNat(x, len)) == q * 256 + d;
    }
  }

  lemma FromNatLast(x: nat, len: nat)
    requires len > 0
    ensures ToNat(FromNat(x, len)) == ToNat(FromNat(x / 256, len - 1)) * 256 + x % 256
  {
    ToNatSnoc(FromNat(x / 256, len - 1), ByteOf(x % 256));
  }

  /** Appending k zero bytes multiplies the value by 256^k: the value of
      IV || 0^k is IV * 256^k. */
  lemma {:induction false} ToNatZeroSuffix(b: Bytes, k: nat)
    ensures ToNat(b + Zeros(k)) == ToNat(b) * Pow256(k)
  {
    if k > 0 {
      var p := b + Zeros(k - 1);
      assert b + Zeros(k) == p + [0];
      ToNatSnoc(p, 0);
      ToNatZeroSuffix(b, k - 1);
      MulShift(ToNat(b), Pow256(k - 1));
    } else {
      assert b + Zeros(k) == b;
    }
  }

  /** Adds one to a big-endian string modulo 256^|b| (carry propagation from the last byte). */
  function Increment(b: Bytes): (r: Bytes)
    ensures |r| == |b|
  {
    if |b| == 0 then []
    else if b[|b| - 1] == 0xFF then Increment(b[..|b| - 1]) + [0]
    else b[..|b| - 1] + [b[|b| - 1] + 1]
  }

  lemma ToNatSnoc(p: Bytes, x: bv8)
    ensures ToNat(p + [x]) == ToNat(p) * 256 + x as int
  {
    assert (p + [x])[..|p|] == p;
  }

  /** How Increment acts on the last byte, stated on values. */
  lemma IncrementLast(b: Bytes)
    requires |b| > 0
    ensures b[|b| - 1] == 0xFF ==> ToNat(Increment(b)) == ToNat(Increment(b[..|b| - 1])) * 256 + 0
    ensures b[|b| - 1] != 0xFF ==> ToNat(Increment(b)) == ToNat(b[..|b| - 1]) * 256 + (b[|b| - 1] as int + 1)
  {
    var p, last := b[..|b| - 1], b[|b| - 1];
    if last == 0xFF {
      var q := Increment(p);
      assert Increment(b) == q + [0];
      ToNatSnoc(q, 0);
    } else {
      assert Increment(b) == p + [last + 1];
      ToNatSnoc(p, last + 1);
      ByteSucc(last);
    }
  }

  /** Increment adds one, wrapping to zero exactly when the value was the largest. */
  lemma {:induction false} IncrementWraps(b: Bytes)
    ensures ToNat(b) + 1 < Pow256(|b|) ==> ToNat(Increment(b)) == ToNat(b) + 1
    ensures ToNat(b) + 1 >= Pow256(|b|) ==> ToNat(Increment(b)) == 0
  {
    if |b| == 0 {
    } else {
      var p := b[..|b| - 1];
      var t, m, d := ToNat(p), Pow256(|p|), b[|b| - 1] as int;
      assert ToNat(b) == t * 256 + d;
      assert t < m by {
        ToNatBound(p);
      }
      assert Pow256(|b|) == 256 * m;
      IncrementLast(b);
      if d == 255 {
        IncrementWraps(p);
      }
    }
  }

  /** Increment is addition of one modulo 256^|b|. */
  lemma IncrementValue(b: Bytes)
    ensures ToNat(Increment(b)) == (ToNat(b) + 1) % Pow256(|b|)
  {
    IncrementWraps(b);
    ToNatBound(b);
    if ToNat(b) + 1 < Pow256(|b|) {
      ModOfSmall(ToNat(b) + 1, Pow256(|b|));
    } else {
      ModUnique(ToNat(b) + 1, Pow256(|b|), 1, 0);
    }
  }

  lemma DivideByte(x: nat, m: nat)
    requires x < 256 * m
    ensures x / 256 < m && x == x / 256 * 256 + x % 256
  {
  }

  /** The byte holding d, counted up from zero so that only the step of ByteSucc
      relates bytes to numbers. */
  function ByteOf(d: nat): (r: bv8)
    requires d < 256
    ensures r as int == d
    decreases d
  {
    if d == 0 then 0
    else
      var p := ByteOf(d - 1);
      ByteSucc(p);
      p + 1
  }

  /** Shifting a byte left by one bit doubles it modulo 256. */
  lemma ByteDouble(x: bv8)
    ensures (x << 1) as int == (2 * (x as int)) % 256
    ensures (x << 1) & 1 == 0
  {
    if x < 0x40 {
    } else if x < 0x80 {
    } else if x < 0xC0 {
    } else {
    }
  }

  /** Setting the low bit of an even byte adds it. */
  lemma ByteOrLow(y: bv8, c: bv8)
    requires c <= 1 && y & 1 == 0
    ensures (y | c) as int == y as int + c as int
  {
    if c == 0 {} else {}
  }

  /** A byte shifted left with a carry bit entering at the bottom, as a number. */
  lemma ByteShiftIn(x: bv8, carry: bv8)
    requires carry <= 1
    ensures ((x << 1) | carry) as int == (2 * (x as int)) % 256 + carry as int
  {
    ByteDouble(x);
    ByteOrLow(x << 1, carry);
  }

  /** The top bit of a byte, as a number. */
  lemma ByteTop(x: bv8)
    ensures (x >> 7) as int == x as int / 128
  {
    if x < 0x80 {} else {}
  }

  /** The top bit, seen by a shift or by a mask. */
  lemma ByteTopMask(x: bv8)
    ensures (x >> 7 == 0) == (x & 0x80 == 0)
  {
  }

  lemma ByteSucc(x: bv8)
    requires x != 0xFF
    ensures (x + 1) as int == x as int + 1
  {
  }

  lemma MulShift(a: nat, p: nat)
    ensures a * p * 256 == a * (256 * p)
  {
  }

  /** a * m >= c * m for a >= c (m positive). */
  lemma MulAtLeast(a: int, m: int, c: int)
    requires a >= c && m > 0
    ensures a * m >= c * m
  {
  }

  lemma ModOfSmall(x: nat, m: nat)
    requires x < m
    ensures x % m == x
  {
  }

  lemma ModUnique(x: int, m: int, q: int, r: int)
    requires m > 0 && 0 <= r < m && x == q * m + r
    ensures x % m == r
  {
    var d, s := x / m, x % m;
    assert x == d * m + s;
    assert (q - d) * m == s - r;
    if q > d {
      MulAtLeast(q - d, m, 1);
    } else if q < d {
      MulAtLeast(d - q, m, 1);
    }
  }

  lemma DivUnique(x: int, m: int, q: int, r: int)
    requires m > 0 && 0 <= r < m && x == q * m + r
    ensures x / m == q && x % m == r
  {
    ModUnique(x, m, q, r);
    var d := x / m;
    assert x == d * m + r;
    assert (q - d) * m == 0;
    if q > d {
      MulAtLeast(q - d, m, 1);
    } else if q < d {
      MulAtLeast(d - q, m, 1);
    }
  }

  lemma ModAddLeft(a: nat, b: nat, m: nat)
    requires m > 0
    ensures (a % m + b) % m == (a + b) % m
  {
    var q, r := a / m, a % m;
    var t, s := (r + b) / m, (r + b) % m;
    assert a + b == (q + t) * m + s;
    ModUnique(a + b, m, q + t, s);
  }

  /** i - 1 counter steps followed by one more is i steps, modulo m. */
  lemma ModStepChain(x: int, y: int, t: nat, i: nat, m: nat)
    requires m > 0 && i >= 1 && y == (t + i - 1) % m && x == (y + 1) % m
    ensures x == (t + i) % m
  {
    ModAddLeft(t + i - 1, 1, m);
  }

  /** A counter step keeps the length of the counter. */
  ghost predicate Keeps(g: Bytes -> Bytes) {
    forall b: Bytes :: |g(b)| == |b|
  }

  /** incr_r of RFC 9058: the right half incremented modulo 2^(n/2), the left half kept. */
  function IncrRight(b: Bytes): (r: Bytes)
    ensures |r| == |b|
  {
    b[..|b| / 2] + Increment(b[|b| / 2..])
  }

  /** incr_l of RFC 9058: the left half incremented modulo 2^(n/2), the right half kept. */
  function IncrLeft(b: Bytes): (r: Bytes)
    ensures |r| == |b|
  {
    Increment(b[..|b| / 2]) + b[|b| / 2..]
  }

  lemma CountersKeep()
    ensures Keeps(Increment) && Keeps(IncrRight) && Keeps(IncrLeft)
  {
    assert forall b: Bytes :: |Increment(b)| == |b|;
    assert forall b: Bytes :: |IncrRight(b)| == |b|;
    assert forall b: Bytes :: |IncrLeft(b)| == |b|;
  }

  /** The counter after i steps of g. */
  function Iterate(g: Bytes -> Bytes, b: Bytes, i: nat): (r: Bytes)
    ensures Keeps(g) ==> |r| == |b|
    decreases i
  {
    if i == 0 then b else Iterate(g, g(b), i - 1)
  }

  lemma {:induction false} IterateAdd(g: Bytes -> Bytes, b: Bytes, i: nat, j: nat)
    ensures Iterate(g, Iterate(g, b, i), j) == Iterate(g, b, i + j)
    decreases i
  {
    if i > 0 {
      IterateAdd(g, g(b), i - 1, j);
    }
  }

  /** The point i + j steps on from b is j steps on from the point i steps on,
      whatever else it is known to equal. */
  lemma IterateRemainder(g: Bytes -> Bytes, b: Bytes, c: Bytes, i: nat, j: nat, m: nat, t: nat, b': Bytes)
    requires i + j == m && b' == Iterate(g, b, i)
    requires Iterate(g, b, m) == Iterate(g, c, t)
    ensures Iterate(g, b', j) == Iterate(g, c, t)
  {
    IterateAddAt(g, b, i, j, m, b');
  }

  /** IterateAdd with the intermediate point and the total count named. */
  lemma IterateAddAt(g: Bytes -> Bytes, b: Bytes, i: nat, j: nat, m: nat, b': Bytes)
    requires i + j == m && b' == Iterate(g, b, i)
    ensures Iterate(g, b', j) == Iterate(g, b, m)
  {
    IterateAdd(g, b, i, j);
  }

  /** One more step after i steps. */
  lemma IterateLast(g: Bytes -> Bytes, b: Bytes, i: nat)
    ensures Iterate(g, b, i + 1) == g(Iterate(g, b, i))
  {
    IterateAdd(g, b, i, 1);
  }

  /** The full-block counter after i steps holds (value + i) mod 256^|b|. */
  lemma {:induction false} IterateIncrementValue(b: Bytes, i: nat)
    ensures ToNat(Iterate(Increment, b, i)) == (ToNat(b) + i) % Pow256(|b|)
  {
    var t, m := ToNat(b), Pow256(|b|);
    if i == 0 {
      ToNatBound(b);
      ModOfSmall(t, m);
    } else {
      CountersKeep();
      var p := Iterate(Increment, b, i - 1);
      assert ToNat(p) == (t + i - 1) % m by {
        IterateIncrementValue(b, i - 1);
      }
      assert ToNat(Iterate(Increment, b, i)) == (ToNat(p) + 1) % m by {
        IterateLast(Increment, b, i - 1);
        IncrementValue(p);
      }
      ModStepChain(ToNat(Iterate(Increment, b, i)), ToNat(p), t, i, m);
    }
  }

  /** Stepping the right half i times is stepping a counter made of the right
      half alone i times; the left half is untouched. */
  lemma {:induction false} IterateRight(b: Bytes, i: nat)
    ensures Iterate(IncrRight, b, i) == b[..|b| / 2] + Iterate(Increment, b[|b| / 2..], i)
    decreases i, 1
  {
    if i == 0 {
      assert b == b[..|b| / 2] + b[|b| / 2..];
    } else {
      IterateRightStep(b, i);
    }
  }

  lemma {:induction false} IterateRightStep(b: Bytes, i: nat)
    requires i > 0
    ensures Iterate(IncrRight, b, i) == b[..|b| / 2] + Iterate(Increment, b[|b| / 2..], i)
    decreases i, 0
  {
    var c := IncrRight(b);
    assert c[..|c| / 2] == b[..|b| / 2] && c[|c| / 2..] == Increment(b[|b| / 2..]);
    IterateRight(c, i - 1);
  }

  /** Stepping the left half i times is stepping a counter made of the left
      half alone i times; the right half is untouched. */
  lemma {:induction false} IterateLeft(b: Bytes, i: nat)
    ensures Iterate(IncrLeft, b, i) == Iterate(Increment, b[..|b| / 2], i) + b[|b| / 2..]
    decreases i, 1
  {
    if i == 0 {
      assert b == b[..|b| / 2] + b[|b| / 2..];
    } else {
      IterateLeftStep(b, i);
    }
  }

  lemma {:induction false} IterateLeftStep(b: Bytes, i: nat)
    requires i > 0
    ensures Iterate(IncrLeft, b, i) == Iterate(Increment, b[..|b| / 2], i) + b[|b| / 2..]
    decreases i, 0
  {
    var c := IncrLeft(b);
    assert c[..|c| / 2] == Increment(b[..|b| / 2]) && c[|c| / 2..] == b[|b| / 2..];
    IterateLeft(c, i - 1);
  }
}
