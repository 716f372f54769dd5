/** Encodings of numbers as bytes. */
module Encodings {
  import opened Arithmetic
  import opened Primitives

  type Byte = b | 0 <= b < 256

  /** 256^k. */
  function Bound(k: nat): (b: nat)
    ensures b > 0
  {
    if k == 0 then 1 else 256 * Bound(k - 1)
  }

  /** The last k bytes of n, most significant first. */
  function BigEndian(n: nat, k: nat): (b: seq<Byte>)
    ensures |b| == k
  {
    if k == 0 then [] else BigEndian(n / 256, k - 1) + [n % 256]
  }

  /** The number that bytes denote, most significant first. */
  function FromBigEndian(b: seq<Byte>): (n: nat)
    ensures n < Bound(|b|)
  {
    if b == [] then 0 else 256 * FromBigEndian(b[..|b| - 1]) + b[|b| - 1]
  }

  lemma {:induction false} BigEndianOf(b: seq<Byte>)
    ensures BigEndian(FromBigEndian(b), |b|) == b
  {
    if b != [] {
      BigEndianOf(b[..|b| - 1]);
      LastByte(FromBigEndian(b[..|b| - 1]), b[|b| - 1], |b| - 1);
    }
  }

  /** The bytes of a number after more bytes are those of a sum. */
  lemma {:induction false} BytesInFront(e: seq<Byte>, x: nat, k: nat)
    requires x < Bound(k)
    ensures e + BigEndian(x, k) == BigEndian(FromBigEndian(e) * Bound(k) + x, |e| + k)
    decreases k
  {
    hide FromBigEndian;
    if k == 0 {
      BigEndianOf(e);
    } else {
      DigitInFront(FromBigEndian(e), Bound(k - 1), x);
      BytesInFront(e, x / 256, k - 1);
      LastByte(FromBigEndian(e) * Bound(k - 1) + x / 256, x % 256, |e| + k - 1);
      assert e + BigEndian(x, k) == e + BigEndian(x / 256, k - 1) + [x % 256];
    }
  }

  lemma {:induction false} BoundProduct(j: nat, k: nat)
    ensures Bound(j) * Bound(k) == Bound(j + k)
  {
    if j > 0 {
      BoundProduct(j - 1, k);
      Associates(256, Bound(j - 1), Bound(k));
    }
  }

  lemma {:induction false} Associates(a: nat, b: nat, c: nat)
    ensures a * b * c == a * (b * c)
  {
  }

  /** Some bytes and a number of 8 bytes make a number of all these bytes. */
  lemma {:induction false} SumFits(e: nat, j: nat, x: nat, k: nat)
    requires e < Bound(j) && x < Bound(k)
    ensures e * Bound(k) + x < Bound(j + k)
  {
    BoundProduct(j, k);
    Scale(e + 1, Bound(j), Bound(k));
  }

  lemma {:induction false} BigEndianInjective(m: nat, n: nat, k: nat)
    requires m < Bound(k) && n < Bound(k) && BigEndian(m, k) == BigEndian(n, k)
    ensures m == n
  {
    if k > 0 {
      var a, b := BigEndian(m / 256, k - 1), BigEndian(n / 256, k - 1);
      assert (a + [m % 256])[k - 1] == m % 256 && (b + [n % 256])[k - 1] == n % 256;
      assert a == (a + [m % 256])[..k - 1] == (b + [n % 256])[..k - 1] == b;
      BigEndianInjective(m / 256, n / 256, k - 1);
    }
  }

  /** One more digit in front, at scale b. */
  lemma {:induction false} DigitInFront(c: nat, b: nat, n: nat)
    ensures c * (256 * b) + n == 256 * (c * b + n / 256) + n % 256
  {
    assert c * (256 * b) == 256 * (c * b);
  }

  /** A number c * 256^k + n, with n below 256^k, has the first byte c and the bytes of n. */
  lemma {:induction false} LeadingByte(c: Byte, n: nat, k: nat)
    requires n < Bound(k)
    ensures BigEndian(c * Bound(k) + n, k + 1) == [c] + BigEndian(n, k)
  {
    if k == 0 {
      assert BigEndian(c, 1) == BigEndian(c / 256, 0) + [c % 256];
    } else {
      var q, d := c * Bound(k - 1) + n / 256, n % 256;
      DigitInFront(c, Bound(k - 1), n);
      LeadingByte(c, n / 256, k - 1);
      LastByte(q, d, k);
      assert ([c] + BigEndian(n / 256, k - 1)) + [d] == [c] + BigEndian(n, k);
    }
  }

  lemma {:induction false} LastByte(q: nat, d: Byte, k: nat)
    ensures BigEndian(256 * q + d, k + 1) == BigEndian(q, k) + [d]
  {
  }

  // ----- little-endian

  function LittleEndian(n: nat, k: nat): (b: seq<Byte>)
    ensures |b| == k
  {
    if k == 0 then [] else [n % 256] + LittleEndian(n / 256, k - 1)
  }

  function FromLittleEndian(b: seq<Byte>): nat {
    if b == [] then 0 else b[0] + 256 * FromLittleEndian(b[1..])
  }

  lemma {:induction false} LittleEndianRoundTrip(n: nat, k: nat)
    requires n < Bound(k)
    ensures FromLittleEndian(LittleEndian(n, k)) == n
  {
    if k > 0 {
      LittleEndianRoundTrip(n / 256, k - 1);
      assert LittleEndian(n, k)[1..] == LittleEndian(n / 256, k - 1);
    }
  }

  /** Byte i is digit i to the base 256, the least significant one first. */
  lemma {:induction false} LittleEndianAt(n: nat, k: nat, i: nat)
    requires i < k
    ensures LittleEndian(n, k)[i] == n / Bound(i) % 256
  {
    if i > 0 {
      LittleEndianAt(n / 256, k - 1, i - 1);
      DivDiv(n, 256, Bound(i - 1));
    }
  }

  /** The most significant one first. */
  lemma {:induction false} BigEndianAt(n: nat, k: nat, i: nat)
    requires i < k
    ensures BigEndian(n, k)[i] == n / Bound(k - 1 - i) % 256
  {
    if i < k - 1 {
      BigEndianAt(n / 256, k - 1, i);
      DivDiv(n, 256, Bound(k - 2 - i));
    }
  }

  // ----- variable-length numbers (PutUvarint and Uvarint of Go's encoding/binary)

  /** Seven bits in a byte, lowest first; the high bit says that more bytes follow. */
  function Uvarint(x: nat): (b: seq<Byte>)
    ensures b != []
  {
    if x < 128 then [x] else [x % 128 + 128] + Uvarint(x / 128)
  }

  /** The bytes from the i-th on, as a value and their number.  At most ten bytes are read, and the tenth
      is at most 1, so that the value fits 64 bits. */
  function ReadUvarint(b: seq<Byte>, i: nat): (r: Option<(nat, nat)>)
    ensures r.Some? ==> 1 <= r.value.1 <= |b|
    decreases |b|
  {
    if b == [] || i >= 10 then None
    else if b[0] < 128 then
      if i == 9 && b[0] > 1 then None else Some((b[0], 1))
    else
      match ReadUvarint(b[1..], i + 1)
      case None => None
      case Some((x, n)) => Some((b[0] - 128 + 128 * x, n + 1))
  }

  /** What is left of a 64-bit number after i groups of seven bits. */
  function Left(i: nat): (b: nat)
    requires i <= 9
    ensures b >= 2
    decreases 9 - i
  {
    if i == 9 then 2 else 128 * Left(i + 1)
  }

  lemma {:induction false} UvarintRoundTrip(x: nat, rest: seq<Byte>, i: nat)
    requires i <= 9 && x < Left(i)
    ensures ReadUvarint(Uvarint(x) + rest, i) == Some((x, |Uvarint(x)|))
    decreases 9 - i
  {
    if x < 128 {
      assert (Uvarint(x) + rest)[0] == x;
    } else {
      UvarintRoundTrip(x / 128, rest, i + 1);
      UvarintStep(x / 128, x % 128, Uvarint(x / 128), rest, i);
    }
  }

  /** One more group of seven bits in front. */
  lemma {:induction false} UvarintStep(q: nat, r: nat, more: seq<Byte>, rest: seq<Byte>, i: nat)
    requires i <= 8 && r < 128 && ReadUvarint(more + rest, i + 1) == Some((q, |more|))
    ensures ReadUvarint(([r + 128] + more) + rest, i) == Some((128 * q + r, |more| + 1))
  {
    var b := ([r + 128] + more) + rest;
    assert b[0] == r + 128 && b[1..] == more + rest;
  }

  /** 128^k. */
  function Groups(k: nat): (b: nat)
    ensures b > 0
  {
    if k == 0 then 1 else 128 * Groups(k - 1)
  }

  /** Byte i holds group i of seven bits, the lowest first, and its high bit is set except in the last one, which is not
      0 unless the number is. */
  lemma {:induction false} UvarintAt(x: nat, i: nat)
    requires i < |Uvarint(x)|
    ensures Uvarint(x)[i] % 128 == x / Groups(i) % 128
    ensures Uvarint(x)[i] >= 128 <==> i < |Uvarint(x)| - 1
    ensures i == |Uvarint(x)| - 1 && Uvarint(x)[i] == 0 ==> x == 0
  {
    if i > 0 {
      UvarintAt(x / 128, i - 1);
      DivDiv(x, 128, Groups(i - 1));
    }
  }
}
