/** Trie keys of the key-transparency server (kt/optiks.go). */
module TrieKeys {
  import opened Arithmetic
  import opened Encodings

  type User = seq<Byte>

  /** Users are at most 24 bytes long; the program stops otherwise. */
  predicate Fits(u: User) {
    |u| + 8 <= 32
  }

  function Padding(n: nat): (z: seq<Byte>)
    ensures |z| == n && forall i :: 0 <= i < n ==> z[i] == 0
  {
    seq(n, _ => 0)
  }

  /** The user, the version in big-endian order, and zeros (makeTrieKey). */
  function MakeTrieKey(u: User, version: nat): (key: seq<Byte>)
    requires Fits(u)
    ensures |key| == 32
  {
    u + BigEndian(version, 8) + Padding(24 - |u|)
  }

  // ----- when two keys are equal

  lemma {:induction false} PaddingBytes(v: nat, d: nat)
    requires v < Bound(8)
    ensures BigEndian(v, 8) + Padding(d) == BigEndian(v * Bound(d), 8 + d)
  {
    BigEndianOf(BigEndian(v, 8));
    Decoded(v, 8);
    ZeroBytes(d);
    BytesInFront(BigEndian(v, 8), 0, d);
  }

  lemma {:induction false} ZeroBytes(d: nat)
    ensures BigEndian(0, d) == Padding(d)
  {
    if d > 0 {
      ZeroBytes(d - 1);
    }
  }

  lemma {:induction false} Decoded(v: nat, k: nat)
    requires v < Bound(k)
    ensures FromBigEndian(BigEndian(v, k)) == v
  {
    BigEndianOf(BigEndian(v, k));
    BigEndianInjective(FromBigEndian(BigEndian(v, k)), v, k);
  }

  /** The key of the shorter user, as the key of the longer one is written. */
  lemma {:induction false} LongerKey(u: User, e: User, x: nat)
    requires Fits(u + e) && x < Bound(8)
    ensures MakeTrieKey(u + e, x) == u + BigEndian(FromBigEndian(e) * Bound(8) + x, 8 + |e|) + Padding(24 - |u| - |e|)
  {
    BytesInFront(e, x, 8);
    assert MakeTrieKey(u + e, x) == u + (e + BigEndian(x, 8)) + Padding(24 - |u| - |e|);
  }

  lemma {:induction false} ShorterKey(u: User, v: nat, d: nat)
    requires |u| + d + 8 <= 32 && v < Bound(8)
    ensures MakeTrieKey(u, v) == u + BigEndian(v * Bound(d), 8 + d) + Padding(24 - |u| - d)
  {
    PaddingBytes(v, d);
    assert Padding(24 - |u|) == Padding(d) + Padding(24 - |u| - d);
    assert MakeTrieKey(u, v) == u + (BigEndian(v, 8) + Padding(d)) + Padding(24 - |u| - d);
  }

  lemma {:induction false} SameMiddle(u: User, a: seq<Byte>, b: seq<Byte>, p: seq<Byte>)
    requires |a| == |b|
    ensures u + a + p == u + b + p <==> a == b
  {
    if u + a + p == u + b + p {
      assert a == (u + a + p)[|u|..|u| + |a|] == (u + b + p)[|u|..|u| + |a|] == b;
    }
  }

  lemma {:induction false} SameNumber(u: User, p: nat, q: nat, k: nat, padding: seq<Byte>)
    requires p < Bound(k) && q < Bound(k)
    ensures u + BigEndian(p, k) + padding == u + BigEndian(q, k) + padding <==> p == q
  {
    hide BigEndian, Bound;
    SameMiddle(u, BigEndian(p, k), BigEndian(q, k), padding);
    if BigEndian(p, k) == BigEndian(q, k) {
      BigEndianInjective(p, q, k);
    }
  }

  /** The key of u at version v is that of u followed by the bytes e at version x if and only if v, shifted by
      the length of e, is the number written by e and the eight bytes of x. */
  lemma {:induction false} ExtensionKeys(u: User, v: nat, e: User, x: nat)
    requires Fits(u + e) && v < Bound(8) && x < Bound(8)
    ensures MakeTrieKey(u, v) == MakeTrieKey(u + e, x) <==> v * Bound(|e|) == FromBigEndian(e) * Bound(8) + x
  {
    hide BigEndian, FromBigEndian, MakeTrieKey, Bound, Padding;
    ShorterKey(u, v, |e|);
    LongerKey(u, e, x);
    SumFits(v, 8, 0, |e|);
    SumFits(FromBigEndian(e), |e|, x, 8);
    SameNumber(u, v * Bound(|e|), FromBigEndian(e) * Bound(8) + x, 8 + |e|, Padding(24 - |u| - |e|));
  }

  lemma {:induction false} KeyStart(u: User, v: nat)
    requires Fits(u)
    ensures MakeTrieKey(u, v)[..|u|] == u
  {
  }

  /** Two keys are equal exactly when the longer user extends the shorter one, perhaps by nothing, and the versions
      are related as above.  There is no other bound on the versions than their 64 bits. */
  lemma {:induction false} EqualKeysExact(u: User, v: nat, w: User, x: nat)
    requires Fits(u) && Fits(w) && |u| <= |w| && v < Bound(8) && x < Bound(8)
    ensures MakeTrieKey(u, v) == MakeTrieKey(w, x) <==>
            w[..|u|] == u && v * Bound(|w| - |u|) == FromBigEndian(w[|u|..]) * Bound(8) + x
  {
    KeyStart(u, v);
    KeyStart(w, x);
    if w[..|u|] == u {
      assert w == u + w[|u|..];
      ExtensionKeys(u, v, w[|u|..], x);
    } else {
      assert MakeTrieKey(w, x)[..|u|] == w[..|u|];
    }
  }

  // ----- which users share keys at versions from 1 to 2^56 - 1

  predicate Small(version: nat) {
    1 <= version < Bound(7)
  }

  /** One user is the other followed by a zero byte and perhaps more. */
  predicate ZeroExtends(u: User, w: User) {
    |u| < |w| && w[..|u|] == u && w[|u|] == 0
  }

  /** One user is the other followed by a zero byte and at most five more bytes. */
  predicate Shadows(u: User, w: User) {
    ZeroExtends(u, w) && |w| <= |u| + 6
  }

  predicate Separate(u: User, w: User) {
    !Shadows(u, w) && !Shadows(w, u)
  }

  predicate NulFree(u: User) {
    forall i :: 0 <= i < |u| ==> u[i] != 0
  }

  lemma {:induction false} NulFreeSeparate(u: User, w: User)
    requires NulFree(u) && NulFree(w)
    ensures Separate(u, w)
  {
  }

  lemma {:induction false} BoundGrows(j: nat, k: nat)
    requires j <= k
    ensures Bound(j) <= Bound(k)
  {
    BoundProduct(j, k - j);
    Scale(1, Bound(k - j), Bound(j));
  }

  /** The first byte of a number is 0 exactly when the number has a byte less. */
  lemma {:induction false} FirstByte(e: seq<Byte>)
    requires e != []
    ensures FromBigEndian(e) < Bound(|e| - 1) <==> e[0] == 0
  {
    hide FromBigEndian, BigEndian;
    var d := |e| - 1;
    var rest := FromBigEndian(e[1..]);
    LeadingByte(e[0], rest, d);
    BigEndianOf(e[1..]);
    assert e == [e[0]] + e[1..];
    SumFits(e[0], 1, rest, d);
    assert Bound(1) == 256;
    Decoded(e[0] * Bound(d) + rest, d + 1);
    assert FromBigEndian(e) == e[0] * Bound(d) + rest;
    if e[0] != 0 {
      Scale(1, e[0], Bound(d));
    }
  }

  lemma {:induction false} Larger(a: nat, b: nat, size: nat)
    requires a * size < b * size
    ensures a < b
  {
    Scale(b, a, size);
  }

  /** Versions with equal keys: the extension starts with a zero byte... */
  lemma {:induction false} EqualZeroExtends(v: nat, e: seq<Byte>, x: nat)
    requires e != [] && v < Bound(7) && v * Bound(|e|) == FromBigEndian(e) * Bound(8) + x
    ensures e[0] == 0
  {
    var d := |e|;
    BoundProduct(7, d);
    BoundProduct(d - 1, 8);
    Shrink(v, d);
    Larger(FromBigEndian(e), Bound(d - 1), Bound(8));
    FirstByte(e);
  }

  lemma {:induction false} Shrink(v: nat, d: nat)
    requires v < Bound(7)
    ensures v * Bound(d) < Bound(7) * Bound(d)
  {
    Scale(v + 1, Bound(7), Bound(d));
    Successor(v, Bound(d));
  }

  /** ... and is at most six bytes long. */
  lemma {:induction false} EqualShort(v: nat, e: seq<Byte>, x: nat)
    requires |e| >= 7 && x < Bound(7) && v * Bound(|e|) == FromBigEndian(e) * Bound(8) + x
    ensures x == 0
  {
    var d := |e|;
    BoundProduct(d - 7, 7);
    BoundProduct(1, 7);
    assert Bound(1) == 256;
    Associates(v, Bound(d - 7), Bound(7));
    Associates(FromBigEndian(e), 256, Bound(7));
    Multiple(v * Bound(d - 7), Bound(7));
    DivUnique(v * Bound(d), Bound(7), FromBigEndian(e) * 256, x);
  }

  lemma {:induction false} ShorterDiffers(u: User, v: nat, w: User, x: nat)
    requires Fits(u) && Fits(w) && |u| < |w| && !Shadows(u, w) && v < Bound(7) && Small(x)
    ensures MakeTrieKey(u, v) != MakeTrieKey(w, x)
  {
    BoundGrows(7, 8);
    EqualKeysExact(u, v, w, x);
    if MakeTrieKey(u, v) == MakeTrieKey(w, x) {
      EqualZeroExtends(v, w[|u|..], x);
      EqualShort(v, w[|u|..], x);
    }
  }

  lemma {:induction false} SameLengthDiffers(u: User, v: nat, w: User, x: nat)
    requires Fits(u) && Fits(w) && |u| == |w| && v < Bound(7) && x < Bound(7)
    ensures MakeTrieKey(u, v) == MakeTrieKey(w, x) <==> u == w && v == x
  {
    BoundGrows(7, 8);
    EqualKeysExact(u, v, w, x);
    assert w[|u|..] == [] && w[..|u|] == w;
  }

  /** Separate users and versions have separate keys. */
  lemma {:induction false} TrieKeyInjective(u: User, v: nat, w: User, x: nat)
    requires Fits(u) && Fits(w) && Separate(u, w) && Small(v) && Small(x)
    ensures MakeTrieKey(u, v) == MakeTrieKey(w, x) <==> u == w && v == x
  {
    if |u| < |w| {
      ShorterDiffers(u, v, w, x);
    } else if |w| < |u| {
      ShorterDiffers(w, x, u, v);
    } else {
      SameLengthDiffers(u, v, w, x);
    }
  }

  /** Version 0, which no user has, has a key of its own for users that do not extend each other by a zero byte. */
  lemma {:induction false} ZeroKeyDiffers(u: User, w: User, x: nat)
    requires Fits(u) && Fits(w) && !ZeroExtends(w, u) && Separate(u, w) && Small(x)
    ensures MakeTrieKey(u, 0) != MakeTrieKey(w, x)
  {
    if |u| < |w| {
      ShorterDiffers(u, 0, w, x);
    } else if |w| < |u| {
      BoundGrows(7, 8);
      EqualKeysExact(w, x, u, 0);
      if MakeTrieKey(w, x) == MakeTrieKey(u, 0) {
        EqualZeroExtends(x, u[|w|..], 0);
      }
    } else {
      SameLengthDiffers(u, 0, w, x);
    }
  }

  /** The versions at which a user and its extension by e, of at most six bytes and led by a zero byte, share a
      key: e followed by a one, and that one shifted by the length of e. */
  lemma {:induction false} ShadowVersions(e: seq<Byte>) returns (v: nat, x: nat)
    requires 1 <= |e| <= 6 && e[0] == 0
    ensures Small(v) && Small(x) && v * Bound(|e|) == FromBigEndian(e) * Bound(8) + x
  {
    var d, n := |e|, FromBigEndian(e);
    v, x := n * Bound(8 - d) + 1, Bound(d);
    FirstByte(e);
    SumFits(n, d - 1, 1, 8 - d);
    BoundGrows(1, 8 - d);
    assert Bound(7) == 256 * Bound(6);
    BoundGrows(d, 6);
    BoundProduct(8 - d, d);
    Associates(n, Bound(8 - d), Bound(d));
    Successor(n * Bound(8 - d), Bound(d));
  }

  /** Some versions give both users the same key. */
  ghost predicate ShareKey(u: User, w: User)
    requires Fits(u) && Fits(w)
  {
    exists v, x :: Small(v) && Small(x) && MakeTrieKey(u, v) == MakeTrieKey(w, x)
  }

  lemma {:induction false} ShadowsShare(u: User, w: User)
    requires Fits(u) && Fits(w) && Shadows(u, w)
    ensures ShareKey(u, w) && ShareKey(w, u)
  {
    var v, x := ShadowVersions(w[|u|..]);
    BoundGrows(7, 8);
    EqualKeysExact(u, v, w, x);
  }

  /** Different users share a key if and only if one of them is the other followed by a zero byte and at most five
      more bytes. */
  lemma {:induction false} ShareKeyExact(u: User, w: User)
    requires Fits(u) && Fits(w) && u != w
    ensures ShareKey(u, w) <==> !Separate(u, w)
  {
    hide MakeTrieKey, Shadows;
    if Shadows(u, w) {
      ShadowsShare(u, w);
    } else if Shadows(w, u) {
      ShadowsShare(w, u);
    } else {
      forall v, x | Small(v) && Small(x) ensures MakeTrieKey(u, v) != MakeTrieKey(w, x) {
        TrieKeyInjective(u, v, w, x);
      }
    }
  }

  /** Without the bound on versions no extension is safe: a user followed by any byte c has, at version 256 v, the
      key of the user itself at version c * 2^56 + v. */
  lemma {:induction false} TrieKeysCollide(u: User, c: Byte, v: nat)
    requires |u| + 9 <= 32 && v < Bound(7)
    ensures MakeTrieKey(u, c * Bound(7) + v) == MakeTrieKey(u + [c], 256 * v)
  {
    LeadingByte(c, v, 7);
    LastByte(v, 0, 7);
    assert Padding(24 - |u|) == [0] + Padding(23 - |u|);
    assert MakeTrieKey(u, c * Bound(7) + v) == u + ([c] + BigEndian(v, 7)) + ([0] + Padding(23 - |u|));
  }
}
