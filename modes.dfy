/** The block-cipher modes of GOST R 34.13-2015 and RFC 8645 as pure functions
    over an abstract block transform, with the properties the modes promise. */
module Modes {
  import opened Octets

  /** A single-block transform under a key: (key, block) -> block. */
  type Transform = (Bytes, Bytes) -> Bytes

  /** Both Magma and Kuznechik take 256-bit keys. */
  const KeyLength: nat := 32

  /** f maps n-byte blocks to n-byte blocks under every key. */
  ghost predicate Preserves(n: nat, f: Transform) {
    forall k: Bytes, x: Bytes :: |x| == n ==> |f(k, x)| == n
  }

  /** enc and dec are a block cipher on n-byte blocks: dec undoes enc under the same key. */
  ghost predicate ValidCipher(n: nat, enc: Transform, dec: Transform) {
    && BlockSize(n)
    && Preserves(n, enc)
    && Preserves(n, dec)
    && forall k: Bytes, x: Bytes {:trigger dec(k, enc(k, x))} :: |x| == n ==> dec(k, enc(k, x)) == x
  }

  /** len bytes are a whole number of n-byte blocks. */
  predicate WholeBlocks(len: nat, n: nat)
    requires n > 0
    decreases len
  {
    if len < n then len == 0 else WholeBlocks(len - n, n)
  }

  /** WholeBlocks is divisibility. */
  lemma {:induction false} WholeBlocksMod(len: nat, n: nat)
    requires n > 0
    ensures WholeBlocks(len, n) <==> len % n == 0
    decreases len
  {
    if len < n {
      DivUnique(len, n, 0, len);
    } else {
      WholeBlocksMod(len - n, n);
      DivUnique(len, n, (len - n) / n + 1, (len - n) % n);
    }
  }

  /** The number of whole n-byte blocks in len bytes. */
  function Blocks(len: nat, n: nat): (r: nat)
    requires n > 0
    decreases len
  {
    if len < n then 0 else 1 + Blocks(len - n, n)
  }

  lemma {:induction false} BlocksValue(len: nat, n: nat)
    requires n > 0
    ensures Blocks(len, n) == len / n
    decreases len
  {
    if len < n {
      DivUnique(len, n, 0, len);
    } else {
      BlocksValue(len - n, n);
      DivUnique(len, n, (len - n) / n + 1, (len - n) % n);
    }
  }

  /** Whole blocks followed by more data: the block counts add up. */
  lemma {:induction false} BlocksAdd(a: nat, b: nat, n: nat)
    requires n > 0 && WholeBlocks(a, n)
    ensures Blocks(a + b, n) == Blocks(a, n) + Blocks(b, n)
    decreases a
  {
    if a > 0 {
      BlocksAdd(a - n, b, n);
      assert a + b - n == (a - n) + b;
    }
  }

  /** After whole blocks, more data is whole blocks exactly when it is on its own. */
  lemma {:induction false} WholeBlocksShift(a: nat, b: nat, n: nat)
    requires n > 0 && WholeBlocks(a, n)
    ensures WholeBlocks(a + b, n) <==> WholeBlocks(b, n)
    decreases a
  {
    if a > 0 {
      WholeBlocksShift(a - n, b, n);
      assert a + b - n == (a - n) + b;
    }
  }

  // ---------------------------------------------------------------------------
  // ECB, section 5.1 of GOST R 34.13-2015

  /** Each n-byte block of data transformed independently. */
  function Ecb(f: Transform, k: Bytes, n: nat, data: Bytes): (r: Bytes)
    requires n > 0 && Preserves(n, f) && WholeBlocks(|data|, n)
    ensures |r| == |data|
    decreases |data|
  {
    if |data| == 0 then []
    else
      f(k, data[..n]) + Ecb(f, k, n, data[n..])
  }

  /** ECB decryption undoes ECB encryption under the same key. */
  lemma {:induction false} EcbRoundTrip(enc: Transform, dec: Transform, k: Bytes, n: nat, data: Bytes)
    requires ValidCipher(n, enc, dec) && WholeBlocks(|data|, n)
    ensures Ecb(dec, k, n, Ecb(enc, k, n, data)) == data
    decreases |data|
  {
    if |data| > 0 {
      var c := Ecb(enc, k, n, data);
      assert c[..n] == enc(k, data[..n]);
      assert c[n..] == Ecb(enc, k, n, data[n..]);
      EcbRoundTrip(enc, dec, k, n, data[n..]);
      assert data == data[..n] + data[n..];
    }
  }

  // ---------------------------------------------------------------------------
  // Counter-mode keystream, section 5.2 of GOST R 34.13-2015 (counter step
  // Increment) and the MGM encryption of section 4 of RFC 9058 (counter step IncrRight)

  /** Block by block: the block XORed with the encrypted counter, truncated for a
      final partial block, the counter then advanced by one step. */
  function Ctr(f: Transform, k: Bytes, n: nat, next: Bytes -> Bytes, ctr: Bytes, data: Bytes): (r: Bytes)
    requires n > 0 && Preserves(n, f) && Keeps(next) && |ctr| == n
    ensures |r| == |data|
    decreases |data|
  {
    if |data| == 0 then []
    else if |data| < n then Xor(data, f(k, ctr)[..|data|])
    else Xor(data[..n], f(k, ctr)) + Ctr(f, k, n, next, next(ctr), data[n..])
  }

  /** Encryption and decryption are the same operation: applying it twice with the
      same key and counter restores the data, for any data length. */
  lemma {:induction false} CtrInvolution(f: Transform, k: Bytes, n: nat, next: Bytes -> Bytes, ctr: Bytes, data: Bytes)
    requires n > 0 && Preserves(n, f) && Keeps(next) && |ctr| == n
    ensures Ctr(f, k, n, next, ctr, Ctr(f, k, n, next, ctr, data)) == data
    decreases |data|
  {
    var c := Ctr(f, k, n, next, ctr, data);
    var g := f(k, ctr);
    if 0 < |data| < n {
      XorCancel(data, g[..|data|]);
    } else if |data| >= n {
      assert c[..n] == Xor(data[..n], g);
      assert c[n..] == Ctr(f, k, n, next, next(ctr), data[n..]);
      XorCancel(data[..n], g);
      CtrInvolution(f, k, n, next, next(ctr), data[n..]);
      assert data == data[..n] + data[n..];
    }
  }

  /** Processing whole blocks x and then y is processing x + y: the counter is
      simply as many steps further on as x has blocks. */
  lemma {:induction false} CtrConcat(f: Transform, k: Bytes, n: nat, next: Bytes -> Bytes, ctr: Bytes, x: Bytes, y: Bytes)
    requires n > 0 && Preserves(n, f) && Keeps(next) && |ctr| == n && WholeBlocks(|x|, n)
    ensures Ctr(f, k, n, next, ctr, x + y)
         == Ctr(f, k, n, next, ctr, x) + Ctr(f, k, n, next, Iterate(next, ctr, Blocks(|x|, n)), y)
    decreases |x|, 1
  {
    if |x| == 0 {
      assert x + y == y;
    } else {
      CtrConcatStep(f, k, n, next, ctr, x, y);
    }
  }

  lemma {:induction false} CtrConcatStep(f: Transform, k: Bytes, n: nat, next: Bytes -> Bytes, ctr: Bytes, x: Bytes, y: Bytes)
    requires n > 0 && Preserves(n, f) && Keeps(next) && |ctr| == n && WholeBlocks(|x|, n) && |x| > 0
    ensures Ctr(f, k, n, next, ctr, x + y)
         == Ctr(f, k, n, next, ctr, x) + Ctr(f, k, n, next, Iterate(next, ctr, Blocks(|x|, n)), y)
    decreases |x|, 0
  {
    var c1, head, rest := next(ctr), Xor(x[..n], f(k, ctr)), x[n..];
    assert (x + y)[..n] == x[..n];
    assert (x + y)[n..] == rest + y;
    CtrUnfold(f, k, n, next, ctr, x + y);
    CtrUnfold(f, k, n, next, ctr, x);
    var m := Blocks(|rest|, n);
    BlocksStep(|x|, n);
    assert Iterate(next, ctr, 1 + m) == Iterate(next, c1, m);
    var a, b := Ctr(f, k, n, next, c1, rest), Ctr(f, k, n, next, Iterate(next, ctr, Blocks(|x|, n)), y);
    assert Ctr(f, k, n, next, c1, rest + y) == a + b by {
      CtrConcat(f, k, n, next, c1, rest, y);
    }
    AppendAssoc(head, a, b);
  }

  lemma BlocksStep(len: nat, n: nat)
    requires n > 0 && len >= n
    ensures Blocks(len, n) == 1 + Blocks(len - n, n)
  {
  }

  /** Data of at least one block: the first block, then the rest under the next counter. */
  lemma CtrUnfold(f: Transform, k: Bytes, n: nat, next: Bytes -> Bytes, ctr: Bytes, d: Bytes)
    requires n > 0 && Preserves(n, f) && Keeps(next) && |ctr| == n && |d| >= n
    ensures Ctr(f, k, n, next, ctr, d) == Xor(d[..n], f(k, ctr)) + Ctr(f, k, n, next, next(ctr), d[n..])
  {
  }

  /** Keystream block i (the block after the whole blocks x; i = Blocks(|x|, n),
      which is |x| / n by BlocksValue) is the encryption of the counter advanced i steps. */
  lemma CtrBlock(f: Transform, k: Bytes, n: nat, next: Bytes -> Bytes, ctr: Bytes, x: Bytes, b: Bytes, z: Bytes)
    requires n > 0 && Preserves(n, f) && Keeps(next) && |ctr| == n && WholeBlocks(|x|, n) && |b| == n
    ensures Ctr(f, k, n, next, ctr, x + b + z)[|x|..|x| + n] == Xor(b, f(k, Iterate(next, ctr, Blocks(|x|, n))))
  {
    assert x + b + z == x + (b + z);
    CtrConcat(f, k, n, next, ctr, x, b + z);
    assert (b + z)[..n] == b;
  }

  /** The counter of GOST R 34.13-2015 starts at IV || 0^(n/2); after j steps its
      value is IV * 2^(n/2) + j modulo 2^n. */
  lemma CtrCounterValue(iv: Bytes, h: nat, j: nat)
    ensures ToNat(Iterate(Increment, iv + Zeros(h), j)) == (ToNat(iv) * Pow256(h) + j) % Pow256(|iv| + h)
  {
    IterateIncrementValue(iv + Zeros(h), j);
    ToNatZeroSuffix(iv, h);
  }

  // ---------------------------------------------------------------------------
  // ACPKM key evolution and CTR-ACPKM, sections 6.2.1 and 6.2.2 of RFC 8645

  /** The constants D_1 || ... || D_J of section 6.2.1 of RFC 8645: the 32 bytes 0x80 .. 0x9F. */
  const AcpkmD: Bytes := [
    0x80, 0x81, 0x82, 0x83, 0x84, 0x85, 0x86, 0x87, 0x88, 0x89, 0x8A, 0x8B, 0x8C, 0x8D, 0x8E, 0x8F,
    0x90, 0x91, 0x92, 0x93, 0x94, 0x95, 0x96, 0x97, 0x98, 0x99, 0x9A, 0x9B, 0x9C, 0x9D, 0x9E, 0x9F]

  /** The next section key: the encryption of D_1 .. D_J under the current key,
      which is exactly a key length long. */
  function NextKey(f: Transform, k: Bytes, n: nat): (r: Bytes)
    requires BlockSize(n) && Preserves(n, f)
    ensures |r| == KeyLength
  {
    KeyWholeBlocks(n);
    Ecb(f, k, n, AcpkmD)
  }

  lemma KeyWholeBlocks(n: nat)
    requires BlockSize(n)
    ensures WholeBlocks(KeyLength, n)
  {
    WholeBlocksMod(KeyLength, n);
  }

  /** The key schedule of CTR-ACPKM as a step on keys. */
  function Evolution(f: Transform, n: nat): (r: Bytes -> Bytes)
    requires BlockSize(n) && Preserves(n, f)
    ensures ToKeys(r)
  {
    k => NextKey(f, k, n)
  }

  /** Every key g produces is a key length long. */
  ghost predicate ToKeys(g: Bytes -> Bytes) {
    forall x: Bytes :: |g(x)| == KeyLength
  }

  /** CTR-ACPKM: the data cut into sections of `section` bytes; each section is
      counter-mode encrypted under its own key and the counter runs on across
      sections; the key steps by `evolve` (Evolution(f, n) in the standard)
      between two sections. */
  function CtrAcpkm(f: Transform, evolve: Bytes -> Bytes, k: Bytes, n: nat, section: nat, ctr: Bytes, data: Bytes): (r: Bytes)
    requires n > 0 && Preserves(n, f) && |ctr| == n && section > 0
    ensures |r| == |data|
    decreases |data|
  {
    if |data| <= section then Ctr(f, k, n, Increment, ctr, data)
    else
      Ctr(f, k, n, Increment, ctr, data[..section])
        + CtrAcpkm(f, evolve, evolve(k), n, section, Iterate(Increment, ctr, Blocks(section, n)), data[section..])
  }

  /** The key left in place once `len` bytes have been processed by CTR-ACPKM:
      one evolution per section boundary crossed, none after the last section. */
  function AcpkmKeyAfter(evolve: Bytes -> Bytes, k: Bytes, section: nat, len: nat): (r: Bytes)
    requires section > 0
    ensures ToKeys(evolve) && |k| == KeyLength ==> |r| == KeyLength
    decreases len
  {
    if len <= section then k else AcpkmKeyAfter(evolve, evolve(k), section, len - section)
  }

  /** A whole section and more to come: the key is evolved once. */
  lemma AcpkmKeyAfterStep(evolve: Bytes -> Bytes, k: Bytes, section: nat, len: nat)
    requires 0 < section < len
    ensures AcpkmKeyAfter(evolve, k, section, len) == AcpkmKeyAfter(evolve, evolve(k), section, len - section)
  {
  }

  /** The key after a message of len > 0 bytes is the key evolved once per whole
      section before the last byte. */
  lemma {:induction false} AcpkmKeyAfterCount(evolve: Bytes -> Bytes, k: Bytes, section: nat, len: nat)
    requires section > 0 && len > 0
    ensures AcpkmKeyAfter(evolve, k, section, len) == Iterate(evolve, k, Blocks(len - 1, section))
    decreases len
  {
    if len > section {
      AcpkmKeyAfterCount(evolve, evolve(k), section, len - section);
      assert len - section - 1 == (len - 1) - section;
    }
  }

  /** The output so far followed by CTR-ACPKM of the rest: one section further on,
      under the next key and the advanced counter. */
  lemma CtrAcpkmStep(f: Transform, evolve: Bytes -> Bytes, k: Bytes, n: nat, section: nat, ctr: Bytes, rest: Bytes,
                     out: Bytes, o: Bytes, next: Bytes, total: Bytes)
    requires n > 0 && Preserves(n, f) && |ctr| == n && section > 0 && |rest| > section
    requires out + CtrAcpkm(f, evolve, k, n, section, ctr, rest) == total
    requires o == Ctr(f, k, n, Increment, ctr, rest[..section])
    requires next == Iterate(Increment, ctr, Blocks(section, n))
    ensures (out + o) + CtrAcpkm(f, evolve, evolve(k), n, section, next, rest[section..]) == total
  {
    var tail := CtrAcpkm(f, evolve, evolve(k), n, section, next, rest[section..]);
    assert CtrAcpkm(f, evolve, k, n, section, ctr, rest) == o + tail;
    assert out + (o + tail) == (out + o) + tail;
  }

  /** A whole section moves the counter on by the blocks of the section. */
  lemma AcpkmCounterStep(ctr: Bytes, n: nat, section: nat, len: nat)
    requires n > 0 && WholeBlocks(section, n) && len >= section
    ensures Iterate(Increment, Iterate(Increment, ctr, Blocks(section, n)), Blocks(len - section, n))
         == Iterate(Increment, ctr, Blocks(len, n))
  {
    IterateAdd(Increment, ctr, Blocks(section, n), Blocks(len - section, n));
    BlocksAdd(section, len - section, n);
    assert section + (len - section) == len;
  }

  /** One section of a loop over CTR-ACPKM: the key reached at the end of the
      data is the same from the evolved key over the rest. */
  lemma AcpkmKeyRemainder(evolve: Bytes -> Bytes, k: Bytes, k0: Bytes, section: nat,
                          len: nat, total: nat, k': Bytes, len': nat)
    requires 0 < section < len && k' == evolve(k) && len' == len - section
    requires AcpkmKeyAfter(evolve, k, section, len) == AcpkmKeyAfter(evolve, k0, section, total)
    ensures AcpkmKeyAfter(evolve, k', section, len') == AcpkmKeyAfter(evolve, k0, section, total)
  {
    AcpkmKeyAfterStep(evolve, k, section, len);
  }

  /** One pass of a loop computing CTR-ACPKM section by section: after plain CTR
      over the first section (output o, counter next) and the evolution of the key
      to k', what remains to be output, the key at the end and the counter at the
      end are the same as before the pass. */
  lemma AcpkmLoopStep(f: Transform, evolve: Bytes -> Bytes, k: Bytes, k0: Bytes, n: nat, section: nat,
                      ctr: Bytes, c: Bytes, rest: Bytes, len: nat, out: Bytes, total: Bytes,
                      o: Bytes, next: Bytes, k': Bytes)
    requires n > 0 && Preserves(n, f) && |ctr| == n && section > 0 && WholeBlocks(section, n) && |rest| > section
    requires out + CtrAcpkm(f, evolve, k, n, section, ctr, rest) == total
    requires AcpkmKeyAfter(evolve, k, section, |rest|) == AcpkmKeyAfter(evolve, k0, section, len)
    requires Iterate(Increment, ctr, Blocks(|rest|, n)) == Iterate(Increment, c, Blocks(len, n))
    requires o == Ctr(f, k, n, Increment, ctr, rest[..section])
    requires next == Iterate(Increment, ctr, Blocks(|rest[..section]|, n))
    requires k' == evolve(k)
    ensures (out + o) + CtrAcpkm(f, evolve, k', n, section, next, rest[section..]) == total
    ensures AcpkmKeyAfter(evolve, k', section, |rest[section..]|) == AcpkmKeyAfter(evolve, k0, section, len)
    ensures Iterate(Increment, next, Blocks(|rest[section..]|, n)) == Iterate(Increment, c, Blocks(len, n))
  {
    var rest' := rest[section..];
    assert |rest[..section]| == section && |rest'| == |rest| - section;
    CtrAcpkmStep(f, evolve, k, n, section, ctr, rest, out, o, next, total);
    AcpkmKeyRemainder(evolve, k, k0, section, |rest|, len, k', |rest'|);
    BlocksAdd(section, |rest'|, n);
    IterateRemainder(Increment, ctr, c, Blocks(section, n), Blocks(|rest'|, n), Blocks(|rest|, n), Blocks(len, n), next);
  }

  /** The output section data[p..e] (p a multiple of the section length; e the end
      of that section, or the end of the data when the last section is cut short)
      is plain counter mode of the same input bytes under the key evolved
      i = Blocks(p, section) times (BlocksValue: i = p / section), with the counter
      not reset but Blocks(p, n) steps on; section 0 in particular is plain
      counter mode under the original key. */
  lemma {:induction false} CtrAcpkmSection(f: Transform, evolve: Bytes -> Bytes, k: Bytes, n: nat, section: nat, ctr: Bytes, data: Bytes, p: nat, e: nat)
    requires n > 0 && Preserves(n, f) && |ctr| == n && section > 0 && WholeBlocks(section, n)
    requires WholeBlocks(p, section) && p < e <= |data| && e <= p + section && (e == p + section || e == |data|)
    ensures CtrAcpkm(f, evolve, k, n, section, ctr, data)[p..e]
         == Ctr(f, Iterate(evolve, k, Blocks(p, section)), n, Increment, Iterate(Increment, ctr, Blocks(p, n)), data[p..e])
    decreases p, 1
  {
    if p == 0 {
      CtrAcpkmFirst(f, evolve, k, n, section, ctr, data, e);
    } else {
      CtrAcpkmSectionStep(f, evolve, k, n, section, ctr, data, p, e);
    }
  }

  /** The first section is plain counter mode. */
  lemma CtrAcpkmFirst(f: Transform, evolve: Bytes -> Bytes, k: Bytes, n: nat, section: nat, ctr: Bytes, data: Bytes, e: nat)
    requires n > 0 && Preserves(n, f) && |ctr| == n && section > 0
    requires 0 < e <= |data| && e <= section && (e == section || e == |data|)
    ensures CtrAcpkm(f, evolve, k, n, section, ctr, data)[..e] == Ctr(f, k, n, Increment, ctr, data[..e])
  {
    if |data| <= section {
      assert data[..e] == data;
    }
  }

  lemma {:induction false} CtrAcpkmSectionStep(f: Transform, evolve: Bytes -> Bytes, k: Bytes, n: nat, section: nat, ctr: Bytes, data: Bytes, p: nat, e: nat)
    requires n > 0 && Preserves(n, f) && |ctr| == n && section > 0 && WholeBlocks(section, n)
    requires WholeBlocks(p, section) && p < e <= |data| && e <= p + section && (e == p + section || e == |data|)
    requires p > 0
    ensures CtrAcpkm(f, evolve, k, n, section, ctr, data)[p..e]
         == Ctr(f, Iterate(evolve, k, Blocks(p, section)), n, Increment, Iterate(Increment, ctr, Blocks(p, n)), data[p..e])
    decreases p, 0
  {
    var c', t := Iterate(Increment, ctr, Blocks(section, n)), data[section..];
    var q, e' := p - section, e - section;
    CtrAcpkmShift(f, evolve, k, n, section, ctr, data, p, e);
    var kr, cr := Iterate(evolve, evolve(k), Blocks(q, section)), Iterate(Increment, c', Blocks(q, n));
    var K, C := Iterate(evolve, k, Blocks(p, section)), Iterate(Increment, ctr, Blocks(p, n));
    assert CtrAcpkm(f, evolve, evolve(k), n, section, c', t)[q..e'] == Ctr(f, kr, n, Increment, cr, t[q..e']) by {
      CtrAcpkmSection(f, evolve, evolve(k), n, section, c', t, q, e');
    }
    assert kr == K by {
      BlocksStep(p, section);
    }
    assert cr == C by {
      AcpkmCounterStep(ctr, n, section, p);
    }
  }

  /** Past the first section, output and input bytes p .. e are bytes
      p - section .. e - section of the rest after the first section. */
  lemma CtrAcpkmShift(f: Transform, evolve: Bytes -> Bytes, k: Bytes, n: nat, section: nat, ctr: Bytes, data: Bytes, p: nat, e: nat)
    requires n > 0 && Preserves(n, f) && |ctr| == n && 0 < section <= p < e <= |data|
    ensures CtrAcpkm(f, evolve, k, n, section, ctr, data)[p..e]
         == CtrAcpkm(f, evolve, evolve(k), n, section, Iterate(Increment, ctr, Blocks(section, n)), data[section..])[p - section..e - section]
    ensures data[section..][p - section..e - section] == data[p..e]
  {
    var head := Ctr(f, k, n, Increment, ctr, data[..section]);
    var tail := CtrAcpkm(f, evolve, evolve(k), n, section, Iterate(Increment, ctr, Blocks(section, n)), data[section..]);
    assert CtrAcpkm(f, evolve, k, n, section, ctr, data) == head + tail;
    SliceAfter(head, tail, section, p, e);
    SliceOfDrop(data, section, p, e);
  }

  /** A slice of the suffix from a is a slice of the whole. */
  lemma SliceOfDrop(s: Bytes, a: nat, p: nat, e: nat)
    requires a <= p <= e <= |s|
    ensures s[a..][p - a..e - a] == s[p..e]
  {
  }

  /** A slice of h + t beyond h (of length a) is a slice of t. */
  lemma SliceAfter(h: Bytes, t: Bytes, a: nat, p: nat, e: nat)
    requires |h| == a <= p <= e <= a + |t|
    ensures (h + t)[p..e] == t[p - a..e - a]
  {
  }

  // ---------------------------------------------------------------------------
  // OMAC, section 5.6 of GOST R 34.13-2015

  /** The block shifted left by one bit, `carry` entering at the bottom; the top bit is lost. */
  function ShiftIn(b: Bytes, carry: bv8): (r: Bytes)
    ensures |r| == |b|
  {
    if |b| == 0 then []
    else ShiftIn(b[..|b| - 1], b[|b| - 1] >> 7) + [(b[|b| - 1] << 1) | carry]
  }

  function ShiftLeft(b: Bytes): (r: Bytes)
    ensures |r| == |b|
  {
    ShiftIn(b, 0)
  }

  /** The bit that falls off the top when b is shifted left with `carry` coming in. */
  function OutBit(b: Bytes, carry: bv8): (r: nat)
    requires carry <= 1
    ensures r <= 1
  {
    if |b| == 0 then carry as int else (b[0] >> 7) as int
  }

  /** On values the shift is doubling: twice b plus the carry is the shifted
      value plus the bit that fell off the top, worth 2^(8|b|). */
  lemma {:induction false} ShiftInValue(b: Bytes, carry: bv8)
    requires carry <= 1
    ensures ToNat(ShiftIn(b, carry)) + (if OutBit(b, carry) == 1 then Pow256(|b|) else 0) == 2 * ToNat(b) + carry as int
    decreases |b|
  {
    if |b| > 0 {
      ShiftInValue(b[..|b| - 1], b[|b| - 1] >> 7);
      ShiftInValueStep(b, carry);
    }
  }

  /** The induction step of ShiftInValue, from the bytes before the last one. */
  lemma ShiftInValueStep(b: Bytes, carry: bv8)
    requires carry <= 1 && |b| > 0
    requires var p, c := b[..|b| - 1], b[|b| - 1] >> 7;
      c <= 1 && ToNat(ShiftIn(p, c)) + (if OutBit(p, c) == 1 then Pow256(|p|) else 0) == 2 * ToNat(p) + c as int
    ensures ToNat(ShiftIn(b, carry)) + (if OutBit(b, carry) == 1 then Pow256(|b|) else 0) == 2 * ToNat(b) + carry as int
  {
    var p, x := b[..|b| - 1], b[|b| - 1];
    ShiftInLast(b, carry);
    var c' := x >> 7;
    OutBitLast(b, carry);
    ShiftStep(ToNat(ShiftIn(b, carry)), ToNat(ShiftIn(p, c')), (2 * (x as int)) % 256 + carry as int, ToNat(b),
              ToNat(p), x as int, c' as int, carry as int, OutBit(p, c'), Pow256(|p|), Pow256(|b|));
  }

  /** The bit shifted out of b is the one shifted out of its bytes before the last. */
  lemma OutBitLast(b: Bytes, carry: bv8)
    requires carry <= 1 && |b| > 0
    ensures b[|b| - 1] >> 7 <= 1 && OutBit(b, carry) == OutBit(b[..|b| - 1], b[|b| - 1] >> 7)
  {
    ByteTop(b[|b| - 1]);
    if |b| > 1 {
      assert b[0] == b[..|b| - 1][0];
    }
  }

  /** ShiftIn through the last byte x of b, stated on values. */
  lemma ShiftInLast(b: Bytes, carry: bv8)
    requires carry <= 1 && |b| > 0
    ensures var x := b[|b| - 1];
      && x >> 7 <= 1 && (x >> 7) as int == x as int / 128
      && ToNat(ShiftIn(b, carry)) == ToNat(ShiftIn(b[..|b| - 1], x >> 7)) * 256 + ((2 * (x as int)) % 256 + carry as int)
  {
    var x := b[|b| - 1];
    ByteTop(x);
    ByteShiftIn(x, carry);
    ToNatSnoc(ShiftIn(b[..|b| - 1], x >> 7), (x << 1) | carry);
  }

  /** The arithmetic of one ShiftInValue step. */
  lemma ShiftStep(s: int, sp: int, y: int, t: int, tp: int, x: nat, c: nat, carry: nat, o: nat, m: nat, mb: nat)
    requires x < 256 && c == x / 128 && mb == 256 * m
    requires s == sp * 256 + y && y == (2 * x) % 256 + carry && t == tp * 256 + x
    requires sp + (if o == 1 then m else 0) == 2 * tp + c
    ensures s + (if o == 1 then mb else 0) == 2 * t + carry
  {
    assert 2 * x == 256 * c + (2 * x) % 256;
  }

  /** The OMAC subkey step on values: K = 2R with the top bit of R shifted out,
      then xor B_n when that bit was set; it is applied to R = E(0^n) for K1 and
      to K1 for K2. */
  lemma SubkeyValue(b: Bytes)
    requires |b| > 0
    ensures ToNat(ShiftLeft(b)) + (if b[0] >> 7 == 1 then Pow256(|b|) else 0) == 2 * ToNat(b)
    ensures (b[0] >> 7 == 0) == (b[0] & 0x80 == 0)
    ensures Subkey(b) == if b[0] & 0x80 == 0 then ShiftLeft(b) else Xor(ShiftLeft(b), OmacConst(|b|))
  {
    ShiftInValue(b, 0);
    ByteTopMask(b[0]);
  }

  /** B_n: 0^59 || 11011 for 64-bit blocks, 0^120 || 10000111 for 128-bit blocks. */
  function OmacConst(n: nat): (r: Bytes)
    requires n > 0
    ensures |r| == n
  {
    Zeros(n - 1) + [if n == 8 then 0x1B else 0x87]
  }

  /** One subkey derivation: R << 1 when the top bit of R is 0, otherwise (R << 1) xor B_n. */
  function Subkey(b: Bytes): (r: Bytes)
    requires |b| > 0
    ensures |r| == |b|
  {
    if b[0] & 0x80 == 0 then ShiftLeft(b) else Xor(ShiftLeft(b), OmacConst(|b|))
  }

  /** K1 is derived from R = E(0^n), K2 from K1. */
  function OmacK1(f: Transform, k: Bytes, n: nat): (r: Bytes)
    requires n > 0 && Preserves(n, f)
    ensures |r| == n
  {
    Subkey(f(k, Zeros(n)))
  }

  function OmacK2(f: Transform, k: Bytes, n: nat): (r: Bytes)
    requires n > 0 && Preserves(n, f)
    ensures |r| == n
  {
    Subkey(OmacK1(f, k, n))
  }

  /** The padding of a short last block: the bit 1 followed by zero bits. */
  function OmacPad(x: Bytes, n: nat): (r: Bytes)
    requires |x| < n
    ensures |r| == n
  {
    x + [0x80] + Zeros(n - |x| - 1)
  }

  /** Removal of the padding: trailing zero bytes dropped, then the 0x80 byte
      before them (any other last non-zero byte is dropped as well). */
  function Unpad(p: Bytes): (r: Bytes)
    ensures |r| <= |p|
  {
    if |p| == 0 then []
    else if p[|p| - 1] == 0 then Unpad(p[..|p| - 1])
    else p[..|p| - 1]
  }

  /** Unpad undoes the padding of any short block. */
  lemma {:induction false} UnpadPad(x: Bytes, k: nat)
    ensures Unpad(x + [0x80] + Zeros(k)) == x
  {
    var p := x + [0x80] + Zeros(k);
    if k == 0 {
      assert p[..|p| - 1] == x;
    } else {
      assert p[|p| - 1] == 0;
      assert p[..|p| - 1] == x + [0x80] + Zeros(k - 1);
      UnpadPad(x, k - 1);
    }
  }

  /** The padding is unambiguous: two short blocks with the same padded form are equal. */
  lemma OmacPadInjective(x: Bytes, y: Bytes, n: nat)
    requires |x| < n && |y| < n && OmacPad(x, n) == OmacPad(y, n)
    ensures x == y
  {
    UnpadPad(x, n - |x| - 1);
    UnpadPad(y, n - |y| - 1);
  }

  /** The last step: a full last block is masked with K1, a short (or empty) one is
      padded and masked with K2. */
  function OmacLast(f: Transform, k: Bytes, n: nat, c: Bytes, last: Bytes): (r: Bytes)
    requires n > 0 && Preserves(n, f) && |c| == n && |last| <= n
    ensures |r| == n
  {
    if |last| == n then f(k, Xor(Xor(c, last), OmacK1(f, k, n)))
    else f(k, Xor(Xor(c, OmacPad(last, n)), OmacK2(f, k, n)))
  }

  /** The chaining value c carried over msg, the last (possibly partial) block kept back. */
  function OmacChain(f: Transform, k: Bytes, n: nat, c: Bytes, msg: Bytes): (r: Bytes)
    requires n > 0 && Preserves(n, f) && |c| == n
    ensures |r| == n
    decreases |msg|
  {
    if |msg| <= n then OmacLast(f, k, n, c, msg)
    else OmacChain(f, k, n, f(k, Xor(c, msg[..n])), msg[n..])
  }

  /** The OMAC tag of msg: one block long. */
  function Omac(f: Transform, k: Bytes, n: nat, msg: Bytes): (r: Bytes)
    requires n > 0 && Preserves(n, f)
    ensures |r| == n
  {
    OmacChain(f, k, n, Zeros(n), msg)
  }

  /** Plain CBC chaining over whole blocks: C_i = E(P_i xor C_(i-1)). */
  function Cbc(f: Transform, k: Bytes, n: nat, c: Bytes, x: Bytes): (r: Bytes)
    requires n > 0 && Preserves(n, f) && |c| == n && WholeBlocks(|x|, n)
    ensures |r| == n
    decreases |x|
  {
    if |x| == 0 then c
    else
      Cbc(f, k, n, f(k, Xor(c, x[..n])), x[n..])
  }

  lemma {:induction false} OmacChainSplit(f: Transform, k: Bytes, n: nat, c: Bytes, x: Bytes, last: Bytes)
    requires n > 0 && Preserves(n, f) && |c| == n && WholeBlocks(|x|, n) && 0 < |last| <= n
    ensures OmacChain(f, k, n, c, x + last) == OmacLast(f, k, n, Cbc(f, k, n, c, x), last)
    decreases |x|
  {
    if |x| == 0 {
      assert x + last == last;
    } else {
      assert (x + last)[..n] == x[..n];
      assert (x + last)[n..] == x[n..] + last;
      OmacChainSplit(f, k, n, f(k, Xor(c, x[..n])), x[n..], last);
    }
  }

  /** The formula of the standard: the tag is E(P_q xor C_(q-1) xor K1) when the last
      block P_q is full and E(pad(P_q) xor C_(q-1) xor K2) when it is short, where
      C_(q-1) chains all the blocks before it; the empty message is one padded block. */
  lemma OmacFormula(f: Transform, k: Bytes, n: nat, x: Bytes, last: Bytes)
    requires n > 0 && Preserves(n, f) && WholeBlocks(|x|, n)
    requires 0 < |last| <= n || (x == [] && last == [])
    ensures |last| == n ==>
      Omac(f, k, n, x + last) == f(k, Xor(Xor(Cbc(f, k, n, Zeros(n), x), last), OmacK1(f, k, n)))
    ensures |last| < n ==>
      Omac(f, k, n, x + last) == f(k, Xor(Xor(Cbc(f, k, n, Zeros(n), x), OmacPad(last, n)), OmacK2(f, k, n)))
  {
    if last == [] {
      assert x + last == [];
    } else {
      OmacChainSplit(f, k, n, Zeros(n), x, last);
    }
  }
}
