/** The MGM authenticated-encryption mode of RFC 9058, section 4, as pure
    functions: the whole-message ciphertext and tag, and the state machine of the
    streaming interface (clean, update, finalize) whose steps the context object
    of module Mgm performs in place. */
module MgmSpec {
  import opened Octets
  import opened Status
  import opened Modes

  /** Multiplication in GF(2^n) of two n-byte blocks, kept abstract. */
  type Mul = (Bytes, Bytes) -> Bytes

  /** The product of two blocks of one length is a block of that length. */
  ghost predicate FieldMul(gf: Mul) {
    forall a: Bytes, b: Bytes :: |a| == |b| ==> |gf(a, b)| == |a|
  }

  /** Lengths of A and of C are each written in n/2 bytes, so each bit count must
      stay below 256^(n/2). */
  function MaxBits(n: nat): (r: nat)
    ensures r >= 1
  {
    Pow256(n / 2)
  }

  /** The IV as a block: a short IV is preceded by zero bytes, so that the
      leading bit, which carries the marker of Nonce, belongs to the IV only when
      the IV fills the whole block. */
  function IvBlock(iv: Bytes, n: nat): (r: Bytes)
    requires |iv| <= n
    ensures |r| == n && r[n - |iv|..] == iv && r[..n - |iv|] == Zeros(n - |iv|)
  {
    Zeros(n - |iv|) + iv
  }

  /** The initial counter block from the IV: the IV as a block with its leading
      bit replaced by `top` (0 || ICN for Y, 1 || ICN for Z). */
  function Nonce(iv: Bytes, n: nat, top: bool): (r: Bytes)
    requires 0 < |iv| <= n
    ensures |r| == n
    ensures r[0] & 0x80 == (if top then 0x80 else 0)
    ensures r[0] & 0x7F == IvBlock(iv, n)[0] & 0x7F
    ensures r[1..] == IvBlock(iv, n)[1..]
  {
    var b := IvBlock(iv, n);
    [(b[0] & 0x7F) | (if top then 0x80 else 0)] + b[1..]
  }

  /** The Y and Z counters never start from the same block. */
  lemma NonceDistinct(iv: Bytes, n: nat)
    requires 0 < |iv| <= n
    ensures Nonce(iv, n, true) != Nonce(iv, n, false)
  {
    assert Nonce(iv, n, true)[0] & 0x80 != Nonce(iv, n, false)[0] & 0x80;
  }

  /** Distinct IVs of one length start distinct counters: a short IV is kept
      whole, and a full-block IV loses only its leading bit, the (n-1)-bit nonce
      of section 4 of RFC 9058. */
  lemma NonceInjective(iv1: Bytes, iv2: Bytes, n: nat, top: bool)
    requires 0 < |iv1| == |iv2| <= n && Nonce(iv1, n, top) == Nonce(iv2, n, top)
    ensures |iv1| < n ==> iv1 == iv2
    ensures |iv1| == n ==> iv1[1..] == iv2[1..] && iv1[0] & 0x7F == iv2[0] & 0x7F
  {
    var b1, b2, k := IvBlock(iv1, n), IvBlock(iv2, n), n - |iv1|;
    assert b1[1..] == b2[1..];
    assert b1[0] & 0x7F == b2[0] & 0x7F;
    if k > 0 {
      assert iv1 == b1[1..][k - 1..];
      assert iv2 == b2[1..][k - 1..];
    } else {
      assert iv1[1..] == b1[1..];
      assert iv2[1..] == b2[1..];
    }
  }

  /** A short block padded with zero bytes. */
  function Pad(x: Bytes, n: nat): (r: Bytes)
    requires |x| <= n
    ensures |r| == n && r[..|x|] == x
  {
    x + Zeros(n - |x|)
  }

  /** The authentication accumulator: the running sum, the Z counter, and
      whether a short (padded) block has been taken. */
  datatype Acc = Acc(sum: Bytes, z: Bytes, short: bool)

  predicate AccSized(acc: Acc, n: nat) {
    |acc.sum| == n && |acc.z| == n
  }

  /** One authenticated block: sum := sum xor (H_i * block) with H_i = E(Z_i),
      then Z_(i+1) = incr_l(Z_i). */
  function Step(f: Transform, k: Bytes, gf: Mul, n: nat, acc: Acc, block: Bytes): (r: Acc)
    requires Preserves(n, f) && FieldMul(gf) && AccSized(acc, n) && |block| == n
    ensures AccSized(r, n)
  {
    acc.(sum := Xor(acc.sum, gf(f(k, acc.z), block)), z := IncrLeft(acc.z))
  }

  /** Data authenticated block by block, a final short block zero-padded. */
  function Absorb(f: Transform, k: Bytes, gf: Mul, n: nat, acc: Acc, data: Bytes): (r: Acc)
    requires n > 0 && Preserves(n, f) && FieldMul(gf) && AccSized(acc, n)
    ensures AccSized(r, n)
    decreases |data|
  {
    if |data| == 0 then acc
    else if |data| < n then Step(f, k, gf, n, acc, Pad(data, n)).(short := true)
    else Absorb(f, k, gf, n, Step(f, k, gf, n, acc, data[..n]), data[n..])
  }

  /** One whole block taken off the front of the data. */
  lemma AbsorbBlock(f: Transform, k: Bytes, gf: Mul, n: nat, sum: Bytes, z: Bytes, data: Bytes)
    requires n > 0 && Preserves(n, f) && FieldMul(gf) && |sum| == n && |z| == n && |data| >= n
    ensures Absorb(f, k, gf, n, Acc(sum, z, false), data)
         == Absorb(f, k, gf, n, Acc(Xor(sum, gf(f(k, z), data[..n])), IncrLeft(z), false), data[n..])
  {
  }

  /** What remains after the whole blocks: nothing, or a short block padded. */
  lemma AbsorbTail(f: Transform, k: Bytes, gf: Mul, n: nat, sum: Bytes, z: Bytes, data: Bytes)
    requires n > 0 && Preserves(n, f) && FieldMul(gf) && |sum| == n && |z| == n && |data| < n
    ensures |data| == 0 ==> Absorb(f, k, gf, n, Acc(sum, z, false), data) == Acc(sum, z, false)
    ensures |data| > 0 ==>
      Absorb(f, k, gf, n, Acc(sum, z, false), data) == Acc(Xor(sum, gf(f(k, z), Pad(data, n))), IncrLeft(z), true)
  {
  }

  /** One block of an encryption or decryption update: the block authenticated
      is the input block (decrypting) or the ciphertext block (encrypting). */
  lemma CipherBlockStep(f: Transform, k: Bytes, gf: Mul, n: nat, sum: Bytes, z: Bytes, rest: Bytes,
                        block: Bytes, tail: Bytes, decrypting: bool)
    requires n > 0 && Preserves(n, f) && FieldMul(gf) && |sum| == n && |z| == n && |rest| >= n && |block| == n
    ensures var authed := if decrypting then rest[..n] else block;
      Absorb(f, k, gf, n, Acc(sum, z, false), if decrypting then rest else block + tail)
      == Absorb(f, k, gf, n, Acc(Xor(sum, gf(f(k, z), authed)), IncrLeft(z), false), if decrypting then rest[n..] else tail)
  {
    if decrypting {
      AbsorbBlock(f, k, gf, n, sum, z, rest);
    } else {
      assert (block + tail)[..n] == block && (block + tail)[n..] == tail;
      AbsorbBlock(f, k, gf, n, sum, z, block + tail);
    }
  }

  /** One pass of the block loop of an encryption or decryption update keeps
      what remains to be produced and to be authenticated. */
  lemma CipherLoopStep(fe: Transform, ke: Bytes, fa: Transform, ka: Bytes, gf: Mul, n: nat,
                       s: Bytes, y: Bytes, z: Bytes, rest: Bytes, out: Bytes, decrypting: bool)
    requires n > 0 && Preserves(n, fe) && Preserves(n, fa) && FieldMul(gf)
    requires |s| == n && |y| == n && |z| == n && |rest| >= n
    ensures var block := Xor(rest[..n], fe(ke, y));
      var authed := if decrypting then rest[..n] else block;
      var s', y', z', rest' := Xor(s, gf(fa(ka, z), authed)), IncrRight(y), IncrLeft(z), rest[n..];
      && out + Ctr(fe, ke, n, IncrRight, y, rest) == (out + block) + Ctr(fe, ke, n, IncrRight, y', rest')
      && Absorb(fa, ka, gf, n, Acc(s, z, false), if decrypting then rest else Ctr(fe, ke, n, IncrRight, y, rest))
         == Absorb(fa, ka, gf, n, Acc(s', z', false), if decrypting then rest' else Ctr(fe, ke, n, IncrRight, y', rest'))
      && Advance(y, n, |rest|) == Advance(y', n, |rest'|)
  {
    CipherOutStep(fe, ke, n, y, rest, out);
    CipherAuthStep(fe, ke, fa, ka, gf, n, s, y, z, rest, decrypting);
    AdvanceBlock(y, n, |rest|);
  }

  /** The output part of CipherLoopStep: the first block, then the rest from the
      next counter. */
  lemma CipherOutStep(fe: Transform, ke: Bytes, n: nat, y: Bytes, rest: Bytes, out: Bytes)
    requires n > 0 && Preserves(n, fe) && |y| == n && |rest| >= n
    ensures out + Ctr(fe, ke, n, IncrRight, y, rest)
         == (out + Xor(rest[..n], fe(ke, y))) + Ctr(fe, ke, n, IncrRight, IncrRight(y), rest[n..])
  {
    CountersKeep();
    var block := Xor(rest[..n], fe(ke, y));
    var tail := Ctr(fe, ke, n, IncrRight, IncrRight(y), rest[n..]);
    assert Ctr(fe, ke, n, IncrRight, y, rest) == block + tail;
    AppendAssoc(out, block, tail);
  }

  /** The authentication part of CipherLoopStep: the first block is absorbed,
      the rest of the text remains. */
  lemma CipherAuthStep(fe: Transform, ke: Bytes, fa: Transform, ka: Bytes, gf: Mul, n: nat,
                       s: Bytes, y: Bytes, z: Bytes, rest: Bytes, decrypting: bool)
    requires n > 0 && Preserves(n, fe) && Preserves(n, fa) && FieldMul(gf)
    requires |s| == n && |y| == n && |z| == n && |rest| >= n
    ensures var block := Xor(rest[..n], fe(ke, y));
      var authed := if decrypting then rest[..n] else block;
      Absorb(fa, ka, gf, n, Acc(s, z, false), if decrypting then rest else Ctr(fe, ke, n, IncrRight, y, rest))
      == Absorb(fa, ka, gf, n, Acc(Xor(s, gf(fa(ka, z), authed)), IncrLeft(z), false),
                if decrypting then rest[n..] else Ctr(fe, ke, n, IncrRight, IncrRight(y), rest[n..]))
  {
    CountersKeep();
    var block := Xor(rest[..n], fe(ke, y));
    var tail := Ctr(fe, ke, n, IncrRight, IncrRight(y), rest[n..]);
    assert Ctr(fe, ke, n, IncrRight, y, rest) == block + tail;
    CipherBlockStep(fa, ka, gf, n, s, z, rest, block, tail, decrypting);
  }

  /** Authenticating whole blocks x and then y is authenticating x + y. */
  lemma {:induction false} AbsorbConcat(f: Transform, k: Bytes, gf: Mul, n: nat, acc: Acc, x: Bytes, y: Bytes)
    requires n > 0 && Preserves(n, f) && FieldMul(gf) && AccSized(acc, n) && WholeBlocks(|x|, n)
    ensures Absorb(f, k, gf, n, acc, x + y) == Absorb(f, k, gf, n, Absorb(f, k, gf, n, acc, x), y)
    decreases |x|
  {
    if |x| == 0 {
      assert x + y == y;
    } else {
      assert (x + y)[..n] == x[..n];
      assert (x + y)[n..] == x[n..] + y;
      AbsorbConcat(f, k, gf, n, Step(f, k, gf, n, acc, x[..n]), x[n..], y);
    }
  }

  /** A short block was taken exactly when the data is not whole blocks. */
  lemma {:induction false} AbsorbShort(f: Transform, k: Bytes, gf: Mul, n: nat, acc: Acc, data: Bytes)
    requires n > 0 && Preserves(n, f) && FieldMul(gf) && AccSized(acc, n)
    ensures Absorb(f, k, gf, n, acc, data).short == (acc.short || !WholeBlocks(|data|, n))
    decreases |data|
  {
    if |data| >= n {
      AbsorbShort(f, k, gf, n, Step(f, k, gf, n, acc, data[..n]), data[n..]);
    }
  }

  /** The final block: len(A) || len(C), both in bits, each in n/2 bytes. */
  function LenBlock(n: nat, abits: nat, pbits: nat): (r: Bytes)
    ensures |r| == 2 * (n / 2)
    ensures BlockSize(n) ==> |r| == n
  {
    FromNat(abits, n / 2) + FromNat(pbits, n / 2)
  }

  /** Bit counts that fit their fields are recovered from the final block. */
  lemma LenBlockInjective(n: nat, a1: nat, p1: nat, a2: nat, p2: nat)
    requires a1 < MaxBits(n) && p1 < MaxBits(n) && a2 < MaxBits(n) && p2 < MaxBits(n)
    requires LenBlock(n, a1, p1) == LenBlock(n, a2, p2)
    ensures a1 == a2 && p1 == p2
  {
    var h := n / 2;
    assert FromNat(a1, h) == LenBlock(n, a1, p1)[..h] == LenBlock(n, a2, p2)[..h] == FromNat(a2, h);
    assert FromNat(p1, h) == LenBlock(n, a1, p1)[h..] == LenBlock(n, a2, p2)[h..] == FromNat(p2, h);
    FromNatToNat(a1, h);
    FromNatToNat(a2, h);
    FromNatToNat(p1, h);
    FromNatToNat(p2, h);
    ModOfSmall(a1, Pow256(h));
    ModOfSmall(a2, Pow256(h));
    ModOfSmall(p1, Pow256(h));
    ModOfSmall(p2, Pow256(h));
  }

  // ---------------------------------------------------------------------------
  // The whole-message mode

  /** The parameters the mode accepts: a supported block size, an IV of one to n
      bytes, and a tag of one to n bytes. */
  predicate Params(n: nat, iv: Bytes, s: nat) {
    BlockSize(n) && 0 < |iv| <= n && 0 < s <= n
  }

  /** C = P xor the keystream E(Y_1), E(Y_2), ... with Y_1 = E(0 || ICN) and
      Y_(i+1) = incr_r(Y_i), a final short block using a truncated keystream block. */
  function MgmCipher(fe: Transform, ke: Bytes, n: nat, iv: Bytes, p: Bytes): (r: Bytes)
    requires BlockSize(n) && Preserves(n, fe) && 0 < |iv| <= n
    ensures |r| == |p|
  {
    CountersKeep();
    Ctr(fe, ke, n, IncrRight, fe(ke, Nonce(iv, n, false)), p)
  }

  /** The sum over the padded blocks of A, then those of C, then len(A) || len(C),
      each multiplied by its H_i = E(Z_i) with Z_1 = E(1 || ICN). */
  function MgmSum(fa: Transform, ka: Bytes, gf: Mul, n: nat, iv: Bytes, a: Bytes, c: Bytes): (r: Acc)
    requires BlockSize(n) && Preserves(n, fa) && FieldMul(gf) && 0 < |iv| <= n
    ensures AccSized(r, n)
  {
    var h1 := AuthPart(fa, ka, gf, n, iv, a);
    var h2 := Absorb(fa, ka, gf, n, Acc(h1.sum, h1.z, false), c);
    Step(fa, ka, gf, n, h2, LenBlock(n, 8 * |a|, 8 * |c|))
  }

  /** The accumulator after the associated data: from sum 0 and Z_1 = E(1 || ICN). */
  function AuthPart(fa: Transform, ka: Bytes, gf: Mul, n: nat, iv: Bytes, a: Bytes): (r: Acc)
    requires BlockSize(n) && Preserves(n, fa) && FieldMul(gf) && 0 < |iv| <= n
    ensures AccSized(r, n)
  {
    Absorb(fa, ka, gf, n, Acc(Zeros(n), fa(ka, Nonce(iv, n, true)), false), a)
  }

  /** The tag: the leading s bytes of E(sum). */
  function MgmTag(fa: Transform, ka: Bytes, gf: Mul, n: nat, iv: Bytes, a: Bytes, c: Bytes, s: nat): (r: Bytes)
    requires Params(n, iv, s) && Preserves(n, fa) && FieldMul(gf)
    ensures |r| == s
  {
    fa(ka, MgmSum(fa, ka, gf, n, iv, a, c).sum)[..s]
  }

  /** Decrypting: the plaintext, and whether the tag is the one computed over the
      associated data and the received ciphertext. */
  function MgmOpen(fe: Transform, ke: Bytes, fa: Transform, ka: Bytes, gf: Mul, n: nat, iv: Bytes,
                   a: Bytes, c: Bytes, tag: Bytes): (r: (bool, Bytes))
    requires Params(n, iv, |tag|) && Preserves(n, fe) && Preserves(n, fa) && FieldMul(gf)
    ensures |r.1| == |c|
  {
    (tag == MgmTag(fa, ka, gf, n, iv, a, c, |tag|), MgmCipher(fe, ke, n, iv, c))
  }

  /** Opening what was sealed gives back the plaintext with the verdict true, and
      a tag of the same length is accepted only if it is the sealed one. */
  lemma MgmRoundTrip(fe: Transform, ke: Bytes, fa: Transform, ka: Bytes, gf: Mul, n: nat, iv: Bytes,
                     a: Bytes, p: Bytes, s: nat, other: Bytes)
    requires Params(n, iv, s) && Preserves(n, fe) && Preserves(n, fa) && FieldMul(gf) && |other| == s
    ensures var c := MgmCipher(fe, ke, n, iv, p);
            MgmOpen(fe, ke, fa, ka, gf, n, iv, a, c, MgmTag(fa, ka, gf, n, iv, a, c, s)) == (true, p)
    ensures var c := MgmCipher(fe, ke, n, iv, p);
            MgmOpen(fe, ke, fa, ka, gf, n, iv, a, c, other).0 <==> other == MgmTag(fa, ka, gf, n, iv, a, c, s)
  {
    CountersKeep();
    CtrInvolution(fe, ke, n, IncrRight, fe(ke, Nonce(iv, n, false)), p);
  }

  /** A shorter tag is a prefix of a longer one: the tag of length t is the
      leading t bytes of any longer tag over the same data, so a truncated
      genuine tag is itself genuine for its own length. */
  lemma MgmTagPrefix(fa: Transform, ka: Bytes, gf: Mul, n: nat, iv: Bytes, a: Bytes, c: Bytes, t: nat, s: nat)
    requires Params(n, iv, s) && 0 < t <= s && Preserves(n, fa) && FieldMul(gf)
    ensures MgmTag(fa, ka, gf, n, iv, a, c, t) == MgmTag(fa, ka, gf, n, iv, a, c, s)[..t]
  {
  }

  // ---------------------------------------------------------------------------
  // The streaming state machine

  /** Where a context stands: not cleaned; authenticating associated data;
      encrypting or decrypting; or finished. `closed` records that a short block
      has been taken, after which no further update of that kind is accepted. */
  datatype Phase = Clean | Auth(closed: bool) | Enc(closed: bool) | Finalized

  /** The fields of the context: the sum, the two counters, and the two bit counts. */
  datatype MgmState = MgmState(sum: Bytes, y: Bytes, z: Bytes, pbits: nat, abits: nat, phase: Phase)

  predicate Sized(st: MgmState, n: nat) {
    |st.sum| == n && |st.y| == n && |st.z| == n
  }

  /** authentication_clean: sum := 0, Z := E(1 || ICN), both bit counts := 0;
      associated data may follow. */
  function AuthClean(st: MgmState, fa: Transform, ka: Bytes, n: nat, iv: Bytes): (r: Result<MgmState>)
    requires n > 0 && Preserves(n, fa) && Sized(st, n)
    ensures r.Fail? <==> !(0 < |iv| <= n)
    ensures r.Fail? ==> r.error == InvalidIVLength
    ensures r.Ok? ==> Sized(r.value, n) && r.value.phase == Auth(false)
    ensures r.Ok? ==> r.value.sum == Zeros(n) && r.value.z == fa(ka, Nonce(iv, n, true))
    ensures r.Ok? ==> r.value.abits == 0 && r.value.pbits == 0
  {
    if !(0 < |iv| <= n) then Fail(InvalidIVLength)
    else Ok(MgmState(Zeros(n), st.y, fa(ka, Nonce(iv, n, true)), 0, 0, Auth(false)))
  }

  /** The accumulator a state continues from. */
  function AccOf(st: MgmState): (r: Acc)
    ensures r.sum == st.sum && r.z == st.z && !r.short
  {
    Acc(st.sum, st.z, false)
  }

  /** authentication_update: open associated-data phase only; the chunk is
      authenticated, its bits counted, and a chunk ending in a short block closes
      the phase. */
  function AuthUpdate(st: MgmState, fa: Transform, ka: Bytes, gf: Mul, n: nat, data: Bytes): (r: Result<MgmState>)
    requires n > 0 && Preserves(n, fa) && FieldMul(gf) && Sized(st, n)
    ensures st.phase != Auth(false) ==> r == Fail(PhaseViolation)
    ensures st.phase == Auth(false) && st.abits + 8 * |data| >= MaxBits(n) ==> r == Fail(DataTooLong)
    ensures r.Ok? <==> st.phase == Auth(false) && st.abits + 8 * |data| < MaxBits(n)
    ensures r.Ok? ==> Sized(r.value, n) && r.value.phase.Auth? && r.value.y == st.y
    ensures r.Ok? ==> r.value.abits == st.abits + 8 * |data| >= st.abits && r.value.pbits == st.pbits
  {
    if st.phase != Auth(false) then Fail(PhaseViolation)
    else if st.abits + 8 * |data| >= MaxBits(n) then Fail(DataTooLong)
    else Ok(AuthNext(st, fa, ka, gf, n, data))
  }

  /** The state an accepted associated-data update produces. */
  function AuthNext(st: MgmState, fa: Transform, ka: Bytes, gf: Mul, n: nat, data: Bytes): (r: MgmState)
    requires n > 0 && Preserves(n, fa) && FieldMul(gf) && Sized(st, n)
    ensures Sized(r, n)
  {
    var acc := Absorb(fa, ka, gf, n, AccOf(st), data);
    MgmState(acc.sum, st.y, acc.z, st.pbits, st.abits + 8 * |data|, Auth(acc.short))
  }

  /** encryption_clean: after the associated data only; Y := E(0 || ICN) and the
      plaintext bit count := 0, the sum, Z and the associated bit count kept. */
  function EncClean(st: MgmState, fe: Transform, ke: Bytes, n: nat, iv: Bytes): (r: Result<MgmState>)
    requires n > 0 && Preserves(n, fe) && Sized(st, n)
    ensures !(0 < |iv| <= n) ==> r == Fail(InvalidIVLength)
    ensures 0 < |iv| <= n && !st.phase.Auth? ==> r == Fail(PhaseViolation)
    ensures r.Ok? <==> 0 < |iv| <= n && st.phase.Auth?
    ensures r.Ok? ==> r.value == st.(y := fe(ke, Nonce(iv, n, false)), pbits := 0, phase := Enc(false))
  {
    if !(0 < |iv| <= n) then Fail(InvalidIVLength)
    else if !st.phase.Auth? then Fail(PhaseViolation)
    else Ok(st.(y := fe(ke, Nonce(iv, n, false)), pbits := 0, phase := Enc(false)))
  }

  /** encryption_update: open encryption phase only; C = P xor the keystream from
      Y, Y stepped by incr_r per block, and the ciphertext C (not the plaintext)
      authenticated. */
  function EncUpdate(st: MgmState, fe: Transform, ke: Bytes, fa: Transform, ka: Bytes, gf: Mul, n: nat, data: Bytes): (r: Result<(MgmState, Bytes)>)
    requires n > 0 && Preserves(n, fe) && Preserves(n, fa) && FieldMul(gf) && Sized(st, n)
    ensures st.phase != Enc(false) ==> r == Fail(PhaseViolation)
    ensures st.phase == Enc(false) && st.pbits + 8 * |data| >= MaxBits(n) ==> r == Fail(DataTooLong)
    ensures r.Ok? <==> st.phase == Enc(false) && st.pbits + 8 * |data| < MaxBits(n)
    ensures r.Ok? ==> Sized(r.value.0, n) && |r.value.1| == |data|
    ensures r.Ok? ==> r.value.0.pbits == st.pbits + 8 * |data| && r.value.0.abits == st.abits
    ensures r.Ok? ==> r.value.1 == Ctr(fe, ke, n, IncrRight, st.y, data)
  {
    CountersKeep();
    if st.phase != Enc(false) then Fail(PhaseViolation)
    else if st.pbits + 8 * |data| >= MaxBits(n) then Fail(DataTooLong)
    else
      var c := Ctr(fe, ke, n, IncrRight, st.y, data);
      Ok((CipherNext(st, fa, ka, gf, n, |data|, c), c))
  }

  /** The state an accepted encryption or decryption update of len bytes
      produces, c being the ciphertext it authenticates. */
  function CipherNext(st: MgmState, fa: Transform, ka: Bytes, gf: Mul, n: nat, len: nat, c: Bytes): (r: MgmState)
    requires n > 0 && Preserves(n, fa) && FieldMul(gf) && Sized(st, n)
    ensures Sized(r, n)
  {
    var acc := Absorb(fa, ka, gf, n, AccOf(st), c);
    MgmState(acc.sum, Advance(st.y, n, len), acc.z, st.pbits + 8 * len, st.abits, Enc(acc.short))
  }

  /** The Y counter after len bytes: one incr_r per whole block. */
  function Advance(y: Bytes, n: nat, len: nat): (r: Bytes)
    requires n > 0
    ensures |r| == |y|
  {
    CountersKeep();
    Iterate(IncrRight, y, Blocks(len, n))
  }

  /** decryption_update: as encryption_update, but the input, which is the
      ciphertext, is what gets authenticated. */
  function DecUpdate(st: MgmState, fe: Transform, ke: Bytes, fa: Transform, ka: Bytes, gf: Mul, n: nat, data: Bytes): (r: Result<(MgmState, Bytes)>)
    requires n > 0 && Preserves(n, fe) && Preserves(n, fa) && FieldMul(gf) && Sized(st, n)
    ensures st.phase != Enc(false) ==> r == Fail(PhaseViolation)
    ensures st.phase == Enc(false) && st.pbits + 8 * |data| >= MaxBits(n) ==> r == Fail(DataTooLong)
    ensures r.Ok? <==> st.phase == Enc(false) && st.pbits + 8 * |data| < MaxBits(n)
    ensures r.Ok? ==> Sized(r.value.0, n) && |r.value.1| == |data|
    ensures r.Ok? ==> r.value.0.pbits == st.pbits + 8 * |data| && r.value.0.abits == st.abits
    ensures r.Ok? ==> r.value.1 == Ctr(fe, ke, n, IncrRight, st.y, data)
  {
    CountersKeep();
    if st.phase != Enc(false) then Fail(PhaseViolation)
    else if st.pbits + 8 * |data| >= MaxBits(n) then Fail(DataTooLong)
    else Ok((CipherNext(st, fa, ka, gf, n, |data|, data), Ctr(fe, ke, n, IncrRight, st.y, data)))
  }

  /** authentication_finalize: after clean, a tag length of one to n bytes; the
      final block len(A) || len(C) is authenticated and the tag is the leading s
      bytes of E(sum); the context is then finished. */
  function Finalize(st: MgmState, fa: Transform, ka: Bytes, gf: Mul, n: nat, s: nat): (r: Result<(MgmState, Bytes)>)
    requires n > 0 && Preserves(n, fa) && FieldMul(gf) && Sized(st, n) && 2 * (n / 2) == n
    ensures !(0 < s <= n) ==> r == Fail(InvalidParameter)
    ensures 0 < s <= n && (st.phase == Clean || st.phase == Finalized) ==> r == Fail(PhaseViolation)
    ensures r.Ok? ==> Sized(r.value.0, n) && r.value.0.phase == Finalized && |r.value.1| == s
    ensures r.Ok? ==> var last := Step(fa, ka, gf, n, AccOf(st), LenBlock(n, st.abits, st.pbits));
      AccOf(r.value.0) == last && r.value.1 == fa(ka, last.sum)[..s]
  {
    if !(0 < s <= n) then Fail(InvalidParameter)
    else if st.phase == Clean || st.phase == Finalized then Fail(PhaseViolation)
    else
      var last := Step(fa, ka, gf, n, AccOf(st), LenBlock(n, st.abits, st.pbits));
      Ok((st.(sum := last.sum, z := last.z, phase := Finalized), fa(ka, last.sum)[..s]))
  }

  /** A finished context takes no further update and no second finalize, of any
      kind or length, until it is cleaned again; a clean with a valid IV reopens it. */
  lemma FinalizeCloses(st: MgmState, fe: Transform, ke: Bytes, fa: Transform, ka: Bytes, gf: Mul, n: nat, s: nat,
                       data: Bytes, t: nat, iv: Bytes)
    requires n > 0 && Preserves(n, fe) && Preserves(n, fa) && FieldMul(gf) && Sized(st, n) && 2 * (n / 2) == n
    requires Finalize(st, fa, ka, gf, n, s).Ok?
    ensures var f := Finalize(st, fa, ka, gf, n, s).value.0;
      && AuthUpdate(f, fa, ka, gf, n, data) == Fail(PhaseViolation)
      && EncUpdate(f, fe, ke, fa, ka, gf, n, data) == Fail(PhaseViolation)
      && DecUpdate(f, fe, ke, fa, ka, gf, n, data) == Fail(PhaseViolation)
      && EncClean(f, fe, ke, n, iv) == (if 0 < |iv| <= n then Fail(PhaseViolation) else Fail(InvalidIVLength))
      && (0 < t <= n ==> Finalize(f, fa, ka, gf, n, t) == Fail(PhaseViolation))
      && (0 < |iv| <= n ==> AuthClean(f, fa, ka, n, iv).Ok? && AuthClean(f, fa, ka, n, iv).value.phase == Auth(false))
  {
  }

  /** decryption_update undoes encryption_update: fed the ciphertext from the
      same state, it returns the plaintext and leaves the very same state. */
  lemma DecUndoesEnc(st: MgmState, fe: Transform, ke: Bytes, fa: Transform, ka: Bytes, gf: Mul, n: nat, p: Bytes)
    requires n > 0 && Preserves(n, fe) && Preserves(n, fa) && FieldMul(gf) && Sized(st, n)
    requires EncUpdate(st, fe, ke, fa, ka, gf, n, p).Ok?
    ensures var e := EncUpdate(st, fe, ke, fa, ka, gf, n, p).value;
            DecUpdate(st, fe, ke, fa, ka, gf, n, e.1) == Ok((e.0, p))
  {
    CountersKeep();
    CtrInvolution(fe, ke, n, IncrRight, st.y, p);
  }

  // ---------------------------------------------------------------------------
  // Chunking: updates in pieces equal one update over the whole

  /** An accepted update closes the associated data exactly when the chunk ends
      in a short block; a closed phase refuses every further update. */
  lemma AuthUpdateCloses(st: MgmState, fa: Transform, ka: Bytes, gf: Mul, n: nat, data: Bytes, more: Bytes)
    requires n > 0 && Preserves(n, fa) && FieldMul(gf) && Sized(st, n)
    requires AuthUpdate(st, fa, ka, gf, n, data).Ok?
    ensures AuthUpdate(st, fa, ka, gf, n, data).value.phase == Auth(!WholeBlocks(|data|, n))
    ensures !WholeBlocks(|data|, n) ==> AuthUpdate(AuthUpdate(st, fa, ka, gf, n, data).value, fa, ka, gf, n, more) == Fail(PhaseViolation)
  {
    AbsorbShort(fa, ka, gf, n, AccOf(st), data);
  }

  lemma AuthNextConcat(st: MgmState, fa: Transform, ka: Bytes, gf: Mul, n: nat, x: Bytes, y: Bytes)
    requires n > 0 && Preserves(n, fa) && FieldMul(gf) && Sized(st, n) && WholeBlocks(|x|, n)
    ensures AuthNext(st, fa, ka, gf, n, x).phase == Auth(false)
    ensures AuthNext(AuthNext(st, fa, ka, gf, n, x), fa, ka, gf, n, y) == AuthNext(st, fa, ka, gf, n, x + y)
  {
    AbsorbShort(fa, ka, gf, n, AccOf(st), x);
    AbsorbConcat(fa, ka, gf, n, AccOf(st), x, y);
  }

  /** Two associated-data updates, the first of whole blocks, are one update
      over the concatenation. */
  lemma AuthUpdateConcat(st: MgmState, fa: Transform, ka: Bytes, gf: Mul, n: nat, x: Bytes, y: Bytes)
    requires n > 0 && Preserves(n, fa) && FieldMul(gf) && Sized(st, n)
    requires AuthUpdate(st, fa, ka, gf, n, x).Ok? && WholeBlocks(|x|, n)
    ensures AuthUpdate(AuthUpdate(st, fa, ka, gf, n, x).value, fa, ka, gf, n, y) == AuthUpdate(st, fa, ka, gf, n, x + y)
  {
    AuthNextConcat(st, fa, ka, gf, n, x, y);
  }

  /** CipherNext in terms of its accumulator and counter, named by the caller. */
  lemma CipherNextIs(st: MgmState, fa: Transform, ka: Bytes, gf: Mul, n: nat, len: nat, c: Bytes, acc: Acc, y: Bytes)
    requires n > 0 && Preserves(n, fa) && FieldMul(gf) && Sized(st, n)
    requires Absorb(fa, ka, gf, n, AccOf(st), c) == acc && Advance(st.y, n, len) == y
    ensures CipherNext(st, fa, ka, gf, n, len, c) == MgmState(acc.sum, y, acc.z, st.pbits + 8 * len, st.abits, Enc(acc.short))
  {
  }

  /** The counter after a whole block and the rest is the counter after all. */
  lemma AdvanceBlock(y: Bytes, n: nat, len: nat)
    requires n > 0 && len >= n
    ensures Advance(y, n, len) == Advance(IncrRight(y), n, len - n)
  {
  }

  /** Less than a block leaves the counter where it is. */
  lemma AdvanceShort(y: Bytes, n: nat, len: nat)
    requires n > 0 && len < n
    ensures Advance(y, n, len) == y
  {
  }

  /** AuthNext in terms of its accumulator, named by the caller. */
  lemma AuthNextIs(st: MgmState, fa: Transform, ka: Bytes, gf: Mul, n: nat, data: Bytes, acc: Acc)
    requires n > 0 && Preserves(n, fa) && FieldMul(gf) && Sized(st, n)
    requires Absorb(fa, ka, gf, n, AccOf(st), data) == acc
    ensures AuthNext(st, fa, ka, gf, n, data) == MgmState(acc.sum, st.y, acc.z, st.pbits, st.abits + 8 * |data|, Auth(acc.short))
  {
  }

  /** After whole blocks the encryption phase is still open and the accumulator is
      that of the blocks taken. */
  lemma CipherNextWhole(st: MgmState, fa: Transform, ka: Bytes, gf: Mul, n: nat, x: Bytes)
    requires n > 0 && Preserves(n, fa) && FieldMul(gf) && Sized(st, n) && WholeBlocks(|x|, n)
    ensures var s1 := CipherNext(st, fa, ka, gf, n, |x|, x);
            s1.phase == Enc(false) && AccOf(s1) == Absorb(fa, ka, gf, n, AccOf(st), x) &&
            s1.y == Advance(st.y, n, |x|) && s1.pbits == st.pbits + 8 * |x| && s1.abits == st.abits
  {
    AbsorbShort(fa, ka, gf, n, AccOf(st), x);
  }

  /** A state that has taken whole blocks x continues as if from the start. */
  lemma CipherNextAfter(st: MgmState, s1: MgmState, fa: Transform, ka: Bytes, gf: Mul, n: nat, x: Bytes, y: Bytes)
    requires n > 0 && Preserves(n, fa) && FieldMul(gf) && Sized(st, n) && Sized(s1, n) && WholeBlocks(|x|, n)
    requires AccOf(s1) == Absorb(fa, ka, gf, n, AccOf(st), x) && s1.y == Advance(st.y, n, |x|)
    requires s1.pbits == st.pbits + 8 * |x| && s1.abits == st.abits
    ensures CipherNext(s1, fa, ka, gf, n, |y|, y) == CipherNext(st, fa, ka, gf, n, |x + y|, x + y)
  {
    var acc2 := Absorb(fa, ka, gf, n, AccOf(st), x + y);
    var y2 := Advance(st.y, n, |x + y|);
    assert Absorb(fa, ka, gf, n, AccOf(s1), y) == acc2 by {
      AbsorbConcat(fa, ka, gf, n, AccOf(st), x, y);
    }
    assert Advance(s1.y, n, |y|) == y2 by {
      CounterConcat(st.y, n, |x|, |y|);
      assert |x + y| == |x| + |y|;
    }
    CipherNextIs(s1, fa, ka, gf, n, |y|, y, acc2, y2);
    CipherNextIs(st, fa, ka, gf, n, |x + y|, x + y, acc2, y2);
  }

  lemma CipherNextConcat(st: MgmState, fa: Transform, ka: Bytes, gf: Mul, n: nat, x: Bytes, y: Bytes)
    requires n > 0 && Preserves(n, fa) && FieldMul(gf) && Sized(st, n) && WholeBlocks(|x|, n)
    ensures CipherNext(st, fa, ka, gf, n, |x|, x).phase == Enc(false)
    ensures CipherNext(CipherNext(st, fa, ka, gf, n, |x|, x), fa, ka, gf, n, |y|, y) == CipherNext(st, fa, ka, gf, n, |x + y|, x + y)
  {
    CipherNextWhole(st, fa, ka, gf, n, x);
    CipherNextAfter(st, CipherNext(st, fa, ka, gf, n, |x|, x), fa, ka, gf, n, x, y);
  }

  /** incr_r stepped over whole blocks and then over more data is stepped over both. */
  lemma CounterConcat(y0: Bytes, n: nat, a: nat, b: nat)
    requires n > 0 && WholeBlocks(a, n)
    ensures Advance(Advance(y0, n, a), n, b) == Advance(y0, n, a + b)
  {
    BlocksAdd(a, b, n);
    IterateAdd(IncrRight, y0, Blocks(a, n), Blocks(b, n));
  }

  /** Two encryption updates, the first of whole blocks, are one update over the
      concatenation, the outputs concatenated. */
  lemma EncUpdateConcat(st: MgmState, fe: Transform, ke: Bytes, fa: Transform, ka: Bytes, gf: Mul, n: nat, x: Bytes, y: Bytes)
    requires n > 0 && Preserves(n, fe) && Preserves(n, fa) && FieldMul(gf) && Sized(st, n)
    requires EncUpdate(st, fe, ke, fa, ka, gf, n, x).Ok? && WholeBlocks(|x|, n)
    ensures var e := EncUpdate(st, fe, ke, fa, ka, gf, n, x).value;
            var e2 := EncUpdate(e.0, fe, ke, fa, ka, gf, n, y);
            EncUpdate(st, fe, ke, fa, ka, gf, n, x + y) == if e2.Ok? then Ok((e2.value.0, e.1 + e2.value.1)) else e2
  {
    CountersKeep();
    var c1 := Ctr(fe, ke, n, IncrRight, st.y, x);
    var c2 := Ctr(fe, ke, n, IncrRight, Iterate(IncrRight, st.y, Blocks(|x|, n)), y);
    CtrConcat(fe, ke, n, IncrRight, st.y, x, y);
    assert |c1| == |x|;
    CipherNextConcat(st, fa, ka, gf, n, c1, c2);
  }

  /** Two decryption updates, the first of whole blocks, are one update over the
      concatenation, the outputs concatenated. */
  lemma DecUpdateConcat(st: MgmState, fe: Transform, ke: Bytes, fa: Transform, ka: Bytes, gf: Mul, n: nat, x: Bytes, y: Bytes)
    requires n > 0 && Preserves(n, fe) && Preserves(n, fa) && FieldMul(gf) && Sized(st, n)
    requires DecUpdate(st, fe, ke, fa, ka, gf, n, x).Ok? && WholeBlocks(|x|, n)
    ensures var d := DecUpdate(st, fe, ke, fa, ka, gf, n, x).value;
            var d2 := DecUpdate(d.0, fe, ke, fa, ka, gf, n, y);
            DecUpdate(st, fe, ke, fa, ka, gf, n, x + y) == if d2.Ok? then Ok((d2.value.0, d.1 + d2.value.1)) else d2
  {
    CountersKeep();
    CtrConcat(fe, ke, n, IncrRight, st.y, x, y);
    CipherNextConcat(st, fa, ka, gf, n, x, y);
  }

  /** The concatenation of a list of chunks. */
  function Flatten(chunks: seq<Bytes>): (r: Bytes)
    decreases |chunks|
  {
    if |chunks| == 0 then [] else chunks[0] + Flatten(chunks[1..])
  }

  /** Every chunk but the last is a whole number of blocks. */
  predicate Chunked(chunks: seq<Bytes>, n: nat)
    requires n > 0
  {
    forall i :: 0 <= i < |chunks| - 1 ==> WholeBlocks(|chunks[i]|, n)
  }

  /** Associated data fed one chunk after another, stopping at the first error. */
  function AuthUpdates(st: MgmState, fa: Transform, ka: Bytes, gf: Mul, n: nat, chunks: seq<Bytes>): (r: Result<MgmState>)
    requires n > 0 && Preserves(n, fa) && FieldMul(gf) && Sized(st, n)
    ensures r.Ok? ==> Sized(r.value, n)
    decreases |chunks|
  {
    if |chunks| == 0 then Ok(st)
    else
      var r1 := AuthUpdate(st, fa, ka, gf, n, chunks[0]);
      if r1.Fail? then Fail(r1.error) else AuthUpdates(r1.value, fa, ka, gf, n, chunks[1..])
  }

  /** However the associated data is cut into chunks, as long as only the last
      ends in a short block, the outcome is that of a single update. */
  lemma {:induction false} AuthUpdatesFlatten(st: MgmState, fa: Transform, ka: Bytes, gf: Mul, n: nat, chunks: seq<Bytes>)
    requires n > 0 && Preserves(n, fa) && FieldMul(gf) && Sized(st, n)
    requires |chunks| > 0 && Chunked(chunks, n)
    ensures AuthUpdates(st, fa, ka, gf, n, chunks) == AuthUpdate(st, fa, ka, gf, n, Flatten(chunks))
    decreases |chunks|
  {
    var c, rest := chunks[0], chunks[1..];
    assert Flatten(chunks) == c + Flatten(rest);
    if |rest| == 0 {
      assert Flatten(chunks) == c;
    } else {
      assert WholeBlocks(|c|, n);
      var r1 := AuthUpdate(st, fa, ka, gf, n, c);
      if r1.Ok? {
        assert Chunked(rest, n) by {
          forall i | 0 <= i < |rest| - 1 ensures WholeBlocks(|rest[i]|, n) {
            assert rest[i] == chunks[i + 1];
          }
        }
        AuthUpdatesFlatten(r1.value, fa, ka, gf, n, rest);
        AuthUpdateConcat(st, fa, ka, gf, n, c, Flatten(rest));
      }
    }
  }

  /** Plaintext fed one chunk after another; the outputs are concatenated. */
  function EncUpdates(st: MgmState, fe: Transform, ke: Bytes, fa: Transform, ka: Bytes, gf: Mul, n: nat, chunks: seq<Bytes>): (r: Result<(MgmState, Bytes)>)
    requires n > 0 && Preserves(n, fe) && Preserves(n, fa) && FieldMul(gf) && Sized(st, n)
    ensures r.Ok? ==> Sized(r.value.0, n)
    decreases |chunks|
  {
    if |chunks| == 0 then Ok((st, []))
    else
      var r1 := EncUpdate(st, fe, ke, fa, ka, gf, n, chunks[0]);
      if r1.Fail? then Fail(r1.error)
      else
        var r2 := EncUpdates(r1.value.0, fe, ke, fa, ka, gf, n, chunks[1..]);
        if r2.Fail? then Fail(r2.error) else Ok((r2.value.0, r1.value.1 + r2.value.1))
  }

  /** However the plaintext is cut into chunks, as long as only the last ends in
      a short block, the ciphertext and the new state are those of a single update. */
  lemma {:induction false} EncUpdatesFlatten(st: MgmState, fe: Transform, ke: Bytes, fa: Transform, ka: Bytes, gf: Mul, n: nat, chunks: seq<Bytes>)
    requires n > 0 && Preserves(n, fe) && Preserves(n, fa) && FieldMul(gf) && Sized(st, n)
    requires |chunks| > 0 && Chunked(chunks, n)
    ensures EncUpdates(st, fe, ke, fa, ka, gf, n, chunks) == EncUpdate(st, fe, ke, fa, ka, gf, n, Flatten(chunks))
    decreases |chunks|
  {
    var c, rest := chunks[0], chunks[1..];
    assert Flatten(chunks) == c + Flatten(rest);
    if |rest| == 0 {
      assert Flatten(chunks) == c;
      var r1 := EncUpdate(st, fe, ke, fa, ka, gf, n, c);
      if r1.Ok? {
        assert r1.value.1 + [] == r1.value.1;
      }
    } else {
      assert WholeBlocks(|c|, n);
      var r1 := EncUpdate(st, fe, ke, fa, ka, gf, n, c);
      if r1.Ok? {
        assert Chunked(rest, n) by {
          forall i | 0 <= i < |rest| - 1 ensures WholeBlocks(|rest[i]|, n) {
            assert rest[i] == chunks[i + 1];
          }
        }
        EncUpdatesFlatten(r1.value.0, fe, ke, fa, ka, gf, n, rest);
        EncUpdateConcat(st, fe, ke, fa, ka, gf, n, c, Flatten(rest));
      } else {
        assert st.pbits + 8 * |Flatten(chunks)| >= st.pbits + 8 * |c|;
      }
    }
  }

  /** Ciphertext fed one chunk after another; the outputs are concatenated. */
  function DecUpdates(st: MgmState, fe: Transform, ke: Bytes, fa: Transform, ka: Bytes, gf: Mul, n: nat, chunks: seq<Bytes>): (r: Result<(MgmState, Bytes)>)
    requires n > 0 && Preserves(n, fe) && Preserves(n, fa) && FieldMul(gf) && Sized(st, n)
    ensures r.Ok? ==> Sized(r.value.0, n)
    decreases |chunks|
  {
    if |chunks| == 0 then Ok((st, []))
    else
      var r1 := DecUpdate(st, fe, ke, fa, ka, gf, n, chunks[0]);
      if r1.Fail? then Fail(r1.error)
      else
        var r2 := DecUpdates(r1.value.0, fe, ke, fa, ka, gf, n, chunks[1..]);
        if r2.Fail? then Fail(r2.error) else Ok((r2.value.0, r1.value.1 + r2.value.1))
  }

  /** However the ciphertext is cut into chunks, as long as only the last ends in
      a short block, the plaintext and the new state are those of a single update. */
  lemma {:induction false} DecUpdatesFlatten(st: MgmState, fe: Transform, ke: Bytes, fa: Transform, ka: Bytes, gf: Mul, n: nat, chunks: seq<Bytes>)
    requires n > 0 && Preserves(n, fe) && Preserves(n, fa) && FieldMul(gf) && Sized(st, n)
    requires |chunks| > 0 && Chunked(chunks, n)
    ensures DecUpdates(st, fe, ke, fa, ka, gf, n, chunks) == DecUpdate(st, fe, ke, fa, ka, gf, n, Flatten(chunks))
    decreases |chunks|
  {
    var c, rest := chunks[0], chunks[1..];
    assert Flatten(chunks) == c + Flatten(rest);
    if |rest| == 0 {
      assert Flatten(chunks) == c;
      var r1 := DecUpdate(st, fe, ke, fa, ka, gf, n, c);
      if r1.Ok? {
        assert r1.value.1 + [] == r1.value.1;
      }
    } else {
      assert WholeBlocks(|c|, n);
      var r1 := DecUpdate(st, fe, ke, fa, ka, gf, n, c);
      if r1.Ok? {
        assert Chunked(rest, n) by {
          forall i | 0 <= i < |rest| - 1 ensures WholeBlocks(|rest[i]|, n) {
            assert rest[i] == chunks[i + 1];
          }
        }
        DecUpdatesFlatten(r1.value.0, fe, ke, fa, ka, gf, n, rest);
        DecUpdateConcat(st, fe, ke, fa, ka, gf, n, c, Flatten(rest));
      } else {
        assert st.pbits + 8 * |Flatten(chunks)| >= st.pbits + 8 * |c|;
      }
    }
  }

  /** Whatever the chunks, accepted associated-data updates count exactly their
      bits and leave the plaintext count alone. */
  lemma {:induction false} AuthUpdatesCount(st: MgmState, fa: Transform, ka: Bytes, gf: Mul, n: nat, chunks: seq<Bytes>)
    requires n > 0 && Preserves(n, fa) && FieldMul(gf) && Sized(st, n)
    ensures var r := AuthUpdates(st, fa, ka, gf, n, chunks);
            r.Ok? ==> r.value.abits == st.abits + 8 * |Flatten(chunks)| && r.value.pbits == st.pbits
    decreases |chunks|
  {
    if |chunks| > 0 {
      var r1 := AuthUpdate(st, fa, ka, gf, n, chunks[0]);
      if r1.Ok? {
        AuthUpdatesCount(r1.value, fa, ka, gf, n, chunks[1..]);
      }
    }
  }

  /** Whatever the chunks, accepted encryption updates count exactly their bits,
      leave the associated-data count alone and output as many bytes as they take. */
  lemma {:induction false} EncUpdatesCount(st: MgmState, fe: Transform, ke: Bytes, fa: Transform, ka: Bytes, gf: Mul, n: nat, chunks: seq<Bytes>)
    requires n > 0 && Preserves(n, fe) && Preserves(n, fa) && FieldMul(gf) && Sized(st, n)
    ensures var r := EncUpdates(st, fe, ke, fa, ka, gf, n, chunks);
            r.Ok? ==> r.value.0.pbits == st.pbits + 8 * |Flatten(chunks)| && r.value.0.abits == st.abits &&
                      |r.value.1| == |Flatten(chunks)|
    decreases |chunks|
  {
    if |chunks| > 0 {
      var r1 := EncUpdate(st, fe, ke, fa, ka, gf, n, chunks[0]);
      if r1.Ok? {
        EncUpdatesCount(r1.value.0, fe, ke, fa, ka, gf, n, chunks[1..]);
      }
    }
  }

  // ---------------------------------------------------------------------------
  // The streaming calls in order give the whole-message formula

  /** Cleaning and then authenticating all of A leaves the accumulator AuthPart. */
  lemma AuthSteps(st0: MgmState, fa: Transform, ka: Bytes, gf: Mul, n: nat, iv: Bytes, a: Bytes)
    requires BlockSize(n) && 0 < |iv| <= n && Preserves(n, fa) && FieldMul(gf) && Sized(st0, n)
    requires 8 * |a| < MaxBits(n)
    ensures AuthClean(st0, fa, ka, n, iv).Ok?
    ensures var s2 := AuthUpdate(AuthClean(st0, fa, ka, n, iv).value, fa, ka, gf, n, a);
            s2.Ok? && s2.value.phase.Auth? && s2.value.abits == 8 * |a| && s2.value.pbits == 0 &&
            s2.value.sum == AuthPart(fa, ka, gf, n, iv, a).sum && s2.value.z == AuthPart(fa, ka, gf, n, iv, a).z
  {
    var s1 := AuthClean(st0, fa, ka, n, iv).value;
    assert AccOf(s1) == Acc(Zeros(n), fa(ka, Nonce(iv, n, true)), false);
  }

  /** Encryption clean and one update over the whole plaintext give the
      ciphertext of the formula and authenticate it from where A left off. */
  lemma SealCipherSteps(s2: MgmState, fe: Transform, ke: Bytes, fa: Transform, ka: Bytes, gf: Mul, n: nat,
                        iv: Bytes, p: Bytes)
    requires BlockSize(n) && 0 < |iv| <= n && Preserves(n, fe) && Preserves(n, fa) && FieldMul(gf)
    requires Sized(s2, n) && s2.phase.Auth? && 8 * |p| < MaxBits(n)
    ensures EncClean(s2, fe, ke, n, iv).Ok?
    ensures var s4 := EncUpdate(EncClean(s2, fe, ke, n, iv).value, fe, ke, fa, ka, gf, n, p);
            s4.Ok? && s4.value.1 == MgmCipher(fe, ke, n, iv, p) &&
            OnCipher(s2, s4.value.0, fa, ka, gf, n, s4.value.1)
  {
    var s3 := EncClean(s2, fe, ke, n, iv).value;
    var c := Ctr(fe, ke, n, IncrRight, s3.y, p);
    CipherNextIs(s3, fa, ka, gf, n, |p|, c, Absorb(fa, ka, gf, n, AccOf(s2), c), Advance(s3.y, n, |p|));
  }

  /** The same with decryption: the plaintext of the formula, and the received
      ciphertext authenticated. */
  lemma OpenCipherSteps(s2: MgmState, fe: Transform, ke: Bytes, fa: Transform, ka: Bytes, gf: Mul, n: nat,
                        iv: Bytes, c: Bytes)
    requires BlockSize(n) && 0 < |iv| <= n && Preserves(n, fe) && Preserves(n, fa) && FieldMul(gf)
    requires Sized(s2, n) && s2.phase.Auth? && 8 * |c| < MaxBits(n)
    ensures EncClean(s2, fe, ke, n, iv).Ok?
    ensures var s4 := DecUpdate(EncClean(s2, fe, ke, n, iv).value, fe, ke, fa, ka, gf, n, c);
            s4.Ok? && s4.value.1 == MgmCipher(fe, ke, n, iv, c) && OnCipher(s2, s4.value.0, fa, ka, gf, n, c)
  {
    var s3 := EncClean(s2, fe, ke, n, iv).value;
    CipherNextIs(s3, fa, ka, gf, n, |c|, c, Absorb(fa, ka, gf, n, AccOf(s2), c), Advance(s3.y, n, |c|));
  }

  /** s4 is s2 after the ciphertext c: c authenticated, its bits counted, the
      associated bit count kept, and the context open for finalize. */
  ghost predicate OnCipher(s2: MgmState, s4: MgmState, fa: Transform, ka: Bytes, gf: Mul, n: nat, c: Bytes)
    requires n > 0 && Preserves(n, fa) && FieldMul(gf) && Sized(s2, n)
  {
    var acc := Absorb(fa, ka, gf, n, AccOf(s2), c);
    Sized(s4, n) && s4.phase.Enc? && s4.sum == acc.sum && s4.z == acc.z &&
    s4.abits == s2.abits && s4.pbits == 8 * |c|
  }

  /** Finalize after the ciphertext gives the tag of the formula. */
  lemma FinalStep(s2: MgmState, s4: MgmState, fa: Transform, ka: Bytes, gf: Mul, n: nat,
                  iv: Bytes, a: Bytes, c: Bytes, s: nat)
    requires Params(n, iv, s) && Preserves(n, fa) && FieldMul(gf) && Sized(s2, n)
    requires s2.sum == AuthPart(fa, ka, gf, n, iv, a).sum && s2.z == AuthPart(fa, ka, gf, n, iv, a).z
    requires s2.abits == 8 * |a| && OnCipher(s2, s4, fa, ka, gf, n, c)
    ensures Finalize(s4, fa, ka, gf, n, s).Ok?
    ensures Finalize(s4, fa, ka, gf, n, s).value.1 == MgmTag(fa, ka, gf, n, iv, a, c, s)
  {
    var h1 := AuthPart(fa, ka, gf, n, iv, a);
    assert AccOf(s2) == Acc(h1.sum, h1.z, false);
  }

  /** clean, update over A, encryption clean, update over P and finalize, from any
      state, all succeed on valid parameters and yield the ciphertext and tag of the
      whole-message formula. */
  lemma SealSteps(st0: MgmState, fe: Transform, ke: Bytes, fa: Transform, ka: Bytes, gf: Mul, n: nat,
                  iv: Bytes, a: Bytes, p: Bytes, s: nat)
    requires Params(n, iv, s) && Preserves(n, fe) && Preserves(n, fa) && FieldMul(gf) && Sized(st0, n)
    requires 8 * |a| < MaxBits(n) && 8 * |p| < MaxBits(n)
    ensures var s1 := AuthClean(st0, fa, ka, n, iv);
      s1.Ok? && (var s2 := AuthUpdate(s1.value, fa, ka, gf, n, a);
      s2.Ok? && (var s3 := EncClean(s2.value, fe, ke, n, iv);
      s3.Ok? && (var s4 := EncUpdate(s3.value, fe, ke, fa, ka, gf, n, p);
      s4.Ok? && s4.value.1 == MgmCipher(fe, ke, n, iv, p) && (var s5 := Finalize(s4.value.0, fa, ka, gf, n, s);
      s5.Ok? && s5.value.1 == MgmTag(fa, ka, gf, n, iv, a, s4.value.1, s)))))
  {
    AuthSteps(st0, fa, ka, gf, n, iv, a);
    var s2 := AuthUpdate(AuthClean(st0, fa, ka, n, iv).value, fa, ka, gf, n, a).value;
    SealCipherSteps(s2, fe, ke, fa, ka, gf, n, iv, p);
    var s4 := EncUpdate(EncClean(s2, fe, ke, n, iv).value, fe, ke, fa, ka, gf, n, p).value;
    FinalStep(s2, s4.0, fa, ka, gf, n, iv, a, s4.1, s);
  }

  /** The same calls with decryption_update over C yield the plaintext and the tag
      computed over the received ciphertext. */
  lemma OpenSteps(st0: MgmState, fe: Transform, ke: Bytes, fa: Transform, ka: Bytes, gf: Mul, n: nat,
                  iv: Bytes, a: Bytes, c: Bytes, s: nat)
    requires Params(n, iv, s) && Preserves(n, fe) && Preserves(n, fa) && FieldMul(gf) && Sized(st0, n)
    requires 8 * |a| < MaxBits(n) && 8 * |c| < MaxBits(n)
    ensures var s1 := AuthClean(st0, fa, ka, n, iv);
      s1.Ok? && (var s2 := AuthUpdate(s1.value, fa, ka, gf, n, a);
      s2.Ok? && (var s3 := EncClean(s2.value, fe, ke, n, iv);
      s3.Ok? && (var s4 := DecUpdate(s3.value, fe, ke, fa, ka, gf, n, c);
      s4.Ok? && s4.value.1 == MgmCipher(fe, ke, n, iv, c) && (var s5 := Finalize(s4.value.0, fa, ka, gf, n, s);
      s5.Ok? && s5.value.1 == MgmTag(fa, ka, gf, n, iv, a, c, s)))))
  {
    AuthSteps(st0, fa, ka, gf, n, iv, a);
    var s2 := AuthUpdate(AuthClean(st0, fa, ka, n, iv).value, fa, ka, gf, n, a).value;
    OpenCipherSteps(s2, fe, ke, fa, ka, gf, n, iv, c);
    var s4 := DecUpdate(EncClean(s2, fe, ke, n, iv).value, fe, ke, fa, ka, gf, n, c).value;
    FinalStep(s2, s4.0, fa, ka, gf, n, iv, a, c, s);
  }

  /** encrypt_mgm as the sequence of streaming calls from st0, stopping at the
      first that fails: the ciphertext and the tag. */
  function SealRun(st0: MgmState, fe: Transform, ke: Bytes, fa: Transform, ka: Bytes, gf: Mul, n: nat,
                   iv: Bytes, a: Bytes, p: Bytes, s: nat): (r: Result<(Bytes, Bytes)>)
    requires BlockSize(n) && Preserves(n, fe) && Preserves(n, fa) && FieldMul(gf) && Sized(st0, n)
    ensures r.Ok? ==> |r.value.0| == |p| && |r.value.1| == s
  {
    var s1 := AuthClean(st0, fa, ka, n, iv);
    if s1.Fail? then Fail(s1.error) else
    var s2 := AuthUpdate(s1.value, fa, ka, gf, n, a);
    if s2.Fail? then Fail(s2.error) else
    var s3 := EncClean(s2.value, fe, ke, n, iv);
    assert s3.Ok?;
    var s4 := EncUpdate(s3.value, fe, ke, fa, ka, gf, n, p);
    if s4.Fail? then Fail(s4.error) else
    var s5 := Finalize(s4.value.0, fa, ka, gf, n, s);
    if s5.Fail? then Fail(s5.error) else Ok((s4.value.1, s5.value.1))
  }

  /** decrypt_mgm as the same sequence with decryption: the plaintext and the
      tag computed over the received ciphertext. */
  function OpenRun(st0: MgmState, fe: Transform, ke: Bytes, fa: Transform, ka: Bytes, gf: Mul, n: nat,
                   iv: Bytes, a: Bytes, c: Bytes, s: nat): (r: Result<(Bytes, Bytes)>)
    requires BlockSize(n) && Preserves(n, fe) && Preserves(n, fa) && FieldMul(gf) && Sized(st0, n)
    ensures r.Ok? ==> |r.value.0| == |c| && |r.value.1| == s
  {
    var s1 := AuthClean(st0, fa, ka, n, iv);
    if s1.Fail? then Fail(s1.error) else
    var s2 := AuthUpdate(s1.value, fa, ka, gf, n, a);
    if s2.Fail? then Fail(s2.error) else
    var s3 := EncClean(s2.value, fe, ke, n, iv);
    assert s3.Ok?;
    var s4 := DecUpdate(s3.value, fe, ke, fa, ka, gf, n, c);
    if s4.Fail? then Fail(s4.error) else
    var s5 := Finalize(s4.value.0, fa, ka, gf, n, s);
    if s5.Fail? then Fail(s5.error) else Ok((s4.value.1, s5.value.1))
  }

  /** The calls of encrypt_mgm fail on a bad IV, then on data too long for its
      bit count, then on a bad tag length; otherwise they give the ciphertext and
      tag of the whole-message formula. */
  lemma SealRunResult(st0: MgmState, fe: Transform, ke: Bytes, fa: Transform, ka: Bytes, gf: Mul, n: nat,
                      iv: Bytes, a: Bytes, p: Bytes, s: nat)
    requires BlockSize(n) && Preserves(n, fe) && Preserves(n, fa) && FieldMul(gf) && Sized(st0, n)
    ensures var r := SealRun(st0, fe, ke, fa, ka, gf, n, iv, a, p, s);
      && (!(0 < |iv| <= n) ==> r == Fail(InvalidIVLength))
      && (0 < |iv| <= n && (8 * |a| >= MaxBits(n) || 8 * |p| >= MaxBits(n)) ==> r == Fail(DataTooLong))
      && (0 < |iv| <= n && 8 * |a| < MaxBits(n) && 8 * |p| < MaxBits(n) && !(0 < s <= n) ==> r == Fail(InvalidParameter))
      && (Params(n, iv, s) && 8 * |a| < MaxBits(n) && 8 * |p| < MaxBits(n) ==>
            var c := MgmCipher(fe, ke, n, iv, p);
            r == Ok((c, MgmTag(fa, ka, gf, n, iv, a, c, s))))
  {
    if 0 < |iv| <= n && 8 * |a| < MaxBits(n) {
      AuthSteps(st0, fa, ka, gf, n, iv, a);
      var s2 := AuthUpdate(AuthClean(st0, fa, ka, n, iv).value, fa, ka, gf, n, a).value;
      if 8 * |p| < MaxBits(n) {
        SealCipherSteps(s2, fe, ke, fa, ka, gf, n, iv, p);
        if 0 < s <= n {
          SealSteps(st0, fe, ke, fa, ka, gf, n, iv, a, p, s);
        }
      }
    }
  }

  /** The calls of decrypt_mgm fail as those of encrypt_mgm do; otherwise they
      give the plaintext and the tag over the received ciphertext. */
  lemma OpenRunResult(st0: MgmState, fe: Transform, ke: Bytes, fa: Transform, ka: Bytes, gf: Mul, n: nat,
                      iv: Bytes, a: Bytes, c: Bytes, s: nat)
    requires BlockSize(n) && Preserves(n, fe) && Preserves(n, fa) && FieldMul(gf) && Sized(st0, n)
    ensures var r := OpenRun(st0, fe, ke, fa, ka, gf, n, iv, a, c, s);
      && (!(0 < |iv| <= n) ==> r == Fail(InvalidIVLength))
      && (0 < |iv| <= n && (8 * |a| >= MaxBits(n) || 8 * |c| >= MaxBits(n)) ==> r == Fail(DataTooLong))
      && (0 < |iv| <= n && 8 * |a| < MaxBits(n) && 8 * |c| < MaxBits(n) && !(0 < s <= n) ==> r == Fail(InvalidParameter))
      && (Params(n, iv, s) && 8 * |a| < MaxBits(n) && 8 * |c| < MaxBits(n) ==>
            r == Ok((MgmCipher(fe, ke, n, iv, c), MgmTag(fa, ka, gf, n, iv, a, c, s))))
  {
    if 0 < |iv| <= n && 8 * |a| < MaxBits(n) {
      AuthSteps(st0, fa, ka, gf, n, iv, a);
      var s2 := AuthUpdate(AuthClean(st0, fa, ka, n, iv).value, fa, ka, gf, n, a).value;
      if 8 * |c| < MaxBits(n) {
        OpenCipherSteps(s2, fe, ke, fa, ka, gf, n, iv, c);
        if 0 < s <= n {
          OpenSteps(st0, fe, ke, fa, ka, gf, n, iv, a, c, s);
        }
      }
    }
  }

  // ---------------------------------------------------------------------------
  // MGM as a MAC: no ciphertext

  /** Finalize straight after the associated data gives the tag over A with an
      empty ciphertext. */
  lemma MacFinalStep(s2: MgmState, fa: Transform, ka: Bytes, gf: Mul, n: nat, iv: Bytes, a: Bytes, s: nat)
    requires Params(n, iv, s) && Preserves(n, fa) && FieldMul(gf) && Sized(s2, n) && s2.phase.Auth?
    requires s2.sum == AuthPart(fa, ka, gf, n, iv, a).sum && s2.z == AuthPart(fa, ka, gf, n, iv, a).z
    requires s2.abits == 8 * |a| && s2.pbits == 0
    ensures Finalize(s2, fa, ka, gf, n, s).Ok?
    ensures Finalize(s2, fa, ka, gf, n, s).value.1 == MgmTag(fa, ka, gf, n, iv, a, [], s)
  {
    var h1 := AuthPart(fa, ka, gf, n, iv, a);
    assert AccOf(s2) == Acc(h1.sum, h1.z, false);
  }

  /** clean, an update over whole blocks x, an update over the rest y (skipped
      when y is empty) and finalize give the MGM tag of x + y with no ciphertext. */
  lemma MacSteps(st0: MgmState, fa: Transform, ka: Bytes, gf: Mul, n: nat, iv: Bytes, x: Bytes, y: Bytes, s: nat)
    requires Params(n, iv, s) && Preserves(n, fa) && FieldMul(gf) && Sized(st0, n)
    requires WholeBlocks(|x|, n) && 8 * |x + y| < MaxBits(n)
    ensures var s1 := AuthClean(st0, fa, ka, n, iv);
      s1.Ok? && (var s2 := AuthUpdate(s1.value, fa, ka, gf, n, x);
      s2.Ok? && (var s3 := if |y| == 0 then s2 else AuthUpdate(s2.value, fa, ka, gf, n, y);
      s3.Ok? && (var s4 := Finalize(s3.value, fa, ka, gf, n, s);
      s4.Ok? && s4.value.1 == MgmTag(fa, ka, gf, n, iv, x + y, [], s))))
  {
    var s1 := AuthClean(st0, fa, ka, n, iv).value;
    AuthSteps(st0, fa, ka, gf, n, iv, x + y);
    AuthUpdateConcat(s1, fa, ka, gf, n, x, y);
    if |y| == 0 {
      assert x + y == x;
    }
    MacFinalStep(AuthUpdate(s1, fa, ka, gf, n, x + y).value, fa, ka, gf, n, iv, x + y, s);
  }

  // ---------------------------------------------------------------------------
  // Chunked streaming gives the whole-message formula

  /** However A and P are cut into chunks (only the last of each ending in a short
      block), clean, the chunks of A, encryption clean, the chunks of P and
      finalize give the ciphertext and the tag of the whole-message formula. */
  lemma ChunkedSeal(st0: MgmState, fe: Transform, ke: Bytes, fa: Transform, ka: Bytes, gf: Mul, n: nat,
                    iv: Bytes, ac: seq<Bytes>, pc: seq<Bytes>, s: nat)
    requires Params(n, iv, s) && Preserves(n, fe) && Preserves(n, fa) && FieldMul(gf) && Sized(st0, n)
    requires |ac| > 0 && Chunked(ac, n) && |pc| > 0 && Chunked(pc, n)
    requires 8 * |Flatten(ac)| < MaxBits(n) && 8 * |Flatten(pc)| < MaxBits(n)
    ensures var s1 := AuthClean(st0, fa, ka, n, iv);
      s1.Ok? && (var s2 := AuthUpdates(s1.value, fa, ka, gf, n, ac);
      s2.Ok? && (var s3 := EncClean(s2.value, fe, ke, n, iv);
      s3.Ok? && (var s4 := EncUpdates(s3.value, fe, ke, fa, ka, gf, n, pc);
      s4.Ok? && s4.value.1 == MgmCipher(fe, ke, n, iv, Flatten(pc)) && (var s5 := Finalize(s4.value.0, fa, ka, gf, n, s);
      s5.Ok? && s5.value.1 == MgmTag(fa, ka, gf, n, iv, Flatten(ac), s4.value.1, s)))))
  {
    var s1 := AuthClean(st0, fa, ka, n, iv).value;
    AuthUpdatesFlatten(s1, fa, ka, gf, n, ac);
    SealSteps(st0, fe, ke, fa, ka, gf, n, iv, Flatten(ac), Flatten(pc), s);
    var s3 := EncClean(AuthUpdate(s1, fa, ka, gf, n, Flatten(ac)).value, fe, ke, n, iv).value;
    EncUpdatesFlatten(s3, fe, ke, fa, ka, gf, n, pc);
  }

  /** The same with decryption: however A and C are cut into chunks, the
      streaming calls give the plaintext of the formula and the tag computed over
      the received ciphertext. */
  lemma ChunkedOpen(st0: MgmState, fe: Transform, ke: Bytes, fa: Transform, ka: Bytes, gf: Mul, n: nat,
                    iv: Bytes, ac: seq<Bytes>, cc: seq<Bytes>, s: nat)
    requires Params(n, iv, s) && Preserves(n, fe) && Preserves(n, fa) && FieldMul(gf) && Sized(st0, n)
    requires |ac| > 0 && Chunked(ac, n) && |cc| > 0 && Chunked(cc, n)
    requires 8 * |Flatten(ac)| < MaxBits(n) && 8 * |Flatten(cc)| < MaxBits(n)
    ensures var s1 := AuthClean(st0, fa, ka, n, iv);
      s1.Ok? && (var s2 := AuthUpdates(s1.value, fa, ka, gf, n, ac);
      s2.Ok? && (var s3 := EncClean(s2.value, fe, ke, n, iv);
      s3.Ok? && (var s4 := DecUpdates(s3.value, fe, ke, fa, ka, gf, n, cc);
      s4.Ok? && s4.value.1 == MgmCipher(fe, ke, n, iv, Flatten(cc)) && (var s5 := Finalize(s4.value.0, fa, ka, gf, n, s);
      s5.Ok? && s5.value.1 == MgmTag(fa, ka, gf, n, iv, Flatten(ac), Flatten(cc), s)))))
  {
    var s1 := AuthClean(st0, fa, ka, n, iv).value;
    AuthUpdatesFlatten(s1, fa, ka, gf, n, ac);
    OpenSteps(st0, fe, ke, fa, ka, gf, n, iv, Flatten(ac), Flatten(cc), s);
    var s3 := EncClean(AuthUpdate(s1, fa, ka, gf, n, Flatten(ac)).value, fe, ke, n, iv).value;
    DecUpdatesFlatten(s3, fe, ke, fa, ka, gf, n, cc);
  }
}
