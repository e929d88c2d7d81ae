/** The MGM context (struct mgm_ctx) whose clean, update and finalize calls change
    its fields in place, the whole-message entry points built from those calls,
    and the MAC-only object (struct mgm). Each call is proved to perform the
    corresponding transition of module MgmSpec. */
module Mgm {
  import opened Octets
  import opened Status
  import opened Modes
  import opened MgmSpec
  import opened Bckey

  class MgmContext {
    /** The block size the 128-bit fields are used at: 8 or 16 bytes. */
    const bsize: nat
    /** The running sum of the products H_i * block. */
    var sum: Bytes
    /** The counter Y of the keystream. */
    var ycount: Bytes
    /** The counter Z of the authentication blocks. */
    var zcount: Bytes
    /** Bits of plaintext, or of ciphertext, processed. */
    var pbitlen: nat
    /** Bits of associated data processed. */
    var abitlen: nat
    /** Which calls are allowed next. */
    var flags: Phase

    /** The fields as a value of the pure state machine. */
    function State(): (r: MgmState)
      reads this
      ensures Sized(r, bsize) <==> |sum| == bsize && |ycount| == bsize && |zcount| == bsize
    {
      MgmState(sum, ycount, zcount, pbitlen, abitlen, flags)
    }

    ghost predicate Valid()
      reads this
    {
      BlockSize(bsize) && Sized(State(), bsize)
    }

    /** A context not yet cleaned. */
    constructor (n: nat)
      requires BlockSize(n)
      ensures Valid() && bsize == n
      ensures State() == MgmState(Zeros(n), Zeros(n), Zeros(n), 0, 0, Clean)
    {
      bsize := n;
      sum, ycount, zcount := Zeros(n), Zeros(n), Zeros(n);
      pbitlen, abitlen, flags := 0, 0, Clean;
    }

    /** authentication_clean with the authentication key. */
    method AuthenticationClean(authKey: BlockCipherKey, iv: Bytes) returns (o: Outcome)
      requires Valid() && authKey.Valid() && authKey.bsize == bsize
      modifies this
      ensures Valid()
      ensures var r := AuthClean(old(State()), authKey.encrypt, authKey.key, bsize, iv);
        && (r.Fail? ==> o == Failure(r.error) && State() == old(State()))
        && (r.Ok? ==> o == Success && State() == r.value)
    {
      if !(0 < |iv| <= bsize) {
        return Failure(InvalidIVLength);
      }
      sum := Zeros(bsize);
      zcount := authKey.encrypt(authKey.key, Nonce(iv, bsize, true));
      pbitlen, abitlen, flags := 0, 0, Auth(false);
      return Success;
    }

    /** authentication_update: the chunk taken block by block into the sum, a
        final short block zero-padded and then closing the associated data. */
    method AuthenticationUpdate(authKey: BlockCipherKey, gf: Mul, data: Bytes) returns (o: Outcome)
      requires Valid() && authKey.Valid() && authKey.bsize == bsize && FieldMul(gf)
      modifies this
      ensures Valid()
      ensures var r := AuthUpdate(old(State()), authKey.encrypt, authKey.key, gf, bsize, data);
        && (r.Fail? ==> o == Failure(r.error) && State() == old(State()))
        && (r.Ok? ==> o == Success && State() == r.value)
    {
      if flags != Auth(false) {
        return Failure(PhaseViolation);
      }
      if abitlen + 8 * |data| >= MaxBits(bsize) {
        return Failure(DataTooLong);
      }
      ghost var st0 := State();
      var acc := AbsorbLoop(authKey.encrypt, authKey.key, gf, bsize, sum, zcount, data);
      sum, zcount, abitlen, flags := acc.sum, acc.z, abitlen + 8 * |data|, Auth(acc.short);
      AuthNextIs(st0, authKey.encrypt, authKey.key, gf, bsize, data, acc);
      return Success;
    }

    /** encryption_clean with the encryption key. */
    method EncryptionClean(encKey: BlockCipherKey, iv: Bytes) returns (o: Outcome)
      requires Valid() && encKey.Valid() && encKey.bsize == bsize
      modifies this
      ensures Valid()
      ensures var r := EncClean(old(State()), encKey.encrypt, encKey.key, bsize, iv);
        && (r.Fail? ==> o == Failure(r.error) && State() == old(State()))
        && (r.Ok? ==> o == Success && State() == r.value)
    {
      if !(0 < |iv| <= bsize) {
        return Failure(InvalidIVLength);
      }
      if !flags.Auth? {
        return Failure(PhaseViolation);
      }
      ycount := encKey.encrypt(encKey.key, Nonce(iv, bsize, false));
      pbitlen, flags := 0, Enc(false);
      return Success;
    }

    /** encryption_update: per block, C = P xor E(Y) and Y := incr_r(Y), the
        ciphertext block taken into the sum with Z; a final short block uses a
        truncated keystream block, leaves Y where it is and closes the phase. */
    method EncryptionUpdate(encKey: BlockCipherKey, authKey: BlockCipherKey, gf: Mul, data: Bytes) returns (r: Result<Bytes>)
      requires Valid() && encKey.Valid() && authKey.Valid() && FieldMul(gf)
      requires encKey.bsize == bsize && authKey.bsize == bsize
      modifies this
      ensures Valid()
      ensures var e := EncUpdate(old(State()), encKey.encrypt, encKey.key, authKey.encrypt, authKey.key, gf, bsize, data);
        && (e.Fail? ==> r == Fail(e.error) && State() == old(State()))
        && (e.Ok? ==> r == Ok(e.value.1) && State() == e.value.0)
    {
      if flags != Enc(false) {
        return Fail(PhaseViolation);
      }
      if pbitlen + 8 * |data| >= MaxBits(bsize) {
        return Fail(DataTooLong);
      }
      var out := CipherUpdate(encKey, authKey, gf, data, false);
      return Ok(out);
    }

    /** decryption_update: the same keystream and counters, but the input, which
        is the ciphertext, is what gets taken into the sum. */
    method DecryptionUpdate(encKey: BlockCipherKey, authKey: BlockCipherKey, gf: Mul, data: Bytes) returns (r: Result<Bytes>)
      requires Valid() && encKey.Valid() && authKey.Valid() && FieldMul(gf)
      requires encKey.bsize == bsize && authKey.bsize == bsize
      modifies this
      ensures Valid()
      ensures var e := DecUpdate(old(State()), encKey.encrypt, encKey.key, authKey.encrypt, authKey.key, gf, bsize, data);
        && (e.Fail? ==> r == Fail(e.error) && State() == old(State()))
        && (e.Ok? ==> r == Ok(e.value.1) && State() == e.value.0)
    {
      if flags != Enc(false) {
        return Fail(PhaseViolation);
      }
      if pbitlen + 8 * |data| >= MaxBits(bsize) {
        return Fail(DataTooLong);
      }
      var out := CipherUpdate(encKey, authKey, gf, data, true);
      return Ok(out);
    }

    /** authentication_finalize: after a clean, a tag of one to bsize bytes; the
        block len(A) || len(C) is authenticated, the tag is the leading s bytes of
        E(sum), and the context is finished. */
    method AuthenticationFinalize(authKey: BlockCipherKey, gf: Mul, s: nat) returns (r: Result<Bytes>)
      requires Valid() && authKey.Valid() && authKey.bsize == bsize && FieldMul(gf)
      modifies this
      ensures Valid()
      ensures var e := MgmSpec.Finalize(old(State()), authKey.encrypt, authKey.key, gf, bsize, s);
        && (e.Fail? ==> r == Fail(e.error) && State() == old(State()))
        && (e.Ok? ==> r == Ok(e.value.1) && State() == e.value.0)
    {
      if !(0 < s <= bsize) {
        return Fail(InvalidParameter);
      }
      if flags == Clean || flags == Finalized {
        return Fail(PhaseViolation);
      }
      var f, k := authKey.encrypt, authKey.key;
      var lengths := FromNat(abitlen, bsize / 2) + FromNat(pbitlen, bsize / 2);
      sum, zcount, flags := Xor(sum, gf(f(k, zcount), lengths)), IncrLeft(zcount), Finalized;
      return Ok(f(k, sum)[..s]);
    }

    /** The part of an accepted encryption or decryption update that changes the
        fields: the keystream applied, Y and Z stepped, the ciphertext authenticated
        and its bits counted. */
    method CipherUpdate(encKey: BlockCipherKey, authKey: BlockCipherKey, gf: Mul, data: Bytes, decrypting: bool) returns (out: Bytes)
      requires Valid() && encKey.Valid() && authKey.Valid() && FieldMul(gf)
      requires encKey.bsize == bsize && authKey.bsize == bsize
      modifies this
      ensures Valid()
      ensures out == Ctr(encKey.encrypt, encKey.key, bsize, IncrRight, old(ycount), data)
      ensures State() == CipherNext(old(State()), authKey.encrypt, authKey.key, gf, bsize, |data|, if decrypting then data else out)
    {
      ghost var st0 := State();
      var fa, ka := authKey.encrypt, authKey.key;
      var acc, y;
      out, acc, y := CipherLoop(encKey.encrypt, encKey.key, fa, ka, gf, bsize, sum, ycount, zcount, data, decrypting);
      sum, ycount, zcount, pbitlen, flags := acc.sum, y, acc.z, pbitlen + 8 * |data|, Enc(acc.short);
      CipherNextIs(st0, fa, ka, gf, bsize, |data|, if decrypting then data else out, acc, y);
    }
  }

  /** The MAC object (struct mgm): a key, a context and a stored IV, driven
      through the generic clean, update and finalize calls of a MAC. */
  class MgmMac {
    /** The multiplication of the field for the block size of the key. */
    const gf: Mul
    /** The authentication key: a copy owned by this object, as struct mgm
        embeds its own bckey. */
    const bkey: BlockCipherKey
    /** The state of the computation. */
    const mctx: MgmContext
    /** The IV the next clean starts from. */
    var iv: Bytes

    ghost predicate Valid()
      reads this, bkey, mctx
    {
      bkey.Valid() && mctx.Valid() && mctx.bsize == bkey.bsize && FieldMul(gf)
    }

    /** A MAC object over a private copy of the key k, with no IV yet; later
        changes to its key leave k alone. */
    constructor (k: BlockCipherKey, g: Mul)
      requires k.Valid() && FieldMul(g)
      ensures Valid() && gf == g && iv == [] && fresh(mctx) && mctx.flags == Phase.Clean
      ensures fresh(bkey) && bkey.bsize == k.bsize && bkey.encrypt == k.encrypt && bkey.decrypt == k.decrypt
      ensures bkey.key == k.key && !bkey.ivSet
    {
      gf := g;
      bkey := new BlockCipherKey.Copy(k);
      mctx := new MgmContext(k.bsize);
      iv := [];
    }

    /** set_iv: an IV of one to bsize bytes is stored for the next clean. */
    method SetIv(v: Bytes) returns (o: Outcome)
      requires Valid()
      modifies this`iv
      ensures Valid()
      ensures o == (if 0 < |v| <= bkey.bsize then Success else Failure(InvalidIVLength))
      ensures iv == (if 0 < |v| <= bkey.bsize then v else old(iv))
    {
      if !(0 < |v| <= bkey.bsize) {
        return Failure(InvalidIVLength);
      }
      iv := v;
      return Success;
    }

    /** set_key: the key of the block cipher replaced; one of the wrong length is refused. */
    method SetKey(k: Bytes) returns (o: Outcome)
      requires Valid()
      modifies bkey`key
      ensures Valid()
      ensures o == (if |k| == KeyLength then Success else Failure(InvalidKeyLength))
      ensures bkey.key == (if |k| == KeyLength then k else old(bkey.key))
    {
      o := bkey.SetKey(k);
    }

    /** clean: authentication_clean from the stored IV. */
    method Clean() returns (o: Outcome)
      requires Valid()
      modifies mctx
      ensures Valid()
      ensures var r := AuthClean(old(mctx.State()), bkey.encrypt, bkey.key, bkey.bsize, iv);
        && (r.Fail? ==> o == Failure(r.error) && mctx.State() == old(mctx.State()))
        && (r.Ok? ==> o == Success && mctx.State() == r.value)
    {
      o := mctx.AuthenticationClean(bkey, iv);
    }

    /** update: authentication_update over a chunk of the message. */
    method Update(data: Bytes) returns (o: Outcome)
      requires Valid()
      modifies mctx
      ensures Valid()
      ensures var r := AuthUpdate(old(mctx.State()), bkey.encrypt, bkey.key, gf, bkey.bsize, data);
        && (r.Fail? ==> o == Failure(r.error) && mctx.State() == old(mctx.State()))
        && (r.Ok? ==> o == Success && mctx.State() == r.value)
    {
      o := mctx.AuthenticationUpdate(bkey, gf, data);
    }

    /** finalize: a last chunk, if not empty, authenticated, then a tag of a
        whole block. */
    method Finalize(data: Bytes) returns (r: Result<Bytes>)
      requires Valid()
      modifies mctx
      ensures Valid()
      ensures var u := if |data| == 0 then Ok(old(mctx.State()))
                       else AuthUpdate(old(mctx.State()), bkey.encrypt, bkey.key, gf, bkey.bsize, data);
        && (u.Fail? ==> r == Fail(u.error) && mctx.State() == old(mctx.State()))
        && (u.Ok? ==> var e := MgmSpec.Finalize(u.value, bkey.encrypt, bkey.key, gf, bkey.bsize, bkey.bsize);
              && (e.Fail? ==> r == Fail(e.error) && mctx.State() == u.value)
              && (e.Ok? ==> r == Ok(e.value.1) && mctx.State() == e.value.0))
    {
      if |data| > 0 {
        var o := mctx.AuthenticationUpdate(bkey, gf, data);
        if o.Failure? {
          return Fail(o.error);
        }
      }
      r := mctx.AuthenticationFinalize(bkey, gf, bkey.bsize);
    }
  }

  /** encrypt_mgm: clean, the associated data, encryption clean, the plaintext
      and finalize on a context of its own; the ciphertext and the tag of the
      whole-message formula, or the first error of those calls. */
  method EncryptMgm(encKey: BlockCipherKey, authKey: BlockCipherKey, gf: Mul,
                    a: Bytes, p: Bytes, iv: Bytes, s: nat) returns (r: Result<(Bytes, Bytes)>)
    requires encKey.Valid() && authKey.Valid() && FieldMul(gf)
    ensures encKey.bsize != authKey.bsize ==> r == Fail(InvalidParameter)
    ensures encKey.bsize == authKey.bsize ==> var n := authKey.bsize;
      && (!(0 < |iv| <= n) ==> r == Fail(InvalidIVLength))
      && (0 < |iv| <= n && (8 * |a| >= MaxBits(n) || 8 * |p| >= MaxBits(n)) ==> r == Fail(DataTooLong))
      && (0 < |iv| <= n && 8 * |a| < MaxBits(n) && 8 * |p| < MaxBits(n) && !(0 < s <= n) ==> r == Fail(InvalidParameter))
      && (Params(n, iv, s) && 8 * |a| < MaxBits(n) && 8 * |p| < MaxBits(n) ==>
            var c := MgmCipher(encKey.encrypt, encKey.key, n, iv, p);
            r == Ok((c, MgmTag(authKey.encrypt, authKey.key, gf, n, iv, a, c, s))))
  {
    if encKey.bsize != authKey.bsize {
      return Fail(InvalidParameter);
    }
    var ctx := new MgmContext(authKey.bsize);
    ghost var st0 := ctx.State();
    r := Seal(ctx, encKey, authKey, gf, a, p, iv, s);
    SealRunResult(st0, encKey.encrypt, encKey.key, authKey.encrypt, authKey.key, gf, authKey.bsize, iv, a, p, s);
  }

  /** The calls of encrypt_mgm on a context, stopping at the first error. */
  method Seal(ctx: MgmContext, encKey: BlockCipherKey, authKey: BlockCipherKey, gf: Mul,
              a: Bytes, p: Bytes, iv: Bytes, s: nat) returns (r: Result<(Bytes, Bytes)>)
    requires ctx.Valid() && encKey.Valid() && authKey.Valid() && FieldMul(gf)
    requires encKey.bsize == ctx.bsize && authKey.bsize == ctx.bsize
    modifies ctx
    ensures r == SealRun(old(ctx.State()), encKey.encrypt, encKey.key, authKey.encrypt, authKey.key, gf, ctx.bsize, iv, a, p, s)
  {
    var o := ctx.AuthenticationClean(authKey, iv);
    if o.Failure? {
      return Fail(o.error);
    }
    o := ctx.AuthenticationUpdate(authKey, gf, a);
    if o.Failure? {
      return Fail(o.error);
    }
    o := ctx.EncryptionClean(encKey, iv);
    assert o == Success;
    var c := ctx.EncryptionUpdate(encKey, authKey, gf, p);
    if c.Fail? {
      return Fail(c.error);
    }
    var t := ctx.AuthenticationFinalize(authKey, gf, s);
    if t.Fail? {
      return Fail(t.error);
    }
    return Ok((c.value, t.value));
  }

  /** decrypt_mgm: the same calls with decryption of the ciphertext; true exactly
      when the parameters are accepted and the tag is the one computed over the
      associated data and the received ciphertext, the plaintext then being the
      decryption of the ciphertext. On any failure, a tag mismatch included, no
      plaintext is released. */
  method DecryptMgm(encKey: BlockCipherKey, authKey: BlockCipherKey, gf: Mul,
                    a: Bytes, c: Bytes, iv: Bytes, tag: Bytes) returns (ok: bool, out: Bytes)
    requires encKey.Valid() && authKey.Valid() && FieldMul(gf)
    ensures ok ==> encKey.bsize == authKey.bsize && Params(authKey.bsize, iv, |tag|)
    ensures ok ==> 8 * |a| < MaxBits(authKey.bsize) && 8 * |c| < MaxBits(authKey.bsize)
    ensures !ok ==> out == []
    ensures encKey.bsize == authKey.bsize && Params(authKey.bsize, iv, |tag|) &&
            8 * |a| < MaxBits(authKey.bsize) && 8 * |c| < MaxBits(authKey.bsize) ==>
            var m := MgmOpen(encKey.encrypt, encKey.key, authKey.encrypt, authKey.key, gf, authKey.bsize, iv, a, c, tag);
            ok == m.0 && (ok ==> out == m.1)
  {
    if encKey.bsize != authKey.bsize {
      return false, [];
    }
    var ctx := new MgmContext(authKey.bsize);
    ghost var st0 := ctx.State();
    var r := Open(ctx, encKey, authKey, gf, a, c, iv, |tag|);
    OpenRunResult(st0, encKey.encrypt, encKey.key, authKey.encrypt, authKey.key, gf, authKey.bsize, iv, a, c, |tag|);
    if r.Fail? {
      return false, [];
    }
    ok := r.value.1 == tag;
    out := if ok then r.value.0 else [];
  }

  /** The calls of decrypt_mgm on a context, stopping at the first error: the
      plaintext and the tag computed over the ciphertext. */
  method Open(ctx: MgmContext, encKey: BlockCipherKey, authKey: BlockCipherKey, gf: Mul,
              a: Bytes, c: Bytes, iv: Bytes, s: nat) returns (r: Result<(Bytes, Bytes)>)
    requires ctx.Valid() && encKey.Valid() && authKey.Valid() && FieldMul(gf)
    requires encKey.bsize == ctx.bsize && authKey.bsize == ctx.bsize
    modifies ctx
    ensures r == OpenRun(old(ctx.State()), encKey.encrypt, encKey.key, authKey.encrypt, authKey.key, gf, ctx.bsize, iv, a, c, s)
  {
    var o := ctx.AuthenticationClean(authKey, iv);
    if o.Failure? {
      return Fail(o.error);
    }
    o := ctx.AuthenticationUpdate(authKey, gf, a);
    if o.Failure? {
      return Fail(o.error);
    }
    o := ctx.EncryptionClean(encKey, iv);
    assert o == Success;
    var d := ctx.DecryptionUpdate(encKey, authKey, gf, c);
    if d.Fail? {
      return Fail(d.error);
    }
    var t := ctx.AuthenticationFinalize(authKey, gf, s);
    if t.Fail? {
      return Fail(t.error);
    }
    return Ok((d.value, t.value));
  }

  /** The block loop of authentication_update: whole blocks into the sum with
      Z stepped by incr_l, then a final short block zero-padded. */
  method AbsorbLoop(f: Transform, k: Bytes, gf: Mul, n: nat, sum: Bytes, z: Bytes, data: Bytes) returns (acc: Acc)
    requires n > 0 && Preserves(n, f) && FieldMul(gf) && |sum| == n && |z| == n
    ensures acc == Absorb(f, k, gf, n, Acc(sum, z, false), data)
  {
    var s, zc, rest := sum, z, data;
    while |rest| >= n
      invariant |s| == n && |zc| == n
      invariant Absorb(f, k, gf, n, Acc(s, zc, false), rest) == Absorb(f, k, gf, n, Acc(sum, z, false), data)
      decreases |rest|
    {
      AbsorbBlock(f, k, gf, n, s, zc, rest);
      s, zc, rest := Xor(s, gf(f(k, zc), rest[..n])), IncrLeft(zc), rest[n..];
    }
    AbsorbTail(f, k, gf, n, s, zc, rest);
    if |rest| > 0 {
      acc := Acc(Xor(s, gf(f(k, zc), Pad(rest, n))), IncrLeft(zc), true);
    } else {
      acc := Acc(s, zc, false);
    }
  }

  /** The block loop shared by encryption_update and decryption_update: per
      block the input XORed with E(Y), Y := incr_r(Y), and the ciphertext block
      (the output when encrypting, the input when decrypting) taken into the sum
      with Z; a final short block uses a truncated keystream block. */
  method CipherLoop(fe: Transform, ke: Bytes, fa: Transform, ka: Bytes, gf: Mul, n: nat,
                    sum: Bytes, y: Bytes, z: Bytes, data: Bytes, decrypting: bool)
    returns (out: Bytes, acc: Acc, y': Bytes)
    requires n > 0 && Preserves(n, fe) && Preserves(n, fa) && FieldMul(gf)
    requires |sum| == n && |y| == n && |z| == n
    ensures out == Ctr(fe, ke, n, IncrRight, y, data)
    ensures decrypting ==> acc == Absorb(fa, ka, gf, n, Acc(sum, z, false), data)
    ensures !decrypting ==> acc == Absorb(fa, ka, gf, n, Acc(sum, z, false), out)
    ensures y' == Advance(y, n, |data|)
  {
    CountersKeep();
    ghost var c := Ctr(fe, ke, n, IncrRight, y, data);
    ghost var target := Absorb(fa, ka, gf, n, Acc(sum, z, false), if decrypting then data else c);
    out := [];
    var s, yc, zc, rest := sum, y, z, data;
    while |rest| >= n
      invariant |s| == n && |yc| == n && |zc| == n
      invariant out + Ctr(fe, ke, n, IncrRight, yc, rest) == c
      invariant Absorb(fa, ka, gf, n, Acc(s, zc, false), if decrypting then rest else Ctr(fe, ke, n, IncrRight, yc, rest)) == target
      invariant Advance(yc, n, |rest|) == Advance(y, n, |data|)
      decreases |rest|
    {
      var block := Xor(rest[..n], fe(ke, yc));
      var authed := if decrypting then rest[..n] else block;
      assert |authed| == n && |fa(ka, zc)| == n;
      var h := gf(fa(ka, zc), authed);
      assert |h| == n;
      CipherLoopStep(fe, ke, fa, ka, gf, n, s, yc, zc, rest, out, decrypting);
      s, zc := Xor(s, h), IncrLeft(zc);
      out, yc, rest := out + block, IncrRight(yc), rest[n..];
    }
    AdvanceShort(yc, n, |rest|);
    var last := Xor(rest, fe(ke, yc)[..|rest|]);
    assert last == Ctr(fe, ke, n, IncrRight, yc, rest);
    AbsorbTail(fa, ka, gf, n, s, zc, if decrypting then rest else last);
    y' := yc;
    out := out + last;
    if |rest| > 0 {
      var authed := if decrypting then rest else last;
      acc := Acc(Xor(s, gf(fa(ka, zc), Pad(authed, n))), IncrLeft(zc), true);
    } else {
      acc := Acc(s, zc, false);
    }
  }
}
