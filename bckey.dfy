/** The secret key of a block cipher (struct bckey) and the modes that run on it:
    ECB, CTR, CTR-ACPKM and OMAC, each a block loop proved against the
    corresponding function of module Modes. */
module Bckey {
  import opened Octets
  import opened Status
  import opened Modes

  class BlockCipherKey {
    /** The block size in bytes: 8 for Magma, 16 for Kuznechik. */
    const bsize: nat
    /** The single-block transforms of the algorithm. */
    const encrypt: Transform
    const decrypt: Transform
    /** The current key; CTR-ACPKM replaces it in place. */
    var key: Bytes
    /** The current counter of a CTR stream. */
    var ivector: Bytes
    /** Whether a CTR stream may be continued without a new IV: set after a call
        that ended on a block boundary, cleared after a partial final block. */
    var ivSet: bool

    /** The transforms are a block cipher for bsize, the key is a full key, and
        the counter buffer is one block. */
    ghost predicate Valid()
      reads this
    {
      && ValidCipher(bsize, encrypt, decrypt)
      && |key| == KeyLength
      && |ivector| == bsize
    }

    /** A key object for the given algorithm holding key k, with no CTR stream open. */
    constructor (n: nat, enc: Transform, dec: Transform, k: Bytes)
      requires ValidCipher(n, enc, dec) && |k| == KeyLength
      ensures Valid()
      ensures bsize == n && encrypt == enc && decrypt == dec && key == k
      ensures ivector == Zeros(n) && !ivSet
    {
      bsize, encrypt, decrypt := n, enc, dec;
      key := k;
      ivector := Zeros(n);
      ivSet := false;
    }

    /** Creation followed by the assignment of a key: an unsupported block size
        and a key of the wrong length are refused. */
    static method Create(n: nat, enc: Transform, dec: Transform, k: Bytes) returns (r: Result<BlockCipherKey>)
      requires BlockSize(n) ==> ValidCipher(n, enc, dec)
      ensures r.Fail? <==> !BlockSize(n) || |k| != KeyLength
      ensures !BlockSize(n) ==> r == Fail(InvalidParameter)
      ensures BlockSize(n) && |k| != KeyLength ==> r == Fail(InvalidKeyLength)
      ensures r.Ok? ==> fresh(r.value) && r.value.Valid() && r.value.bsize == n
      ensures r.Ok? ==> r.value.encrypt == enc && r.value.decrypt == dec && r.value.key == k && !r.value.ivSet
    {
      if !BlockSize(n) {
        return Fail(InvalidParameter);
      }
      if |k| != KeyLength {
        return Fail(InvalidKeyLength);
      }
      var b := new BlockCipherKey(n, enc, dec, k);
      return Ok(b);
    }

    /** A new key object with the algorithm, block size and key of src. */
    constructor Copy(src: BlockCipherKey)
      requires src.Valid()
      ensures Valid()
      ensures bsize == src.bsize && encrypt == src.encrypt && decrypt == src.decrypt && key == src.key
      ensures ivector == Zeros(bsize) && !ivSet
    {
      bsize, encrypt, decrypt := src.bsize, src.encrypt, src.decrypt;
      key := src.key;
      ivector := Zeros(src.bsize);
      ivSet := false;
      new;
    }

    /** A new key value; one of the wrong length is refused and the key kept. */
    method SetKey(k: Bytes) returns (o: Outcome)
      requires Valid()
      modifies this`key
      ensures Valid()
      ensures o == (if |k| == KeyLength then Success else Failure(InvalidKeyLength))
      ensures key == (if |k| == KeyLength then k else old(key))
    {
      if |k| != KeyLength {
        return Failure(InvalidKeyLength);
      }
      key := k;
      return Success;
    }

    // -------------------------------------------------------------------------
    // ECB

    /** The block loop shared by ECB encryption and decryption. */
    method EcbLoop(f: Transform, data: Bytes) returns (out: Bytes)
      requires Valid() && Preserves(bsize, f) && WholeBlocks(|data|, bsize)
      ensures out == Ecb(f, key, bsize, data)
    {
      out := [];
      var rest := data;
      while |rest| > 0
        invariant WholeBlocks(|rest|, bsize)
        invariant out + Ecb(f, key, bsize, rest) == Ecb(f, key, bsize, data)
        decreases |rest|
      {
        var block := f(key, rest[..bsize]);
        ghost var tail := Ecb(f, key, bsize, rest[bsize..]);
        assert Ecb(f, key, bsize, rest) == block + tail;
        assert out + (block + tail) == (out + block) + tail;
        out, rest := out + block, rest[bsize..];
      }
      assert out + [] == out;
    }

    /** ECB encryption; data that is not a whole number of blocks is refused. */
    method EncryptEcb(data: Bytes) returns (r: Result<Bytes>)
      requires Valid()
      ensures r.Ok? <==> |data| % bsize == 0
      ensures r.Ok? ==> WholeBlocks(|data|, bsize) && r.value == Ecb(encrypt, key, bsize, data)
      ensures r.Fail? ==> r.error == InvalidLength
    {
      WholeBlocksMod(|data|, bsize);
      if |data| % bsize != 0 {
        return Fail(InvalidLength);
      }
      var out := EcbLoop(encrypt, data);
      return Ok(out);
    }

    /** ECB decryption; data that is not a whole number of blocks is refused. */
    method DecryptEcb(data: Bytes) returns (r: Result<Bytes>)
      requires Valid()
      ensures r.Ok? <==> |data| % bsize == 0
      ensures r.Ok? ==> WholeBlocks(|data|, bsize) && r.value == Ecb(decrypt, key, bsize, data)
      ensures r.Fail? ==> r.error == InvalidLength
    {
      WholeBlocksMod(|data|, bsize);
      if |data| % bsize != 0 {
        return Fail(InvalidLength);
      }
      var out := EcbLoop(decrypt, data);
      return Ok(out);
    }

    // -------------------------------------------------------------------------
    // CTR

    /** The counter a CTR call starts from: IV || 0^(n/2) for a new IV of half a
        block, the stored counter when the call continues an open stream. */
    function CtrStart(iv: Option<Bytes>): (r: Result<Bytes>)
      reads this
      requires Valid()
      ensures r.Ok? ==> |r.value| == bsize
      ensures r.Ok? && iv.Some? ==> r.value == iv.value + Zeros(bsize / 2)
      ensures r.Ok? && iv.None? ==> r.value == ivector
      ensures r.Fail? <==> (iv.Some? && |iv.value| != bsize / 2) || (iv.None? && !ivSet)
    {
      match iv
      case Some(v) => if |v| == bsize / 2 then Ok(v + Zeros(bsize / 2)) else Fail(InvalidIVLength)
      case None => if ivSet then Ok(ivector) else Fail(IVNotSet)
    }

    /** Counter-mode keystream over data from counter c under the current key;
        also returns the counter after the last whole block. */
    method CtrLoop(c: Bytes, data: Bytes) returns (out: Bytes, next: Bytes)
      requires Valid() && |c| == bsize
      ensures out == Modes.Ctr(encrypt, key, bsize, Increment, c, data)
      ensures next == Iterate(Increment, c, Blocks(|data|, bsize))
    {
      CountersKeep();
      out, next := [], c;
      var rest := data;
      while |rest| >= bsize
        invariant |next| == bsize
        invariant out + Modes.Ctr(encrypt, key, bsize, Increment, next, rest) == Modes.Ctr(encrypt, key, bsize, Increment, c, data)
        invariant Iterate(Increment, next, Blocks(|rest|, bsize)) == Iterate(Increment, c, Blocks(|data|, bsize))
        decreases |rest|
      {
        var block := Xor(rest[..bsize], encrypt(key, next));
        ghost var tail := Modes.Ctr(encrypt, key, bsize, Increment, Increment(next), rest[bsize..]);
        assert Modes.Ctr(encrypt, key, bsize, Increment, next, rest) == block + tail;
        assert out + (block + tail) == (out + block) + tail;
        assert |rest[bsize..]| == |rest| - bsize;
        out, next, rest := out + block, Increment(next), rest[bsize..];
      }
      if |rest| > 0 {
        out := out + Xor(rest, encrypt(key, next)[..|rest|]);
      } else {
        assert out + [] == out;
      }
    }

    /** CTR encryption, which is also CTR decryption. With Some(iv) a new stream
        starts at IV || 0^(n/2); with None the stream of the last call continues,
        which is possible only if that call ended on a block boundary. The
        counter after the last whole block is kept for continuation. */
    method Ctr(data: Bytes, iv: Option<Bytes>) returns (r: Result<Bytes>)
      requires Valid()
      modifies this`ivector, this`ivSet
      ensures Valid()
      ensures old(CtrStart(iv)).Fail? ==>
        r == Fail(old(CtrStart(iv)).error) && ivector == old(ivector) && ivSet == old(ivSet)
      ensures old(CtrStart(iv)).Ok? ==>
        && r == Ok(Modes.Ctr(encrypt, key, bsize, Increment, old(CtrStart(iv)).value, data))
        && ivector == Iterate(Increment, old(CtrStart(iv)).value, Blocks(|data|, bsize))
        && ivSet == WholeBlocks(|data|, bsize)
    {
      var start := CtrStart(iv);
      if start.Fail? {
        return Fail(start.error);
      }
      var out, next := CtrLoop(start.value, data);
      CountersKeep();
      ivector, ivSet := next, WholeBlocks(|data|, bsize);
      return Ok(out);
    }

    // -------------------------------------------------------------------------
    // ACPKM

    /** The key replaced by its ACPKM successor. */
    method NextAcpkmKey()
      requires Valid()
      modifies this`key
      ensures Valid()
      ensures key == NextKey(encrypt, old(key), bsize)
    {
      var r := EncryptEcb(AcpkmD);
      key := r.value;
    }

    /** CTR-ACPKM from IV || 0^(n/2): the key is replaced by its successor after
        every section but the last, and stays replaced. The section length must be
        a positive multiple of the block size. */
    method CtrAcpkm(data: Bytes, section: nat, iv: Bytes) returns (r: Result<Bytes>)
      requires Valid()
      modifies this`key, this`ivector, this`ivSet
      ensures Valid()
      ensures section == 0 || section % bsize != 0 ==>
        r == Fail(InvalidParameter) && key == old(key) && ivector == old(ivector) && ivSet == old(ivSet)
      ensures section > 0 && section % bsize == 0 && |iv| != bsize / 2 ==>
        r == Fail(InvalidIVLength) && key == old(key) && ivector == old(ivector) && ivSet == old(ivSet)
      ensures section > 0 && section % bsize == 0 && |iv| == bsize / 2 ==>
        && r == Ok(Modes.CtrAcpkm(encrypt, Evolution(encrypt, bsize), old(key), bsize, section, iv + Zeros(bsize / 2), data))
        && key == AcpkmKeyAfter(Evolution(encrypt, bsize), old(key), section, |data|)
        && ivector == Iterate(Increment, iv + Zeros(bsize / 2), Blocks(|data|, bsize))
        && !ivSet
    {
      WholeBlocksMod(section, bsize);
      if section == 0 || section % bsize != 0 {
        return Fail(InvalidParameter);
      }
      if |iv| != bsize / 2 {
        return Fail(InvalidIVLength);
      }
      var out, next := AcpkmLoop(iv + Zeros(bsize / 2), section, data);
      ivector, ivSet := next, false;
      return Ok(out);
    }

    /** The section loop of CTR-ACPKM from counter c: each section but the last
        is followed by a replacement of the key by its successor. */
    method AcpkmLoop(c: Bytes, section: nat, data: Bytes) returns (out: Bytes, next: Bytes)
      requires Valid() && |c| == bsize && section > 0 && WholeBlocks(section, bsize)
      modifies this`key
      ensures Valid()
      ensures out == Modes.CtrAcpkm(encrypt, Evolution(encrypt, bsize), old(key), bsize, section, c, data)
      ensures key == AcpkmKeyAfter(Evolution(encrypt, bsize), old(key), section, |data|)
      ensures next == Iterate(Increment, c, Blocks(|data|, bsize)) && |next| == bsize
    {
      ghost var k0, ev := key, Evolution(encrypt, bsize);
      ghost var total := Modes.CtrAcpkm(encrypt, ev, k0, bsize, section, c, data);
      out := [];
      var ctr, rest := c, data;
      while |rest| > section
        invariant Valid() && |ctr| == bsize
        invariant out + Modes.CtrAcpkm(encrypt, ev, key, bsize, section, ctr, rest) == total
        invariant AcpkmKeyAfter(ev, key, section, |rest|) == AcpkmKeyAfter(ev, k0, section, |data|)
        invariant Iterate(Increment, ctr, Blocks(|rest|, bsize)) == Iterate(Increment, c, Blocks(|data|, bsize))
        decreases |rest|
      {
        ghost var k := key;
        var o, n := CtrLoop(ctr, rest[..section]);
        NextAcpkmKey();
        assert key == ev(k);
        AcpkmLoopStep(encrypt, ev, k, k0, bsize, section, ctr, c, rest, |data|, out, total, o, n, key);
        out, ctr, rest := out + o, n, rest[section..];
      }
      var o;
      o, next := CtrLoop(ctr, rest);
      CountersKeep();
      out := out + o;
    }

    // -------------------------------------------------------------------------
    // OMAC

    /** The OMAC tag of data: chaining over all blocks but the last, the last one
        masked with K1 when full and padded and masked with K2 otherwise. */
    method Omac(data: Bytes) returns (tag: Bytes)
      requires Valid()
      ensures tag == Modes.Omac(encrypt, key, bsize, data)
    {
      var n := bsize;
      var k1 := Subkey(encrypt(key, Zeros(n)));
      var k2 := Subkey(k1);
      var c := Zeros(n);
      var rest := data;
      while |rest| > n
        invariant |c| == n
        invariant OmacChain(encrypt, key, n, c, rest) == Modes.Omac(encrypt, key, n, data)
        decreases |rest|
      {
        c, rest := encrypt(key, Xor(c, rest[..n])), rest[n..];
      }
      var last := rest;
      if |last| == n {
        tag := encrypt(key, Xor(Xor(c, last), k1));
      } else {
        tag := encrypt(key, Xor(Xor(c, OmacPad(last, n)), k2));
      }
    }
  }
}
