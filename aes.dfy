/** The cipher contracts of include/lib_arisr_crypt.h: the all-zero key
    sentinel, the ARIS marker cipher (add or subtract the last key byte,
    modulo 256, on four bytes), and AES-128 in ECB mode with PKCS#7
    padding (section 6.3 of RFC 5652).

    The AES-128 block primitive is not modelled: a BlockCipher is any pair
    of functions on 16-byte blocks, and the round trips assume Inverts,
    that its decrypt undoes its encrypt under the same key. */
module Aes {
  import opened Base
  import opened Errors
  import opened Comm

  /** ARISR_AES128_BLOCK_SIZE, which is also the key length in bytes. */
  const BLOCK_SIZE: nat := 16

  /** ARISR_AES128_KEY: sixteen bytes. */
  type Key = s: Bytes | |s| == 16 witness [0, 0, 0, 0, 0, 0, 0, 0, 0, 0, 0, 0, 0, 0, 0, 0]

  /** One AES block. */
  type Block = s: Bytes | |s| == 16 witness [0, 0, 0, 0, 0, 0, 0, 0, 0, 0, 0, 0, 0, 0, 0, 0]

  const ZERO_KEY: Key := [0, 0, 0, 0, 0, 0, 0, 0, 0, 0, 0, 0, 0, 0, 0, 0]

  // ---------------------------------------------------------------------
  // ARISR_AES_IS_ZERO_KEY (lib_arisr_crypt.h:93-99)

  /** ARISR_AES_IS_ZERO_KEY: memcmp against sixteen zero bytes equals 0,
      that is, the macro is true exactly for the all-zero key (its doc
      comment states the opposite polarity). */
  function IsZeroKey(key: Key): (z: bool)
    ensures z <==> forall i :: 0 <= i < 16 ==> key[i] == 0
  {
    key == ZERO_KEY
  }

  // ---------------------------------------------------------------------
  // ARIS marker cipher (lib_arisr_crypt.h:101-132)

  /** The plain marker, ASCII "ARIS". */
  const ARIS: Bytes4 := [0x41, 0x52, 0x49, 0x53]

  /** Each of four bytes plus k, modulo 256. */
  function AddEach(a: Bytes4, k: bv8): Bytes4 {
    seq(4, i requires 0 <= i < 4 => a[i] + k)
  }

  /** Each of four bytes minus k, modulo 256. */
  function SubEach(a: Bytes4, k: bv8): Bytes4 {
    seq(4, i requires 0 <= i < 4 => a[i] - k)
  }

  /** Subtracting undoes adding, and adding undoes subtracting. */
  lemma SubEachAddEach(a: Bytes4, k: bv8)
    ensures SubEach(AddEach(a, k), k) == a
  {
  }

  lemma AddEachSubEach(a: Bytes4, k: bv8)
    ensures AddEach(SubEach(a, k), k) == a
  {
  }

  /** A last key byte of 0 makes both transforms the identity. */
  lemma EachWithZero(a: Bytes4)
    ensures AddEach(a, 0) == a && SubEach(a, 0) == a
  {
  }

  /** ARISR_aes_aris_decrypt: key[15] subtracted from each marker byte
      and the result compared with "ARIS"; OK on a match,
      kARISR_ERR_GENERIC otherwise. The header's comment
      (include/lib_arisr_crypt.h:111) says the marker is modified in
      place, but the prototype (:115) takes it as `const`; the model
      follows the prototype and leaves the marker unchanged. */
  function ArisDecrypt(key: Key, aris: Bytes4): (s: Status)
    ensures s == Ok || s == Fail(Generic)
    ensures s == Ok <==> forall i :: 0 <= i < 4 ==> aris[i] - key[15] == ARIS[i]
  {
    if SubEach(aris, key[15]) == ARIS then Ok else Fail(Generic)
  }

  /** The marker ArisDecrypt accepts is exactly "ARIS" encrypted with the
      same key. */
  lemma ArisDecryptAccepts(key: Key, aris: Bytes4)
    ensures ArisDecrypt(key, aris) == Ok <==> aris == AddEach(ARIS, key[15])
  {
    SubEachAddEach(aris, key[15]);
    SubEachAddEach(ARIS, key[15]);
  }

  /** With the all-zero key (or any key whose last byte is 0) the marker
      is accepted only when it is literally "ARIS". */
  lemma ArisDecryptZeroLast(key: Key, aris: Bytes4)
    requires key[15] == 0
    ensures ArisDecrypt(key, aris) == Ok <==> aris == ARIS
  {
    EachWithZero(aris);
  }

  /** ARISR_aes_aris_encrypt: key[15] added in place to each of the four
      bytes, nothing else changed; a null buffer gives kARISR_ERR_GENERIC. */
  method ArisEncrypt(key: Key, aris: array?<bv8>) returns (s: Status)
    requires aris != null ==> aris.Length == 4
    modifies aris
    ensures aris == null ==> s == Fail(Generic)
    ensures aris != null ==> s == Ok && aris[..] == AddEach(old(aris[..]), key[15])
  {
    if aris == null {
      return Fail(Generic);
    }
    var last := key[15];
    var i := 0;
    while i < 4
      invariant 0 <= i <= 4
      invariant forall j :: 0 <= j < i ==> aris[j] == old(aris[j]) + last
      invariant forall j :: i <= j < 4 ==> aris[j] == old(aris[j])
    {
      aris[i] := aris[i] + last;
      i := i + 1;
    }
    s := Ok;
  }

  /** Encrypting "ARIS" and then checking it with the same key succeeds. */
  lemma ArisRoundTrip(key: Key)
    ensures ArisDecrypt(key, AddEach(ARIS, key[15])) == Ok
  {
    SubEachAddEach(ARIS, key[15]);
  }

  // ---------------------------------------------------------------------
  // PKCS#7 padding

  /** n copies of b. */
  function Repeat(b: bv8, n: nat): (r: Bytes)
    ensures |r| == n
    ensures forall i :: 0 <= i < n ==> r[i] == b
  {
    if n == 0 then [] else Repeat(b, n - 1) + [b]
  }

  /** The number of pad bytes: 1 to 16, bringing the length to a multiple
      of 16 (a whole block when it is one already). */
  function PadCount(n: nat): (p: nat)
    ensures 1 <= p <= BLOCK_SIZE
    ensures (n + p) % BLOCK_SIZE == 0
  {
    BLOCK_SIZE - n % BLOCK_SIZE
  }

  /** PKCS#7 padding: p bytes of value p appended. The result is the
      smallest multiple of 16 strictly above the input length and starts
      with the input. */
  function Pad(data: Bytes): (r: Bytes)
    ensures |r| % BLOCK_SIZE == 0
    ensures |data| < |r| <= |data| + BLOCK_SIZE
    ensures r[..|data|] == data
    ensures forall i :: |data| <= i < |r| ==> r[i] as nat == |r| - |data|
  {
    var p := PadCount(|data|);
    data + Repeat(p as bv8, p)
  }

  /** PKCS#7 padding check and removal: the last byte p must be 1 to 16,
      within the data, and the last p bytes must all be p; otherwise
      kARISR_ERR_INVALID_PADDING. What it accepts is exactly some input
      padded. */
  function Unpad(data: Bytes): (r: Result<Bytes>)
    requires |data| % BLOCK_SIZE == 0
    ensures r.Failure? ==> r.error == InvalidPadding
    ensures r.Success? ==> Pad(r.value) == data
  {
    if |data| == 0 then Failure(InvalidPadding)
    else
      var last := data[|data| - 1];
      var p := last as nat;
      if p == 0 || p > BLOCK_SIZE || p > |data| then Failure(InvalidPadding)
      else if data[|data| - p..] != Repeat(last, p) then Failure(InvalidPadding)
      else
        var body := data[..|data| - p];
        assert data == body + Repeat(last, p);
        UnpaddedCount(|body|, p);
        Success(body)
  }

  /** The count removed is the count Pad would add, when the padded length
      is a multiple of 16. */
  lemma UnpaddedCount(n: nat, p: nat)
    requires 1 <= p <= BLOCK_SIZE
    requires (n + p) % BLOCK_SIZE == 0
    ensures PadCount(n) == p
  {
  }

  /** Removing the padding of a padded input gives the input back. */
  lemma UnpadPad(data: Bytes)
    ensures Unpad(Pad(data)) == Success(data)
  {
    var r := Pad(data);
    var p := PadCount(|data|);
    assert r == data + Repeat(p as bv8, p);
    assert r[|r| - p..] == Repeat(p as bv8, p);
    assert r[..|r| - p] == data;
  }

  // ---------------------------------------------------------------------
  // AES-128 ECB over an abstract block cipher

  /** The AES-128 block primitive, which is not part of this model. */
  datatype BlockCipher = BlockCipher(encrypt: (Key, Block) -> Block, decrypt: (Key, Block) -> Block)

  /** Decrypting with a key undoes encrypting with it. */
  ghost predicate Inverts(c: BlockCipher) {
    forall k: Key, b: Block :: c.decrypt(k, c.encrypt(k, b)) == b
  }

  /** The block function of one direction under one key. */
  function EncryptWith(c: BlockCipher, key: Key): Block -> Block {
    b => c.encrypt(key, b)
  }

  function DecryptWith(c: BlockCipher, key: Key): Block -> Block {
    b => c.decrypt(key, b)
  }

  /** ECB: every 16-byte block transformed on its own, in order. */
  function Ecb(f: Block -> Block, data: Bytes): (r: Bytes)
    requires |data| % BLOCK_SIZE == 0
    ensures |r| == |data|
    decreases |data|
  {
    if |data| == 0 then [] else f(data[..BLOCK_SIZE]) + Ecb(f, data[BLOCK_SIZE..])
  }

  /** ECB of a prefix of whole blocks extended by one more block. */
  lemma {:induction false} EcbSnoc(f: Block -> Block, data: Bytes, n: nat)
    requires n % BLOCK_SIZE == 0 && n + BLOCK_SIZE <= |data|
    ensures Ecb(f, data[..n + BLOCK_SIZE]) == Ecb(f, data[..n]) + f(data[n..n + BLOCK_SIZE])
    decreases n
  {
    if n == 0 {
      assert data[..BLOCK_SIZE][BLOCK_SIZE..] == [];
      assert data[..BLOCK_SIZE][..BLOCK_SIZE] == data[0..BLOCK_SIZE];
    } else {
      var rest := data[BLOCK_SIZE..];
      EcbSnoc(f, rest, n - BLOCK_SIZE);
      assert data[..n + BLOCK_SIZE][..BLOCK_SIZE] == data[..BLOCK_SIZE];
      assert data[..n + BLOCK_SIZE][BLOCK_SIZE..] == rest[..n];
      assert data[..n][..BLOCK_SIZE] == data[..BLOCK_SIZE];
      assert data[..n][BLOCK_SIZE..] == rest[..n - BLOCK_SIZE];
      assert rest[n - BLOCK_SIZE..n] == data[n..n + BLOCK_SIZE];
    }
  }

  /** ECB decryption undoes ECB encryption, block by block. */
  lemma {:induction false} EcbRoundTrip(c: BlockCipher, key: Key, data: Bytes)
    requires Inverts(c) && |data| % BLOCK_SIZE == 0
    ensures Ecb(DecryptWith(c, key), Ecb(EncryptWith(c, key), data)) == data
    decreases |data|
  {
    if |data| > 0 {
      var e := Ecb(EncryptWith(c, key), data);
      var head: Block := data[..BLOCK_SIZE];
      assert e[..BLOCK_SIZE] == c.encrypt(key, head);
      assert e[BLOCK_SIZE..] == Ecb(EncryptWith(c, key), data[BLOCK_SIZE..]);
      EcbRoundTrip(c, key, data[BLOCK_SIZE..]);
    }
  }

  /** What ARISR_aes_data_encrypt produces: the padded input under ECB. */
  function Encrypt(c: BlockCipher, key: Key, data: Bytes): (r: Bytes)
    ensures |r| % BLOCK_SIZE == 0
    ensures |data| < |r| <= |data| + BLOCK_SIZE
  {
    Ecb(EncryptWith(c, key), Pad(data))
  }

  /** What ARISR_aes_data_decrypt produces: kARISR_ERR_INVALID_ARGUMENT
      for an empty input or one that is not whole blocks, else the ECB
      decryption with its padding checked and removed. */
  function Decrypt(c: BlockCipher, key: Key, data: Bytes): (r: Result<Bytes>)
    ensures |data| == 0 || |data| % BLOCK_SIZE != 0 ==> r == Failure(InvalidArgument)
    ensures r.Failure? ==> r.error == InvalidArgument || r.error == InvalidPadding
    ensures r.Success? ==> |r.value| < |data|
  {
    if |data| == 0 || |data| % BLOCK_SIZE != 0 then Failure(InvalidArgument)
    else Unpad(Ecb(DecryptWith(c, key), data))
  }

  /** Decrypting what was encrypted under the same key gives the input
      back, when the block cipher inverts. */
  lemma DecryptEncrypt(c: BlockCipher, key: Key, data: Bytes)
    requires Inverts(c)
    ensures Decrypt(c, key, Encrypt(c, key, data)) == Success(data)
  {
    EcbRoundTrip(c, key, Pad(data));
    UnpadPad(data);
  }

  // ---------------------------------------------------------------------
  // ARISR_aes_data_encrypt / ARISR_aes_data_decrypt (lib_arisr_crypt.h:134-174)

  lemma NextBlockAligned(i: nat)
    requires i % BLOCK_SIZE == 0
    ensures (i + BLOCK_SIZE) % BLOCK_SIZE == 0
  {
  }

  /** Write one block into a buffer at an offset, leaving the rest. */
  method WriteBlock(out: array<bv8>, at: nat, e: Block)
    requires at + BLOCK_SIZE <= out.Length
    modifies out
    ensures out[..at] == old(out[..at])
    ensures out[at..at + BLOCK_SIZE] == e
  {
    forall j | 0 <= j < BLOCK_SIZE {
      out[at + j] := e[j];
    }
  }

  /** Transform whole blocks of data into a new buffer, block by block. */
  method EcbBlocks(f: Block -> Block, data: Bytes) returns (out: array<bv8>)
    requires |data| % BLOCK_SIZE == 0
    ensures fresh(out)
    ensures out[..] == Ecb(f, data)
  {
    out := new bv8[|data|];
    var i := 0;
    while i < |data|
      invariant 0 <= i <= |data| && i % BLOCK_SIZE == 0
      invariant out[..i] == Ecb(f, data[..i])
    {
      var block: Block := data[i..i + BLOCK_SIZE];
      ghost var done := out[..i];
      WriteBlock(out, i, f(block));
      EcbSnoc(f, data, i);
      assert out[..i + BLOCK_SIZE] == done + f(block) by {
        assert out[..i + BLOCK_SIZE] == out[..i] + out[i..i + BLOCK_SIZE];
      }
      NextBlockAligned(i);
      i := i + BLOCK_SIZE;
    }
    assert data[..i] == data;
    assert out[..] == out[..i];
  }

  /** ARISR_aes_data_encrypt: pads the first inputLen bytes, encrypts
      them into a new buffer and reports its length. */
  method DataEncrypt(c: BlockCipher, key: Key, input: array<bv8>, inputLen: nat)
    returns (s: Status, output: array<bv8>, outputLen: nat)
    requires inputLen <= input.Length
    ensures fresh(output)
    ensures s == Ok && outputLen == output.Length
    ensures output[..] == Encrypt(c, key, input[..inputLen])
  {
    var padded := Pad(input[..inputLen]);
    output := EcbBlocks(EncryptWith(c, key), padded);
    outputLen := output.Length;
    s := Ok;
  }

  /** Whether the bytes of buf from index from to the end all equal b,
      compared one by one. */
  method AllFrom(buf: array<bv8>, from: nat, b: bv8) returns (all: bool)
    requires from <= buf.Length
    ensures all <==> buf[..][from..] == Repeat(b, buf.Length - from)
  {
    var i := from;
    while i < buf.Length
      invariant from <= i <= buf.Length
      invariant forall j :: from <= j < i ==> buf[j] == b
    {
      if buf[i] != b {
        assert buf[..][from..][i - from] != b;
        return false;
      }
      i := i + 1;
    }
    assert buf[..][from..] == Repeat(b, buf.Length - from);
    return true;
  }

  /** The PKCS#7 check of a decrypted buffer: the length of the plain
      text, or kARISR_ERR_INVALID_PADDING. */
  method CheckPadding(buf: array<bv8>) returns (r: Result<nat>)
    requires buf.Length > 0 && buf.Length % BLOCK_SIZE == 0
    ensures r.Success? <==> Unpad(buf[..]).Success?
    ensures r.Failure? ==> r.error == InvalidPadding
    ensures r.Success? ==> r.value <= buf.Length && buf[..r.value] == Unpad(buf[..]).value
  {
    ghost var data := buf[..];
    var n := buf.Length;
    var last := buf[n - 1];
    var pad := last as nat;
    assert data[|data| - 1] == last;
    if pad == 0 || pad > BLOCK_SIZE {
      assert Unpad(data).Failure?;
      return Failure(InvalidPadding);
    }
    var all := AllFrom(buf, n - pad, last);
    if !all {
      assert Unpad(data).Failure?;
      return Failure(InvalidPadding);
    }
    assert Unpad(data) == Success(data[..n - pad]);
    r := Success(n - pad);
  }

  /** ARISR_aes_data_decrypt: rejects a length that is 0 or not whole
      blocks, decrypts into a new buffer, then checks the padding; the
      output length excludes the padding. */
  method DataDecrypt(c: BlockCipher, key: Key, input: array<bv8>, inputLen: nat)
    returns (s: Status, output: array<bv8>, outputLen: nat)
    requires inputLen <= input.Length
    ensures fresh(output)
    ensures s == Ok <==> Decrypt(c, key, input[..inputLen]).Success?
    ensures s != Ok ==> s == Fail(Decrypt(c, key, input[..inputLen]).error)
    ensures s == Ok ==>
      outputLen <= output.Length && output[..outputLen] == Decrypt(c, key, input[..inputLen]).value
  {
    var data := input[..inputLen];
    if inputLen == 0 || inputLen % BLOCK_SIZE != 0 {
      return Fail(InvalidArgument), new bv8[0], 0;
    }
    output := EcbBlocks(DecryptWith(c, key), data);
    var checked := CheckPadding(output);
    if checked.Failure? {
      return Fail(checked.error), output, 0;
    }
    s, outputLen := Ok, checked.value;
  }
}
