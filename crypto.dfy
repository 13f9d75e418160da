/** The encrypted container and the crypto wrappers around AES-256-GCM and
    Argon2id (src/core/crypto.rs).

    The container is `salt (16) ‖ nonce (12) ‖ tag (16) ‖ ciphertext`.

    The block cipher, the GCM tag and Argon2 are foreign library code; they
    enter the model as the function-valued fields of `Primitives`, so every
    property below holds for ANY choice of them.  What the model keeps is the
    shape GCM gives them (section 7 of NIST SP 800-38D): the ciphertext is the
    plaintext XOR-ed with a keystream that depends on key, nonce and position
    (the GCTR function of section 6.5), the tag is a function of key, nonce and
    ciphertext, and decryption checks the tag before it releases anything.
    From that shape alone the AEAD round trip is proved, not assumed. */
module Crypto {
  import opened Common

  const SALT_LEN: nat := 16
  const NONCE_LEN: nat := 12
  const TAG_LEN: nat := 16
  const KEY_LEN: nat := 32
  const HEADER_LEN: nat := SALT_LEN + NONCE_LEN + TAG_LEN

  /** The longest plaintext (and ciphertext) GCM accepts: 2^39 - 256 bits,
      section 5.2.1.1 of NIST SP 800-38D. */
  const MAX_TEXT_LEN: nat := 0x10_0000_0000 - 32

  /** The longest password Argon2 accepts: 2^32 - 1 bytes, section 3.1 of
      RFC 9106. */
  const MAX_PASSWORD_LEN: nat := 0xFFFF_FFFF

  type Salt = s: Bytes | |s| == SALT_LEN witness seq(16, _ => 0)
  type Nonce = s: Bytes | |s| == NONCE_LEN witness seq(12, _ => 0)
  type Tag = s: Bytes | |s| == TAG_LEN witness seq(16, _ => 0)
  type Key = s: Bytes | |s| == KEY_LEN witness seq(32, _ => 0)

  datatype EncryptedHeader = EncryptedHeader(salt: Salt, nonce: Nonce, tag: Tag)

  datatype EncryptedData = EncryptedData(header: EncryptedHeader, ciphertext: Bytes)

  /** The foreign primitives, left uninterpreted:
      - `keystream(k, n, i)`: byte `i` of the AES-256 counter-mode keystream
        for key `k` and nonce `n`;
      - `tag(k, n, c)`: the GCM authentication tag of ciphertext `c` with
        empty associated data;
      - `argon2id(pw, s)`: the 32-byte output of Argon2id with the crate's
        default cost parameters. */
  datatype Primitives = Primitives(
    keystream: (Key, Nonce, nat) -> byte,
    tag: (Key, Nonce, Bytes) -> Tag,
    argon2id: (Bytes, Salt) -> Key)

  // ---------------------------------------------------------------------
  // The container codec

  /** `EncryptedData::to_bytes`: each field at its fixed offset. */
  function ToBytes(d: EncryptedData): (b: Bytes)
    ensures |b| == HEADER_LEN + |d.ciphertext|
    ensures b[..SALT_LEN] == d.header.salt
    ensures b[SALT_LEN..SALT_LEN + NONCE_LEN] == d.header.nonce
    ensures b[SALT_LEN + NONCE_LEN..HEADER_LEN] == d.header.tag
    ensures b[HEADER_LEN..] == d.ciphertext
  {
    var b := d.header.salt + d.header.nonce + d.header.tag + d.ciphertext;
    assert b[..SALT_LEN] == d.header.salt;
    assert b[SALT_LEN..SALT_LEN + NONCE_LEN] == d.header.nonce;
    assert b[SALT_LEN + NONCE_LEN..HEADER_LEN] == d.header.tag;
    b
  }

  /** `EncryptedData::from_bytes`: rejects exactly the buffers too short to
      hold a header, and otherwise splits without loss. */
  function FromBytes(b: Bytes): (r: Result<EncryptedData>)
    ensures r.Ok? <==> |b| >= HEADER_LEN
    ensures r.Err? ==> r.error == TooShort
    ensures r.Ok? ==> ToBytes(r.value) == b
  {
    if |b| < HEADER_LEN then
      Err(TooShort)
    else
      var d := EncryptedData(
        EncryptedHeader(b[..SALT_LEN], b[SALT_LEN..SALT_LEN + NONCE_LEN], b[SALT_LEN + NONCE_LEN..HEADER_LEN]),
        b[HEADER_LEN..]);
      assert b == b[..SALT_LEN] + b[SALT_LEN..SALT_LEN + NONCE_LEN] + b[SALT_LEN + NONCE_LEN..HEADER_LEN] + b[HEADER_LEN..];
      assert ToBytes(d) == b;
      Ok(d)
  }

  /** Decoding an encoded container gives it back. */
  lemma FromBytesToBytes(d: EncryptedData)
    ensures FromBytes(ToBytes(d)) == Ok(d)
  {
    var b := ToBytes(d);
    assert FromBytes(b).value.header == d.header;
  }

  /** A buffer of at least a header's length is split at offsets 16, 28 and 44. */
  lemma FromBytesFields(b: Bytes)
    requires |b| >= HEADER_LEN
    ensures FromBytes(b).Ok?
    ensures FromBytes(b).value.header.salt == b[..16]
    ensures FromBytes(b).value.header.nonce == b[16..28]
    ensures FromBytes(b).value.header.tag == b[28..44]
    ensures FromBytes(b).value.ciphertext == b[44..]
  {
    var d := FromBytes(b).value;
    assert ToBytes(d) == b;
  }

  // ---------------------------------------------------------------------
  // Authenticated encryption

  function Pow2(n: nat): (m: nat)
    ensures 1 <= m
  {
    if n == 0 then 1 else 2 * Pow2(n - 1)
  }

  /** Bitwise exclusive or of the low `width` bits of `a` and `b`, lowest bit first. */
  function XorBits(a: nat, b: nat, width: nat): (c: nat)
    ensures c < Pow2(width)
  {
    if width == 0 then 0 else (a % 2 + b % 2) % 2 + 2 * XorBits(a / 2, b / 2, width - 1)
  }

  /** A number is its lowest bit plus twice the rest. */
  lemma LowBit(d: nat, r: nat)
    requires d < 2
    ensures (d + 2 * r) % 2 == d && (d + 2 * r) / 2 == r
  {
  }

  /** XOR-ing with the same bits twice gives back any number that fits the width. */
  lemma {:induction false} XorBitsTwice(a: nat, k: nat, width: nat)
    requires a < Pow2(width)
    ensures XorBits(XorBits(a, k, width), k, width) == a
  {
    if width > 0 {
      var d := (a % 2 + k % 2) % 2;
      var r := XorBits(a / 2, k / 2, width - 1);
      LowBit(d, r);
      XorBitsTwice(a / 2, k / 2, width - 1);
      assert XorBits(d + 2 * r, k, width) == (d + k % 2) % 2 + 2 * (a / 2);
      LowBit(a % 2, a / 2);
    }
  }

  /** Rust's `^` on `u8`. */
  function Xor(a: byte, b: byte): byte {
    assert Pow2(8) == 0x100;
    XorBits(a, b, 8)
  }

  /** XOR-ing the same byte twice undoes it. */
  lemma XorTwice(a: byte, k: byte)
    ensures Xor(Xor(a, k), k) == a
  {
    assert Pow2(8) == 0x100;
    XorBitsTwice(a, k, 8);
  }

  /** The GCTR transform: XOR with the keystream, byte by byte. */
  function Gctr(p: Primitives, key: Key, nonce: Nonce, x: Bytes): (y: Bytes)
    ensures |y| == |x|
  {
    seq<byte>(|x|, i requires 0 <= i < |x| => Xor(x[i], p.keystream(key, nonce, i)))
  }

  /** GCTR is its own inverse under the same key and nonce. */
  lemma GctrInvolution(p: Primitives, key: Key, nonce: Nonce, x: Bytes)
    ensures Gctr(p, key, nonce, Gctr(p, key, nonce, x)) == x
  {
    var y := Gctr(p, key, nonce, x);
    var z := Gctr(p, key, nonce, y);
    forall i | 0 <= i < |x|
      ensures z[i] == x[i]
    {
      var k := p.keystream(key, nonce, i);
      XorTwice(x[i], k);
    }
  }

  /** What `encrypt` returns (GCM-AE, section 7.1 of NIST SP 800-38D): the
      caller's salt, the fresh nonce, the tag of the ciphertext. */
  function Seal(p: Primitives, key: Key, salt: Salt, nonce: Nonce, plaintext: Bytes): (r: Result<EncryptedData>)
    ensures r.Ok? <==> |plaintext| <= MAX_TEXT_LEN
    ensures r.Err? ==> r.error == EncryptionFailed
    ensures r.Ok? ==> r.value.header.salt == salt && r.value.header.nonce == nonce
    ensures r.Ok? ==> |r.value.ciphertext| == |plaintext|
  {
    if |plaintext| > MAX_TEXT_LEN then
      Err(EncryptionFailed)
    else
      var ciphertext := Gctr(p, key, nonce, plaintext);
      Ok(EncryptedData(EncryptedHeader(salt, nonce, p.tag(key, nonce, ciphertext)), ciphertext))
  }

  /** What `decrypt` returns (GCM-AD, section 7.2 of NIST SP 800-38D):
      either the whole decrypted buffer, released only when the tag matches
      the ciphertext, or the one opaque error. */
  function Open(p: Primitives, key: Key, d: EncryptedData): (r: Result<Bytes>)
    ensures r.Err? ==> r.error == DecryptionFailed
    ensures r.Ok? ==> d.header.tag == p.tag(key, d.header.nonce, d.ciphertext)
    ensures r.Ok? ==> |r.value| == |d.ciphertext|
  {
    if |d.ciphertext| > MAX_TEXT_LEN || p.tag(key, d.header.nonce, d.ciphertext) != d.header.tag then
      Err(DecryptionFailed)
    else
      Ok(Gctr(p, key, d.header.nonce, d.ciphertext))
  }

  /** The AEAD round trip: what `encrypt` produces, `decrypt` under the same
      key turns back into the plaintext. */
  lemma {:induction false} OpenSeal(p: Primitives, key: Key, salt: Salt, nonce: Nonce, plaintext: Bytes)
    requires |plaintext| <= MAX_TEXT_LEN
    ensures Seal(p, key, salt, nonce, plaintext).Ok?
    ensures Open(p, key, Seal(p, key, salt, nonce, plaintext).value) == Ok(plaintext)
  {
    GctrInvolution(p, key, nonce, plaintext);
  }

  /** Decryption depends on the header only through nonce and tag: the salt
      it carries plays no part. */
  lemma OpenIgnoresSalt(p: Primitives, key: Key, d: EncryptedData, salt: Salt)
    ensures Open(p, key, d.(header := d.header.(salt := salt))) == Open(p, key, d)
  {
  }

  /** The in-place GCTR step of `encrypt_in_place_detached` and
      `decrypt_in_place_detached`. */
  method ApplyKeystream(p: Primitives, key: Key, nonce: Nonce, buffer: array<byte>)
    modifies buffer
    ensures buffer[..] == Gctr(p, key, nonce, old(buffer[..]))
  {
    var i := 0;
    while i < buffer.Length
      invariant 0 <= i <= buffer.Length
      invariant forall j :: 0 <= j < i ==> buffer[j] == Xor(old(buffer[j]), p.keystream(key, nonce, j))
      invariant forall j :: i <= j < buffer.Length ==> buffer[j] == old(buffer[j])
    {
      buffer[i] := Xor(buffer[i], p.keystream(key, nonce, i));
      i := i + 1;
    }
  }

  /** `encrypt`: copies the plaintext into a fresh buffer, encrypts it in
      place and detaches the tag. `nonce` stands for the 12 bytes drawn
      from the operating system's generator. */
  method Encrypt(p: Primitives, key: Key, salt: Salt, nonce: Nonce, plaintext: Bytes) returns (r: Result<EncryptedData>)
    ensures r == Seal(p, key, salt, nonce, plaintext)
  {
    if |plaintext| > MAX_TEXT_LEN {
      return Err(EncryptionFailed);
    }
    var buffer := new byte[|plaintext|](i requires 0 <= i < |plaintext| => plaintext[i]);
    assert buffer[..] == plaintext;
    ApplyKeystream(p, key, nonce, buffer);
    var tag := p.tag(key, nonce, buffer[..]);
    r := Ok(EncryptedData(EncryptedHeader(salt, nonce, tag), buffer[..]));
  }

  /** `decrypt`: copies the ciphertext, checks the tag and only then
      decrypts the copy in place and hands it over. */
  method Decrypt(p: Primitives, key: Key, d: EncryptedData) returns (r: Result<Bytes>)
    ensures r == Open(p, key, d)
  {
    if |d.ciphertext| > MAX_TEXT_LEN {
      return Err(DecryptionFailed);
    }
    var buffer := new byte[|d.ciphertext|](i requires 0 <= i < |d.ciphertext| => d.ciphertext[i]);
    assert buffer[..] == d.ciphertext;
    var expected := p.tag(key, d.header.nonce, buffer[..]);
    if expected != d.header.tag {
      return Err(DecryptionFailed);
    }
    ApplyKeystream(p, key, d.header.nonce, buffer);
    r := Ok(buffer[..]);
  }

  // ---------------------------------------------------------------------
  // Key derivation

  /** `derive_key`: Argon2id of password and salt; the only failure left
      with a 16-byte salt and a 32-byte output is an over-long password. */
  function DeriveKey(p: Primitives, password: Bytes, salt: Salt): (r: Result<Key>)
    ensures r.Ok? <==> |password| <= MAX_PASSWORD_LEN
    ensures r.Err? ==> r.error == KeyDerivationFailed
    ensures r.Ok? ==> r.value == p.argon2id(password, salt)
  {
    if |password| > MAX_PASSWORD_LEN then Err(KeyDerivationFailed) else Ok(p.argon2id(password, salt))
  }

  /** `generate_test_key`: a fresh salt (drawn by the caller here) and the
      key derived from it. */
  function GenerateTestKey(p: Primitives, password: Bytes, freshSalt: Salt): (r: Result<(Key, Salt)>)
    ensures r.Ok? <==> |password| <= MAX_PASSWORD_LEN
    ensures r.Err? ==> r.error == KeyDerivationFailed
    ensures r.Ok? ==> r.value.1 == freshSalt && DeriveKey(p, password, r.value.1) == Ok(r.value.0)
  {
    match DeriveKey(p, password, freshSalt)
    case Err(e) => Err(e)
    case Ok(key) => Ok((key, freshSalt))
  }
}
