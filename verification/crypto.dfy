/**
 * Ciphertext framing of the secret store: a fresh 8-byte PBKDF2 salt, a
 * 24-byte nonce whose first 8 bytes are the big-endian creation time, and the
 * NaCl secretbox of the plaintext. PBKDF2 (section 5.2 of RFC 8018) and
 * secretbox are parameters; the framing around them is concrete.
 */
module Crypto {
  import opened Base
  import opened Strings

  const SaltLength: nat := 8
  const NonceLength: nat := 24
  const KeyLength: nat := 32
  /** `secretbox.Overhead`: the Poly1305 tag prepended to every box. */
  const Overhead: nat := 16
  const Iterations: nat := 8192
  /** The shortest input `Decrypt` looks at: a box holding at least one byte. */
  const MinLength: nat := SaltLength + NonceLength + Overhead + 1

  type Bytes = seq<byte>
  type Salt = s: Bytes | |s| == SaltLength witness [0, 0, 0, 0, 0, 0, 0, 0]
  type Key = k: Bytes | |k| == KeyLength
    witness [0, 0, 0, 0, 0, 0, 0, 0, 0, 0, 0, 0, 0, 0, 0, 0, 0, 0, 0, 0, 0, 0, 0, 0, 0, 0, 0, 0, 0, 0, 0, 0]
  type RandomTail = t: Bytes | |t| == NonceLength - 8
    witness [0, 0, 0, 0, 0, 0, 0, 0, 0, 0, 0, 0, 0, 0, 0, 0]
  type Nonce = n: Bytes | |n| == NonceLength
    witness [0, 0, 0, 0, 0, 0, 0, 0, 0, 0, 0, 0, 0, 0, 0, 0, 0, 0, 0, 0, 0, 0, 0, 0]

  /**
   * The external primitives: `pbkdf2(password, salt, iterations, length)`
   * (with SHA-256), `seal(message, nonce, key)` and `open(box, nonce, key)`.
   */
  datatype Primitives = Primitives(
    pbkdf2: (Bytes, Bytes, nat, nat) -> Bytes,
    seal: (Bytes, Nonce, Key) -> Bytes,
    open: (Bytes, Nonce, Key) -> Option<Bytes>)

  /** What the primitives promise: a sealed box is 16 bytes longer and opens to its message. */
  ghost predicate Lawful(p: Primitives) {
    forall m: Bytes, n: Nonce, k: Key {:trigger p.seal(m, n, k)} ::
      |p.seal(m, n, k)| == |m| + Overhead && p.open(p.seal(m, n, k), n, k) == Some(m)
  }

  /** bcrypt's `GenerateFromPassword` (cost 10) and `CompareHashAndPassword == nil`. */
  datatype Bcrypt = Bcrypt(hash: string -> string, verify: (string, string) -> bool)

  /** What bcrypt promises: a hash verifies against the password it was made from. */
  ghost predicate BcryptLawful(b: Bcrypt) {
    forall p: string {:trigger b.hash(p)} :: b.verify(b.hash(p), p)
  }

  /**
   * What one call of `Encrypt` draws on besides its input: the primitives,
   * the configured password, two reads of randomness and the clock.
   */
  datatype Sealing = Sealing(p: Primitives, password: Bytes, saltRead: Result<Salt>, now: int, tailRead: Result<RandomTail>)

  /** Go's `copy(dst[:n], src)` into a zeroed n-byte array. */
  function CopyInto(src: Bytes, n: nat): (r: Bytes)
    ensures |r| == n
    ensures forall i :: 0 <= i < n ==> r[i] == (if i < |src| then src[i] else 0)
  {
    seq(n, i requires 0 <= i < n => if i < |src| then src[i] else 0)
  }

  /** PBKDF2-SHA256 with 8192 iterations, copied into a 32-byte key. */
  function DeriveKeyWithSalt(p: Primitives, password: Bytes, salt: Salt): (k: Key)
    ensures |p.pbkdf2(password, salt, Iterations, KeyLength)| == KeyLength
            ==> k == p.pbkdf2(password, salt, Iterations, KeyLength)
  {
    var derived := p.pbkdf2(password, salt, Iterations, KeyLength);
    var k := CopyInto(derived, KeyLength);
    assert |derived| == KeyLength ==> k == derived;
    k
  }

  /** Go's `binary.BigEndian.PutUint64(b, uint64(now))`: int64 to two's complement, most significant byte first. */
  function PutUint64BE(now: int): (r: Bytes)
    ensures |r| == 8
  {
    var u := now % 0x1_0000_0000_0000_0000;
    seq(8, i requires 0 <= i < 8 => (u / Pow256(7 - i)) % 256)
  }

  function Pow256(e: nat): (r: nat)
    ensures r > 0
  {
    if e == 0 then 1 else 256 * Pow256(e - 1)
  }

  /** Reads 8 bytes as a big-endian unsigned number. */
  function Uint64BE(b: Bytes): nat
    requires |b| == 8
  {
    BigEndian(b)
  }

  function BigEndian(b: Bytes): nat {
    if |b| == 0 then 0 else BigEndian(b[..|b| - 1]) * 256 + b[|b| - 1]
  }

  /** Reading back the timestamp prefix gives the time modulo 2^64, that is, the int64 reinterpreted as uint64. */
  lemma PutUint64BERoundTrip(now: int)
    ensures Uint64BE(PutUint64BE(now)) == now % 0x1_0000_0000_0000_0000
    ensures 0 <= now <= MaxInt64 ==> Uint64BE(PutUint64BE(now)) == now
  {
    var u := now % 0x1_0000_0000_0000_0000;
    var b := PutUint64BE(now);
    assert Pow256(1) == 0x100;
    assert Pow256(2) == 0x1_0000;
    assert Pow256(3) == 0x100_0000;
    assert Pow256(4) == 0x1_0000_0000;
    assert Pow256(5) == 0x100_0000_0000;
    assert Pow256(6) == 0x1_0000_0000_0000;
    assert Pow256(7) == 0x100_0000_0000_0000;
    assert b[..1] == [b[0]];
    BigEndianPrefixes(b, u);
  }

  lemma BigEndianPrefixes(b: Bytes, u: nat)
    requires |b| == 8 && u < 0x1_0000_0000_0000_0000
    requires forall i :: 0 <= i < 8 ==> b[i] == (u / Pow256(7 - i)) % 256
    ensures BigEndian(b) == u
  {
    BigEndianUpTo(b, u, 8);
    assert b[..8] == b;
    assert Pow256(0) == 1;
  }

  /** The first j bytes read as u / 256^(8-j), built up one byte at a time. */
  lemma {:induction false} BigEndianUpTo(b: Bytes, u: nat, j: nat)
    requires |b| == 8 && j <= 8 && u < 0x1_0000_0000_0000_0000
    requires forall i :: 0 <= i < 8 ==> b[i] == (u / Pow256(7 - i)) % 256
    ensures BigEndian(b[..j]) == u / Pow256(8 - j)
  {
    if j == 0 {
      assert BigEndian(b[..0]) == 0;
      assert Pow256(8) == 0x1_0000_0000_0000_0000;
    } else {
      BigEndianUpTo(b, u, j - 1);
      BigEndianStep(b, u, j - 1);
    }
  }

  lemma BigEndianStep(b: Bytes, u: nat, j: nat)
    requires |b| == 8 && j < 8 && u < 0x1_0000_0000_0000_0000
    requires forall i :: 0 <= i < 8 ==> b[i] == (u / Pow256(7 - i)) % 256
    requires BigEndian(b[..j]) == u / Pow256(8 - j)
    ensures BigEndian(b[..j + 1]) == u / Pow256(7 - j)
  {
    var q := Pow256(7 - j);
    assert b[..j + 1][..j] == b[..j];
    assert Pow256(8 - j) == 256 * q;
    DivDiv(u, q, 256);
  }

  /** Dividing by q and then by m is dividing by m * q. */
  lemma DivDiv(u: nat, q: nat, m: nat)
    requires q > 0 && m > 0
    ensures (u / q) / m == u / (m * q)
  {
    var a := u / q;
    var r := u % q;
    var b := a / m;
    var s := a % m;
    assert u == a * q + r;
    assert a == b * m + s;
    MulDistrib(b * m, s, q);
    MulAssoc(b, m, q);
    MulBelow(s, m, q);
    DivUnique(u, m * q, b, s * q + r);
  }

  lemma MulDistrib(x: int, y: int, z: int)
    ensures (x + y) * z == x * z + y * z
  {
  }

  lemma MulAssoc(x: int, y: int, z: int)
    ensures (x * y) * z == x * (y * z)
  {
  }

  /** For s below m, s * q leaves at least q below m * q. */
  lemma MulBelow(s: nat, m: nat, q: nat)
    requires s < m
    ensures s * q + q <= m * q
  {
    MulDistrib(s, m - s, q);
    if q > 0 {
      MulAtLeast(m - s, q);
    }
  }

  /** The quotient is the only x with u == x * d + y and 0 <= y < d. */
  lemma DivUnique(u: int, d: int, x: int, y: int)
    requires d > 0 && 0 <= y < d && u == x * d + y
    ensures u / d == x
  {
    var x' := u / d;
    var y' := u % d;
    assert u == x' * d + y';
    if x > x' {
      MulAtLeast(x - x', d);
    } else if x < x' {
      MulAtLeast(x' - x, d);
    }
  }

  lemma MulAtLeast(k: int, d: int)
    requires k >= 1 && d > 0
    ensures k * d >= d
  {
    assert k * d == (k - 1) * d + d;
    assert (k - 1) * d >= 0;
  }

  /**
   * `createNonce`: the creation time in nanoseconds, big-endian, then 16
   * random bytes; a failed read of randomness is passed through.
   */
  function CreateNonce(now: int, random: Result<RandomTail>): (r: Result<Nonce>)
    ensures r.Err? <==> random.Err?
    ensures r.Ok? ==> Uint64BE(r.value[..8]) == now % 0x1_0000_0000_0000_0000
    ensures r.Ok? ==> r.value[8..] == random.value
  {
    match random
    case Err(e) => Err(e)
    case Ok(tail) =>
      var n := PutUint64BE(now) + tail;
      assert n[..8] == PutUint64BE(now);
      PutUint64BERoundTrip(now);
      Ok(n)
  }

  /**
   * `Encrypt` with the configured password: derive a key from fresh salt,
   * make a nonce, and return salt ++ nonce ++ box. The two random reads and
   * the clock are inputs.
   */
  function Encrypt(p: Primitives, password: Bytes, input: Bytes,
                   saltRead: Result<Salt>, now: int, tailRead: Result<RandomTail>): (r: Result<Bytes>)
    ensures saltRead.Err? ==> r == Err("Could not derive encryption key from password: "
                                      + "Could not gather sufficient random data to perform encryption: "
                                      + saltRead.error)
    ensures saltRead.Ok? && tailRead.Err? ==> r == Err("Could not create nonce: " + tailRead.error)
    ensures r.Ok? ==> |r.value| >= SaltLength + NonceLength
    ensures r.Ok? ==> saltRead.Ok? && tailRead.Ok? && r.value[..SaltLength] == saltRead.value
    ensures r.Ok? ==> r.value[SaltLength..SaltLength + 8] == PutUint64BE(now)
    ensures r.Ok? ==> r.value[SaltLength + 8..SaltLength + NonceLength] == tailRead.value
  {
    match saltRead
    case Err(e) =>
      Err("Could not derive encryption key from password: "
          + "Could not gather sufficient random data to perform encryption: " + e)
    case Ok(salt) =>
      var key := DeriveKeyWithSalt(p, password, salt);
      match CreateNonce(now, tailRead)
      case Err(e) => Err("Could not create nonce: " + e)
      case Ok(nonce) =>
        var out := salt + nonce + p.seal(input, nonce, key);
        LayoutParts(salt, nonce, p.seal(input, nonce, key));
        Ok(out)
  }

  /** Where salt, nonce and box sit in their concatenation. */
  lemma LayoutParts(salt: Bytes, nonce: Bytes, box: Bytes)
    requires |nonce| >= 8
    ensures var out := salt + nonce + box;
            && out[..|salt|] == salt
            && out[|salt|..|salt| + 8] == nonce[..8]
            && out[|salt| + 8..|salt| + |nonce|] == nonce[8..]
  {
    var out := salt + nonce + box;
    assert out[..|salt|] == salt;
    assert out[|salt|..|salt| + |nonce|] == nonce;
  }

  function TooShortMessage(n: int): string {
    "The ciphertext is too short (" + Itoa(n) + " bytes) to be valid. It needs to be at least "
    + Itoa(MinLength) + " bytes."
  }

  /** `Decrypt`: check the length, split off salt and nonce, re-derive the key and open the box. */
  function Decrypt(p: Primitives, password: Bytes, input: Bytes): (r: Result<Bytes>)
    ensures |input| < MinLength ==> r == Err(TooShortMessage(|input|))
    ensures |input| >= MinLength ==>
              var key := DeriveKeyWithSalt(p, password, input[..SaltLength]);
              var nonce: Nonce := input[SaltLength..SaltLength + NonceLength];
              match p.open(input[SaltLength + NonceLength..], nonce, key)
              case None => r == Err("Decrypting failed, probably due to a wrong password.")
              case Some(plain) => r == Ok(plain)
  {
    if |input| < MinLength then Err(TooShortMessage(|input|))
    else
      var salt: Salt := input[..SaltLength];
      var nonce: Nonce := input[SaltLength..SaltLength + NonceLength];
      var key := DeriveKeyWithSalt(p, password, salt);
      match p.open(input[SaltLength + NonceLength..], nonce, key)
      case None => Err("Decrypting failed, probably due to a wrong password.")
      case Some(plain) => Ok(plain)
  }

  /** Decrypting what `Encrypt` produced with the same password gives back the plaintext, for any non-empty plaintext. */
  lemma DecryptEncrypt(p: Primitives, password: Bytes, m: Bytes,
                       salt: Salt, now: int, tail: RandomTail)
    requires Lawful(p)
    requires |m| > 0
    ensures var c := Encrypt(p, password, m, Ok(salt), now, Ok(tail));
            c.Ok? && |c.value| == SaltLength + NonceLength + Overhead + |m|
            && Decrypt(p, password, c.value) == Ok(m)
  {
    var key := DeriveKeyWithSalt(p, password, salt);
    var nonce := CreateNonce(now, Ok(tail)).value;
    var box := p.seal(m, nonce, key);
    var c := salt + nonce + box;
    assert Encrypt(p, password, m, Ok(salt), now, Ok(tail)) == Ok(c);
    assert c[..SaltLength] == salt;
    assert c[SaltLength..SaltLength + NonceLength] == nonce;
    assert c[SaltLength + NonceLength..] == box;
  }

  /** An empty secret encrypts to 48 bytes, one short of what `Decrypt` accepts. */
  lemma EmptyPlaintextIsRejected(p: Primitives, password: Bytes, salt: Salt, now: int, tail: RandomTail)
    requires Lawful(p)
    ensures var c := Encrypt(p, password, [], Ok(salt), now, Ok(tail));
            c.Ok? && |c.value| == MinLength - 1 && Decrypt(p, password, c.value).Err?
  {
    var key := DeriveKeyWithSalt(p, password, salt);
    var nonce := CreateNonce(now, Ok(tail)).value;
    assert |p.seal([], nonce, key)| == Overhead;
  }

  /** Go's `CompareBcrypt`: the hash verifies the password. */
  function CompareBcrypt(b: Bcrypt, hash: string, password: string): bool {
    b.verify(hash, password)
  }

  /** Go's `HashBcrypt` (cost 10). */
  function HashBcrypt(b: Bcrypt, s: string): string {
    b.hash(s)
  }

  /** A value stored through `HashBcrypt` is accepted by `CompareBcrypt`. */
  lemma CompareHashed(b: Bcrypt, s: string)
    requires BcryptLawful(b)
    ensures CompareBcrypt(b, HashBcrypt(b, s), s)
  {
  }
}
