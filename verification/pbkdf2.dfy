// pbkdf2HMACSHA256 against the derivation of section 5.2 of RFC 8018, with HMAC
// as any function that yields 32 bytes.

module Pbkdf2 {

  newtype Byte = x: int | 0 <= x < 256

  type Bytes = seq<Byte>

  const HASH_LEN := 32

  function Xor(a: Byte, b: Byte): Byte {
    ((a as bv8) ^ (b as bv8)) as Byte
  }

  type Prf = (Bytes, Bytes) -> Bytes

  ghost predicate Yields32(prf: Prf) {
    forall key, text :: |prf(key, text)| == HASH_LEN
  }

  // ---- the derivation, byte by byte ----

  // INT (i): a four-octet encoding, most significant octet first.  The program
  // converts the block index to uint32, which wraps.
  function BigEndian32(i: nat): Bytes {
    var w := i % 0x1_0000_0000;
    [(w / 256 / 256 / 256) as Byte, (w / 256 / 256 % 256) as Byte, (w / 256 % 256) as Byte, (w % 256) as Byte]
  }

  // U_1 = PRF (P, S || INT (i)), U_j = PRF (P, U_{j-1})
  function U(prf: Prf, password: Bytes, salt: Bytes, i: nat, j: nat): Bytes
    requires j >= 1
  {
    if j == 1 then prf(password, salt + BigEndian32(i)) else prf(password, U(prf, password, salt, i, j - 1))
  }

  lemma UHas32(prf: Prf, password: Bytes, salt: Bytes, i: nat, j: nat)
    requires Yields32(prf) && j >= 1
    ensures |U(prf, password, salt, i, j)| == HASH_LEN
  {
  }

  // Octet k of F (P, S, c, i) = U_1 \xor U_2 \xor ... \xor U_c
  function FOctet(prf: Prf, password: Bytes, salt: Bytes, c: nat, i: nat, k: nat): Byte
    requires Yields32(prf) && c >= 1 && k < HASH_LEN
    decreases c
  {
    UHas32(prf, password, salt, i, c);
    var last := U(prf, password, salt, i, c)[k];
    if c == 1 then last else Xor(FOctet(prf, password, salt, c - 1, i, k), last)
  }

  // Octet p of DK = T_1 || T_2 || ... , T_i = F (P, S, c, i)
  function DerivedOctet(prf: Prf, password: Bytes, salt: Bytes, c: nat, p: nat): Byte
    requires Yields32(prf) && c >= 1
  {
    FOctet(prf, password, salt, c, p / HASH_LEN + 1, p % HASH_LEN)
  }

  ghost predicate IsDerivedKey(key: Bytes, prf: Prf, password: Bytes, salt: Bytes, c: nat)
    requires Yields32(prf) && c >= 1
  {
    forall p :: 0 <= p < |key| ==> key[p] == DerivedOctet(prf, password, salt, c, p)
  }

  // ---- the program ----

  // The innermost loop: t[j] ^= u[j] in place.
  method XorInto(t: array<Byte>, u: Bytes)
    requires |u| == t.Length
    modifies t
    ensures forall k :: 0 <= k < t.Length ==> t[k] == Xor(old(t[k]), u[k])
  {
    for j := 0 to t.Length
      invariant forall k :: 0 <= k < j ==> t[k] == Xor(old(t[k]), u[k])
      invariant forall k :: j <= k < t.Length ==> t[k] == old(t[k])
    {
      t[j] := Xor(t[j], u[j]);
    }
  }

  ghost predicate IsF(t: Bytes, prf: Prf, password: Bytes, salt: Bytes, c: nat, i: nat)
    requires Yields32(prf) && c >= 1
  {
    |t| == HASH_LEN && forall k :: 0 <= k < HASH_LEN ==> t[k] == FOctet(prf, password, salt, c, i, k)
  }

  // One block: the iterates of the hash, XORed together in place.
  method Block(prf: Prf, password: Bytes, salt: Bytes, iterations: int, block: nat) returns (t: array<Byte>)
    requires Yields32(prf) && block >= 1
    ensures fresh(t) && IsF(t[..], prf, password, salt, if iterations < 1 then 1 else iterations, block)
  {
    var u := prf(password, salt + BigEndian32(block));
    t := new Byte[|u|](k requires 0 <= k < |u| => u[k]);
    var i: nat := 1;
    while i < iterations
      invariant 1 <= i && (i <= iterations || i == 1)
      invariant u == U(prf, password, salt, block, i) && |u| == HASH_LEN
      invariant IsF(t[..], prf, password, salt, i, block)
    {
      u := prf(password, u);
      ghost var before := t[..];
      XorInto(t, u);
      NextF(before, t[..], u, prf, password, salt, i, block);
      i := i + 1;
    }
  }

  lemma NextF(before: Bytes, t: Bytes, u: Bytes, prf: Prf, password: Bytes, salt: Bytes, c: nat, i: nat)
    requires Yields32(prf) && c >= 1 && IsF(before, prf, password, salt, c, i)
    requires u == prf(password, U(prf, password, salt, i, c))
    requires |t| == HASH_LEN && forall k :: 0 <= k < HASH_LEN ==> t[k] == Xor(before[k], u[k])
    ensures IsF(t, prf, password, salt, c + 1, i) && u == U(prf, password, salt, i, c + 1)
  {
  }

  // pbkdf2HMACSHA256.  Counts below one behave like one; a negative key length
  // makes the program panic.
  method Derive(prf: Prf, password: Bytes, salt: Bytes, iterations: int, keyLen: nat) returns (key: Bytes)
    requires Yields32(prf)
    ensures |key| == keyLen
    ensures IsDerivedKey(key, prf, password, salt, if iterations < 1 then 1 else iterations)
  {
    var blocks := (keyLen + HASH_LEN - 1) / HASH_LEN;
    var output: Bytes := [];
    for block := 1 to blocks + 1
      invariant |output| == (block - 1) * HASH_LEN
      invariant IsDerivedKey(output, prf, password, salt, if iterations < 1 then 1 else iterations)
    {
      var t := Block(prf, password, salt, iterations, block);
      AppendBlock(output, t[..], prf, password, salt, if iterations < 1 then 1 else iterations, block);
      output := output + t[..];
    }
    key := output[..keyLen];
  }

  lemma AppendBlock(output: Bytes, t: Bytes, prf: Prf, password: Bytes, salt: Bytes, c: nat, block: nat)
    requires Yields32(prf) && c >= 1 && block >= 1
    requires |output| == (block - 1) * HASH_LEN && IsDerivedKey(output, prf, password, salt, c)
    requires IsF(t, prf, password, salt, c, block)
    ensures IsDerivedKey(output + t, prf, password, salt, c)
  {
    forall p | 0 <= p < |output + t| ensures (output + t)[p] == DerivedOctet(prf, password, salt, c, p) {
      if p >= |output| {
        var k := p - |output|;
        assert p == (block - 1) * HASH_LEN + k;
        assert p / HASH_LEN == block - 1 && p % HASH_LEN == k;
      }
    }
  }

  // ---- what follows ----

  // There is one derived key of each length, and a shorter one is a prefix of a longer one.
  lemma ShorterKeyIsPrefix(short: Bytes, long: Bytes, prf: Prf, password: Bytes, salt: Bytes, c: nat)
    requires Yields32(prf) && c >= 1 && |short| <= |long|
    requires IsDerivedKey(short, prf, password, salt, c) && IsDerivedKey(long, prf, password, salt, c)
    ensures short <= long
  {
    assert short == long[..|short|];
  }

  function Octets32(b: Bytes): nat
    requires |b| == 4
  {
    ((b[0] as int * 256 + b[1] as int) * 256 + b[2] as int) * 256 + b[3] as int
  }

  // Up to the key length the RFC allows, INT (i) really encodes the block index.
  lemma BlockIndexIsExact(keyLen: nat, i: nat)
    requires keyLen <= 0xFFFF_FFFF * HASH_LEN && 1 <= i <= (keyLen + HASH_LEN - 1) / HASH_LEN
    ensures Octets32(BigEndian32(i)) == i
  {
    assert i % 0x1_0000_0000 == i;
  }
}
