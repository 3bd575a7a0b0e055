// The stored form of a password: hashPassword prints it, verifyPassword parses it
// and derives the key again.

module PasswordHash {
  import opened FileTree
  import opened Pbkdf2

  // ---- strings.Split(s, "$") ----

  function Fields(s: string): (fields: seq<string>)
    ensures fields != []
  {
    if s == "" then [""]
    else if s[0] == '$' then [""] + Fields(s[1..])
    else var rest := Fields(s[1..]); [[s[0]] + rest[0]] + rest[1..]
  }

  lemma {:induction false} OneField(a: string)
    requires '$' !in a
    ensures Fields(a) == [a]
  {
    if a != "" {
      OneField(a[1..]);
      assert a == [a[0]] + a[1..];
    }
  }

  lemma {:induction false} FirstField(a: string, s: string)
    requires '$' !in a
    ensures Fields(a + "$" + s) == [a] + Fields(s)
  {
    var w := a + "$" + s;
    if a == "" {
      assert w[1..] == s;
    } else {
      FirstField(a[1..], s);
      assert w[1..] == a[1..] + "$" + s;
      assert Fields(w[1..])[1..] == Fields(s);
      assert a == [a[0]] + a[1..];
    }
  }

  // ---- decimal numbers: fmt's %d and strconv.Atoi ----

  const MAX_INT := 0x7FFF_FFFF_FFFF_FFFF
  const MIN_INT := -0x8000_0000_0000_0000

  function Digit(d: nat): char
    requires d < 10
  {
    '0' + d as char
  }

  function Decimal(n: nat): string {
    if n < 10 then [Digit(n)] else Decimal(n / 10) + [Digit(n % 10)]
  }

  predicate AllDigits(s: string) {
    forall i :: 0 <= i < |s| ==> '0' <= s[i] <= '9'
  }

  function DigitsValue(s: string): nat
    requires AllDigits(s)
  {
    if s == "" then 0
    else 10 * DigitsValue(s[..|s| - 1]) + (s[|s| - 1] as int - '0' as int)
  }

  function Atoi(s: string): Option<int> {
    var signed := s != "" && s[0] in "+-";
    var digits := if signed then s[1..] else s;
    if digits == "" || !AllDigits(digits) then None
    else
      var value := DigitsValue(digits) as int * if signed && s[0] == '-' then -1 else 1;
      if MIN_INT <= value <= MAX_INT then Some(value) else None
  }

  lemma {:induction false} DecimalValue(n: nat)
    ensures Decimal(n) != "" && AllDigits(Decimal(n)) && DigitsValue(Decimal(n)) == n
  {
    if n >= 10 {
      DecimalValue(n / 10);
      var s := Decimal(n);
      assert s[..|s| - 1] == Decimal(n / 10) && s[|s| - 1] == Digit(n % 10);
    } else {
      assert [Digit(n)][..0] == "";
    }
  }

  lemma AtoiDecimal(n: nat)
    ensures Atoi(Decimal(n)) == if n <= MAX_INT then Some(n) else None
  {
    DecimalValue(n);
  }

  // ---- base64.RawURLEncoding: section 5 of RFC 4648 without padding ----

  function Char64(v: nat): char
    requires v < 64
  {
    if v < 26 then 'A' + v as char
    else if v < 52 then 'a' + (v - 26) as char
    else if v < 62 then '0' + (v - 52) as char
    else if v == 62 then '-' else '_'
  }

  function Value64(c: char): (v: Option<nat>)
    ensures v.Some? ==> v.value < 64
  {
    if 'A' <= c <= 'Z' then Some(c as int - 'A' as int)
    else if 'a' <= c <= 'z' then Some(c as int - 'a' as int + 26)
    else if '0' <= c <= '9' then Some(c as int - '0' as int + 52)
    else if c == '-' then Some(62)
    else if c == '_' then Some(63)
    else None
  }

  lemma Value64OfChar64(v: nat)
    requires v < 64
    ensures Value64(Char64(v)) == Some(v) && Char64(v) !in "$\r\n"
  {
  }

  // The four sextets of three octets, and back.
  function Sextet0(b0: Byte): (v: nat) ensures v < 64 { b0 as int / 4 }
  function Sextet1(b0: Byte, b1: Byte): (v: nat) ensures v < 64 { b0 as int % 4 * 16 + b1 as int / 16 }
  function Sextet2(b1: Byte, b2: Byte): (v: nat) ensures v < 64 { b1 as int % 16 * 4 + b2 as int / 64 }
  function Sextet3(b2: Byte): (v: nat) ensures v < 64 { b2 as int % 64 }

  function Octet0(c0: nat, c1: nat): Byte requires c0 < 64 && c1 < 64 { (c0 * 4 + c1 / 16) as Byte }
  function Octet1(c1: nat, c2: nat): Byte requires c1 < 64 && c2 < 64 { (c1 % 16 * 16 + c2 / 4) as Byte }
  function Octet2(c2: nat, c3: nat): Byte requires c2 < 64 && c3 < 64 { (c2 % 4 * 64 + c3) as Byte }

  lemma OctetsOfSextets(b0: Byte, b1: Byte, b2: Byte)
    ensures Octet0(Sextet0(b0), Sextet1(b0, b1)) == b0
    ensures Octet1(Sextet1(b0, b1), Sextet2(b1, b2)) == b1
    ensures Octet2(Sextet2(b1, b2), Sextet3(b2)) == b2
  {
  }

  function Encode64(b: Bytes): string {
    if b == [] then ""
    else if |b| == 1 then Encode1(b[0], 0)
    else if |b| == 2 then Encode2(b[0], b[1], 0)
    else Encode3(b[0], b[1], b[2]) + Encode64(b[3..])
  }

  // A last partial group; `fill` gives the bits that are left over.
  function Encode1(b0: Byte, fill: Byte): string {
    [Char64(Sextet0(b0)), Char64(Sextet1(b0, fill))]
  }

  function Encode2(b0: Byte, b1: Byte, fill: Byte): string {
    [Char64(Sextet0(b0)), Char64(Sextet1(b0, b1)), Char64(Sextet2(b1, fill))]
  }

  function Encode3(b0: Byte, b1: Byte, b2: Byte): string {
    [Char64(Sextet0(b0)), Char64(Sextet1(b0, b1)), Char64(Sextet2(b1, b2)), Char64(Sextet3(b2))]
  }

  // The decoder skips line breaks anywhere.
  function WithoutBreaks(s: string): string {
    if s == "" then ""
    else if s[0] in "\r\n" then WithoutBreaks(s[1..])
    else [s[0]] + WithoutBreaks(s[1..])
  }

  // Left-over bits of a last partial group are ignored.
  function DecodeGroups(s: string): Option<Bytes> {
    if s == "" then Some([])
    else if |s| == 1 || Value64(s[0]) == None || Value64(s[1]) == None then None
    else
      var c0, c1 := Value64(s[0]).value, Value64(s[1]).value;
      var b0 := Octet0(c0, c1);
      if |s| == 2 then Some([b0])
      else if Value64(s[2]) == None then None
      else
        var c2 := Value64(s[2]).value;
        var b1 := Octet1(c1, c2);
        if |s| == 3 then Some([b0, b1])
        else if Value64(s[3]) == None then None
        else
          var c3 := Value64(s[3]).value;
          var b2 := Octet2(c2, c3);
          match DecodeGroups(s[4..])
          case None => None
          case Some(rest) => Some([b0, b1, b2] + rest)
  }

  function Decode64(s: string): Option<Bytes> {
    DecodeGroups(WithoutBreaks(s))
  }

  predicate Clean64(s: string) {
    forall i :: 0 <= i < |s| ==> s[i] !in "$\r\n"
  }

  lemma {:induction false} CleanHasNoBreaks(s: string)
    requires Clean64(s)
    ensures WithoutBreaks(s) == s
  {
    if s != "" {
      CleanHasNoBreaks(s[1..]);
      assert s == [s[0]] + s[1..];
    }
  }

  lemma {:induction false} EncodedIsClean(b: Bytes)
    ensures Clean64(Encode64(b))
  {
    forall v: nat | v < 64 ensures Char64(v) !in "$\r\n" { Value64OfChar64(v); }
    if |b| >= 3 { EncodedIsClean(b[3..]); }
  }

  // The bits left over in a last partial group do not matter.
  lemma LastOctet(b0: Byte, x: Byte)
    ensures DecodeGroups(Encode1(b0, x)) == Some([b0])
  {
    OctetsOfSextets(b0, x, x);
    Value64OfChar64(Sextet0(b0));
    Value64OfChar64(Sextet1(b0, x));
  }

  lemma LastTwoOctets(b0: Byte, b1: Byte, x: Byte)
    ensures DecodeGroups(Encode2(b0, b1, x)) == Some([b0, b1])
  {
    OctetsOfSextets(b0, b1, x);
    Value64OfChar64(Sextet0(b0));
    Value64OfChar64(Sextet1(b0, b1));
    Value64OfChar64(Sextet2(b1, x));
  }

  lemma {:induction false} GroupsOfEncoded(b: Bytes)
    ensures DecodeGroups(Encode64(b)) == Some(b)
  {
    if b == [] {
    } else if |b| == 1 {
      LastOctet(b[0], 0);
      assert b == [b[0]];
    } else if |b| == 2 {
      LastTwoOctets(b[0], b[1], 0);
      assert b == [b[0], b[1]];
    } else {
      GroupsOfEncoded(b[3..]);
      GroupOfThree(b[0], b[1], b[2], Encode64(b[3..]));
      assert b == [b[0], b[1], b[2]] + b[3..];
    }
  }

  lemma GroupOfThree(b0: Byte, b1: Byte, b2: Byte, rest: string)
    ensures DecodeGroups(Encode3(b0, b1, b2) + rest) ==
      match DecodeGroups(rest)
      case None => None
      case Some(octets) => Some([b0, b1, b2] + octets)
  {
    var s := Encode3(b0, b1, b2) + rest;
    assert s[4..] == rest;
    OctetsOfSextets(b0, b1, b2);
    Value64OfChar64(Sextet0(b0));
    Value64OfChar64(Sextet1(b0, b1));
    Value64OfChar64(Sextet2(b1, b2));
    Value64OfChar64(Sextet3(b2));
  }

  // What was encoded is decoded again.
  lemma Decode64Encode64(b: Bytes)
    ensures Decode64(Encode64(b)) == Some(b)
  {
    EncodedIsClean(b);
    CleanHasNoBreaks(Encode64(b));
    GroupsOfEncoded(b);
  }

  // ---- the stored hash ----

  const ALGORITHM := "sb-pbkdf2-sha256"
  const VERSION := 1
  const ITERATIONS := 120000
  const MIN_ITERATIONS := 10000
  const MAX_ITERATIONS := 600000
  const SALT_BYTES := 16
  const KEY_BYTES := 32

  datatype Stored = Stored(iterations: nat, salt: Bytes, key: Bytes)

  function Print(h: Stored): string {
    ALGORITHM + "$" + ("v=" + Decimal(VERSION)) + "$" + ("i=" + Decimal(h.iterations))
    + "$" + ("s=" + Encode64(h.salt)) + "$" + ("h=" + Encode64(h.key))
  }

  // What follows "key=" in a field.
  function After(field: string, key: char): Option<string> {
    if [key, '='] <= field then Some(field[2..]) else None
  }

  function IntField(field: string, key: char): Option<int> {
    match After(field, key)
    case None => None
    case Some(text) => Atoi(text)
  }

  function BytesField(field: string, key: char): Option<Bytes> {
    match After(field, key)
    case None => None
    case Some(text) => Decode64(text)
  }

  // The first half of verifyPassword: None stands for its errors.
  function Parse(encoded: string): (h: Option<Stored>)
    ensures h.Some? ==> MIN_ITERATIONS <= h.value.iterations <= MAX_ITERATIONS
    ensures h.Some? ==> |h.value.salt| >= SALT_BYTES && h.value.key != []
  {
    var parts := Fields(encoded);
    if |parts| != 5 || parts[0] != ALGORITHM then None
    else if IntField(parts[1], 'v') != Some(VERSION) then None
    else
      var iterations := IntField(parts[2], 'i');
      if iterations == None || iterations.value < MIN_ITERATIONS || iterations.value > MAX_ITERATIONS then None
      else
        var salt := BytesField(parts[3], 's');
        if salt == None || |salt.value| < SALT_BYTES then None
        else
          var key := BytesField(parts[4], 'h');
          if key == None || key.value == [] then None
          else Some(Stored(iterations.value, salt.value, key.value))
  }

  lemma PrintedFields(a: string, b: string, c: string, d: string, e: string)
    requires '$' !in a && '$' !in b && '$' !in c && '$' !in d && '$' !in e
    ensures Fields(a + "$" + b + "$" + c + "$" + d + "$" + e) == [a, b, c, d, e]
  {
    assert a + "$" + b + "$" + c + "$" + d + "$" + e == a + "$" + (b + "$" + (c + "$" + (d + "$" + e)));
    FirstField(a, b + "$" + (c + "$" + (d + "$" + e)));
    FirstField(b, c + "$" + (d + "$" + e));
    FirstField(c, d + "$" + e);
    FirstField(d, e);
    OneField(e);
  }

  lemma DecimalHasNoDollar(n: nat)
    ensures '$' !in Decimal(n)
  {
    DecimalValue(n);
  }

  lemma EncodedHasNoDollar(b: Bytes)
    ensures '$' !in Encode64(b)
  {
    EncodedIsClean(b);
  }

  lemma PrintsFields(h: Stored)
    ensures Fields(Print(h)) == [ALGORITHM, "v=" + Decimal(VERSION), "i=" + Decimal(h.iterations),
                                 "s=" + Encode64(h.salt), "h=" + Encode64(h.key)]
  {
    DecimalHasNoDollar(VERSION);
    DecimalHasNoDollar(h.iterations);
    EncodedHasNoDollar(h.salt);
    EncodedHasNoDollar(h.key);
    PrintedFields(ALGORITHM, "v=" + Decimal(VERSION), "i=" + Decimal(h.iterations),
                  "s=" + Encode64(h.salt), "h=" + Encode64(h.key));
  }

  lemma IntFieldOf(key: char, n: nat)
    ensures IntField([key, '='] + Decimal(n), key) == if n <= MAX_INT then Some(n) else None
  {
    assert ([key, '='] + Decimal(n))[2..] == Decimal(n);
    AtoiDecimal(n);
  }

  lemma BytesFieldOf(key: char, b: Bytes)
    ensures BytesField([key, '='] + Encode64(b), key) == Some(b)
  {
    assert ([key, '='] + Encode64(b))[2..] == Encode64(b);
    Decode64Encode64(b);
  }

  // Parsing undoes printing, for every hash the program would accept.
  lemma ParsePrint(h: Stored)
    ensures Parse(Print(h)) ==
      if MIN_ITERATIONS <= h.iterations <= MAX_ITERATIONS && |h.salt| >= SALT_BYTES && h.key != [] then Some(h) else None
  {
    PrintsFields(h);
    IntFieldOf('v', VERSION);
    IntFieldOf('i', h.iterations);
    BytesFieldOf('s', h.salt);
    BytesFieldOf('h', h.key);
  }

  // ---- the program ----

  // The stored key is the one derived from this password.
  ghost predicate Accepts(prf: Prf, password: Bytes, encoded: string)
    requires Yields32(prf)
  {
    Parse(encoded).Some? && var h := Parse(encoded).value; IsDerivedKey(h.key, prf, password, h.salt, h.iterations)
  }

  ghost predicate SameKeys(prf: Prf, password: Bytes, other: Bytes, salt: Bytes)
    requires Yields32(prf)
  {
    forall p :: 0 <= p < KEY_BYTES ==>
      DerivedOctet(prf, password, salt, ITERATIONS, p) == DerivedOctet(prf, other, salt, ITERATIONS, p)
  }

  // hashPassword; `salt` is what the random source gave.
  method HashPassword(prf: Prf, password: Bytes, salt: Bytes) returns (encoded: string)
    requires Yields32(prf) && |salt| == SALT_BYTES
    ensures Accepts(prf, password, encoded)
    ensures forall other :: Accepts(prf, other, encoded) <==> SameKeys(prf, password, other, salt)
  {
    var derived := Derive(prf, password, salt, ITERATIONS, KEY_BYTES);
    var h := Stored(ITERATIONS, salt, derived);
    encoded := Print(h);
    ParsePrint(h);
  }

  // verifyPassword
  method VerifyPassword(prf: Prf, password: Bytes, encoded: string) returns (ok: bool, failed: bool)
    requires Yields32(prf)
    ensures failed <==> Parse(encoded) == None
    ensures ok <==> Accepts(prf, password, encoded)
  {
    var parsed := Parse(encoded);
    if parsed == None { return false, true; }
    var h := parsed.value;
    var got := Derive(prf, password, h.salt, h.iterations, |h.key|);
    ok, failed := got == h.key, false;
  }
}
