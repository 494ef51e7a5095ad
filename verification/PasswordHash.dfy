/**
 The stored form of a password: `argon2id$v=19$m=65536,t=1,p=4$<salt>$<digest>`, with salt
 and digest in unpadded base64 (sections 3.2 and 4 of RFC 4648). Argon2id itself is a
 parameter.
 */
module PasswordHash {
  import opened Prelude
  import opened Text

  type byte = b: int | 0 <= b < 256

  type sextet = v: int | 0 <= v < 64

  // ---------------------------------------------------------------------------
  // Unpadded base64.
  // ---------------------------------------------------------------------------

  function Symbol(v: sextet): (c: char) {
    if v < 26 then ('A' as int + v) as char
    else if v < 52 then ('a' as int + v - 26) as char
    else if v < 62 then ('0' as int + v - 52) as char
    else if v == 62 then '+' else '/'
  }

  function Sextet(c: char): Option<sextet> {
    if 'A' <= c <= 'Z' then Some(c as int - 'A' as int)
    else if 'a' <= c <= 'z' then Some(c as int - 'a' as int + 26)
    else if '0' <= c <= '9' then Some(c as int - '0' as int + 52)
    else if c == '+' then Some(62)
    else if c == '/' then Some(63)
    else None
  }

  lemma SextetOfSymbol(v: sextet)
    ensures Sextet(Symbol(v)) == Some(v)
    ensures Symbol(v) != '$' && Symbol(v) != '\r' && Symbol(v) != '\n'
  {
  }

  /** Three bytes as four sextets. */
  function Quad(a: byte, b: byte, c: byte): (sextet, sextet, sextet, sextet) {
    (a / 4, a % 4 * 16 + b / 16, b % 16 * 4 + c / 64, c % 64)
  }

  /** Four sextets as three bytes. */
  function Triple(p: sextet, q: sextet, r: sextet, t: sextet): (byte, byte, byte) {
    (p as int * 4 + q / 16, q % 16 * 16 + r / 4, r % 4 * 64 + t)
  }

  /** Groups of three bytes; a last group of one or two is padded with zero bits. */
  function Pack(bs: seq<byte>): seq<sextet> {
    if bs == [] then []
    else if |bs| == 1 then
      var g := Quad(bs[0], 0, 0);
      [g.0, g.1]
    else if |bs| == 2 then
      var g := Quad(bs[0], bs[1], 0);
      [g.0, g.1, g.2]
    else
      var g := Quad(bs[0], bs[1], bs[2]);
      [g.0, g.1, g.2, g.3] + Pack(bs[3..])
  }

  /** Groups of four sextets; the last group may hold two or three, whose spare bits are
      ignored, but not one. */
  function Unpack(vs: seq<sextet>): Option<seq<byte>> {
    if vs == [] then Some([])
    else if |vs| == 1 then None
    else if |vs| == 2 then
      var g := Triple(vs[0], vs[1], 0, 0);
      Some([g.0])
    else if |vs| == 3 then
      var g := Triple(vs[0], vs[1], vs[2], 0);
      Some([g.0, g.1])
    else
      var g, rest := Triple(vs[0], vs[1], vs[2], vs[3]), Unpack(vs[4..]);
      if rest.None? then None else Some([g.0, g.1, g.2] + rest.value)
  }

  function Symbols(vs: seq<sextet>): (s: string)
    ensures |s| == |vs|
  {
    if vs == [] then [] else [Symbol(vs[0])] + Symbols(vs[1..])
  }

  /** The sextets of a text in the alphabet. */
  function Sextets(s: string): Option<seq<sextet>> {
    if s == [] then Some([])
    else
      var first, rest := Sextet(s[0]), Sextets(s[1..]);
      if first.None? || rest.None? then None else Some([first.value] + rest.value)
  }

  /** Line breaks inside the text are skipped. */
  function Unbroken(s: string): string {
    if s == [] then []
    else if s[0] == '\r' || s[0] == '\n' then Unbroken(s[1..])
    else [s[0]] + Unbroken(s[1..])
  }

  function Encode(bs: seq<byte>): string {
    Symbols(Pack(bs))
  }

  function Decode(s: string): Option<seq<byte>> {
    var vs := Sextets(Unbroken(s));
    if vs.None? then None else Unpack(vs.value)
  }

  lemma {:induction false} SymbolsArePlain(vs: seq<sextet>)
    ensures '$' !in Symbols(vs) && '\r' !in Symbols(vs) && '\n' !in Symbols(vs)
  {
    if vs != [] {
      SextetOfSymbol(vs[0]);
      SymbolsArePlain(vs[1..]);
    }
  }

  lemma {:induction false} SextetsOfSymbols(vs: seq<sextet>)
    ensures Sextets(Symbols(vs)) == Some(vs)
  {
    if vs != [] {
      SextetOfSymbol(vs[0]);
      SextetsOfSymbols(vs[1..]);
      assert vs == [vs[0]] + vs[1..];
    }
  }

  lemma {:induction false} UnbrokenPlain(s: string)
    requires '\r' !in s && '\n' !in s
    ensures Unbroken(s) == s
  {
    if s != [] {
      UnbrokenPlain(s[1..]);
    }
  }

  lemma FirstByte(a: byte, b: byte)
    ensures a / 4 * 4 + (a % 4 * 16 + b / 16) / 16 == a
  {
    assert (a % 4 * 16 + b / 16) / 16 == a % 4;
  }

  lemma SecondByte(a: byte, b: byte, c: byte)
    ensures (a % 4 * 16 + b / 16) % 16 * 16 + (b % 16 * 4 + c / 64) / 4 == b
  {
    assert (a % 4 * 16 + b / 16) % 16 == b / 16;
    assert (b % 16 * 4 + c / 64) / 4 == b % 16;
  }

  lemma ThirdByte(b: byte, c: byte)
    ensures (b % 16 * 4 + c / 64) % 4 * 64 + c % 64 == c
  {
    assert (b % 16 * 4 + c / 64) % 4 == c / 64;
  }

  lemma TripleOfQuad(a: byte, b: byte, c: byte)
    ensures var g := Quad(a, b, c); Triple(g.0, g.1, g.2, g.3) == (a, b, c)
    ensures Quad(a, 0, 0).2 == Quad(a, 0, 0).3 == Quad(a, b, 0).3 == 0
  {
    FirstByte(a, b);
    SecondByte(a, b, c);
    ThirdByte(b, c);
  }

  lemma {:induction false} UnpackPack(bs: seq<byte>)
    ensures Unpack(Pack(bs)) == Some(bs)
  {
    if |bs| == 1 {
      TripleOfQuad(bs[0], 0, 0);
      assert bs == [bs[0]];
    } else if |bs| == 2 {
      TripleOfQuad(bs[0], bs[1], 0);
      assert bs == [bs[0], bs[1]];
    } else if |bs| > 2 {
      UnpackPack(bs[3..]);
      TripleOfQuad(bs[0], bs[1], bs[2]);
      assert Pack(bs)[4..] == Pack(bs[3..]);
      assert bs == [bs[0], bs[1], bs[2]] + bs[3..];
    }
  }

  lemma Base64RoundTrip(bs: seq<byte>)
    ensures Decode(Encode(bs)) == Some(bs)
  {
    SymbolsArePlain(Pack(bs));
    UnbrokenPlain(Encode(bs));
    SextetsOfSymbols(Pack(bs));
    UnpackPack(bs);
  }

  predicate InAlphabet(c: char) {
    exists v: sextet :: Symbol(v) == c
  }

  lemma SextetIff(c: char)
    ensures Sextet(c).Some? <==> InAlphabet(c)
  {
    if Sextet(c).Some? {
      assert Symbol(Sextet(c).value) == c;
    }
    if v: sextet :| Symbol(v) == c {
      SextetOfSymbol(v);
    }
  }

  lemma {:induction false} SextetsIff(s: string)
    ensures Sextets(s).Some? <==> forall i | 0 <= i < |s| :: InAlphabet(s[i])
    ensures Sextets(s).Some? ==> |Sextets(s).value| == |s|
  {
    if s != [] {
      SextetIff(s[0]);
      SextetsIff(s[1..]);
      assert forall i | 0 < i < |s| :: s[i] == s[1..][i - 1];
      assert forall i | 0 <= i < |s| - 1 :: s[1..][i] == s[i + 1];
    }
  }

  lemma {:induction false} UnpackIff(vs: seq<sextet>)
    ensures Unpack(vs).Some? <==> |vs| % 4 != 1
  {
    if |vs| > 3 {
      UnpackIff(vs[4..]);
    }
  }

  /** Exactly which texts decode: but for line breaks, symbols of the alphabet only, and never one
      alone in the last group. */
  lemma DecodesIff(s: string)
    ensures var plain := Unbroken(s);
            Decode(s).Some? <==> (forall i | 0 <= i < |plain| :: InAlphabet(plain[i])) && |plain| % 4 != 1
  {
    SextetsIff(Unbroken(s));
    if Sextets(Unbroken(s)).Some? {
      UnpackIff(Sextets(Unbroken(s)).value);
    }
  }

  // ---------------------------------------------------------------------------
  // Decimal numbers, printed with %d and read back by the scanner.
  // ---------------------------------------------------------------------------

  function Print(n: nat): (s: string)
    ensures s != [] && forall i | 0 <= i < |s| :: IsDigit(s[i])
  {
    var digit := ('0' as int + n % 10) as char;
    if n < 10 then [digit] else Print(n / 10) + [digit]
  }

  function Value(digits: string): nat
    requires forall i | 0 <= i < |digits| :: IsDigit(digits[i])
  {
    if digits == [] then 0
    else
      var last := digits[|digits| - 1];
      assert IsDigit(last);
      Value(digits[..|digits| - 1]) * 10 + (last as int - '0' as int)
  }

  function DigitPrefix(s: string): (n: nat)
    ensures n <= |s| && forall i | 0 <= i < n :: IsDigit(s[i])
  {
    if s == [] || !IsDigit(s[0]) then 0 else 1 + DigitPrefix(s[1..])
  }

  /** Spaces before a number are skipped; a line break stops the scan with an error. */
  function SkipSpaces(s: string): Option<string> {
    if s == [] then Some([])
    else if s[0] == '\r' && |s| > 1 && s[1] == '\n' then None
    else if s[0] == '\n' then None
    else if IsSpace(s[0]) then SkipSpaces(s[1..])
    else Some(s)
  }

  /** `%d` into an unsigned variable below `limit`: the value and what follows it. */
  function ScanUnsigned(s: string, limit: nat): Option<(nat, string)> {
    var t := SkipSpaces(s);
    if t.None? then None
    else
      var k := DigitPrefix(t.value);
      if k == 0 || Value(t.value[..k]) >= limit then None else Some((Value(t.value[..k]), t.value[k..]))
  }

  const INT_LIMIT := 0x8000_0000_0000_0000

  /** `%d` into an `int`: a sign is accepted, and the range is that of 64 bits. */
  function ScanInt(s: string): Option<(int, string)> {
    var t := SkipSpaces(s);
    if t.None? then None
    else
      var signed := t.value != [] && (t.value[0] == '+' || t.value[0] == '-');
      var negative := signed && t.value[0] == '-';
      var digits := if signed then t.value[1..] else t.value;
      var k := DigitPrefix(digits);
      if k == 0 then None
      else
        var v: int := Value(digits[..k]);
        if negative then if v > INT_LIMIT then None else Some((-v, digits[k..]))
        else if v >= INT_LIMIT then None else Some((v, digits[k..]))
  }

  /** A literal of the scan format must be there character by character. */
  function ScanLiteral(s: string, literal: string): Option<string> {
    if literal == [] then Some(s)
    else if s == [] || s[0] != literal[0] then None
    else ScanLiteral(s[1..], literal[1..])
  }

  lemma {:induction false} ValueOfPrint(n: nat)
    ensures Value(Print(n)) == n
  {
    if n >= 10 {
      ValueOfPrint(n / 10);
      assert Print(n)[..|Print(n)| - 1] == Print(n / 10);
    }
  }

  lemma {:induction false} DigitPrefixOf(digits: string, rest: string)
    requires forall i | 0 <= i < |digits| :: IsDigit(digits[i])
    requires rest == [] || !IsDigit(rest[0])
    ensures DigitPrefix(digits + rest) == |digits|
  {
    if digits == [] {
      assert digits + rest == rest;
    } else {
      assert (digits + rest)[1..] == digits[1..] + rest;
      DigitPrefixOf(digits[1..], rest);
    }
  }

  lemma ScanOfPrint(n: nat, rest: string, limit: nat)
    requires rest == [] || !IsDigit(rest[0])
    ensures ScanUnsigned(Print(n) + rest, limit) == if n < limit then Some((n, rest)) else None
    ensures ScanInt(Print(n) + rest) == if n < 0x8000_0000_0000_0000 then Some((n as int, rest)) else None
  {
    var s := Print(n) + rest;
    assert IsDigit(s[0]) && SkipSpaces(s) == Some(s);
    DigitPrefixOf(Print(n), rest);
    ValueOfPrint(n);
    assert s[..|Print(n)|] == Print(n) && s[|Print(n)|..] == rest;
  }

  lemma {:induction false} LiteralOf(literal: string, rest: string)
    ensures ScanLiteral(literal + rest, literal) == Some(rest)
  {
    if literal == [] {
      assert literal + rest == rest;
    } else {
      assert (literal + rest)[1..] == literal[1..] + rest;
      LiteralOf(literal[1..], rest);
    }
  }

  // ---------------------------------------------------------------------------
  // The encoded hash.
  // ---------------------------------------------------------------------------

  const ARGON_VERSION := 19
  const ARGON_TIME := 1
  const ARGON_MEMORY := 64 * 1024
  const ARGON_THREADS := 4
  const ARGON_KEY_LEN := 32

  datatype Params = Params(memory: nat, time: nat, threads: nat)

  datatype Parts = Parts(params: Params, salt: seq<byte>, digest: seq<byte>)

  /** password, salt, parameters and key length to key */
  type Kdf = (string, seq<byte>, Params, nat) -> seq<byte>

  ghost predicate InRange(p: Params) {
    p.memory < 0x1_0000_0000 && p.time < 0x1_0000_0000 && p.threads < 0x100
  }

  function VersionField(version: nat): string {
    "v=" + Print(version)
  }

  function ParamsField(p: Params): string {
    "m=" + (Print(p.memory) + (",t=" + (Print(p.time) + (",p=" + (Print(p.threads) + "")))))
  }

  function Format(version: nat, parts: Parts): string {
    Join(["argon2id", VersionField(version), ParamsField(parts.params), Encode(parts.salt), Encode(parts.digest)], '$')
  }

  function ParseVersion(field: string): Option<int> {
    var rest := ScanLiteral(field, "v=");
    if rest.None? then None
    else
      var v := ScanInt(rest.value);
      if v.None? then None else Some(v.value.0)
  }

  /** One `key=%d` item of the parameter list. */
  function ParseItem(s: string, literal: string, limit: nat): Option<(nat, string)> {
    var rest := ScanLiteral(s, literal);
    if rest.None? then None else ScanUnsigned(rest.value, limit)
  }

  function ParseParams(field: string): Option<Params> {
    var m := ParseItem(field, "m=", 0x1_0000_0000);
    if m.None? then None
    else
      var t := ParseItem(m.value.1, ",t=", 0x1_0000_0000);
      if t.None? then None
      else
        var p := ParseItem(t.value.1, ",p=", 0x100);
        if p.None? then None else Some(Params(m.value.0, t.value.0, p.value.0))
  }

  /** The parts of an encoded hash of the current version. */
  function Parse(encoded: string): Option<Parts> {
    var fields := Split(encoded, '$');
    if |fields| != 5 || fields[0] != "argon2id" then None
    else if ParseVersion(fields[1]) != Some(ARGON_VERSION) then None
    else
      var params, salt, digest := ParseParams(fields[2]), Decode(fields[3]), Decode(fields[4]);
      if params.None? || salt.None? || digest.None? then None
      else Some(Parts(params.value, salt.value, digest.value))
  }

  function HashPassword(plain: string, salt: seq<byte>, kdf: Kdf): string {
    var params := Params(ARGON_MEMORY, ARGON_TIME, ARGON_THREADS);
    Format(ARGON_VERSION, Parts(params, salt, kdf(plain, salt, params, ARGON_KEY_LEN)))
  }

  /** None is the "not in the expected format" error. */
  function VerifyPassword(encoded: string, plain: string, kdf: Kdf): Option<bool> {
    var parts := Parse(encoded);
    if parts.None? then None
    else
      Some(kdf(plain, parts.value.salt, parts.value.params, |parts.value.digest|) == parts.value.digest)
  }

  /** The stored text, written out: version 19, 64 MiB, one pass, four lanes, a 32-byte key. */
  lemma StoredForm(plain: string, salt: seq<byte>, kdf: Kdf)
    ensures HashPassword(plain, salt, kdf) ==
            "argon2id$v=19$m=65536,t=1,p=4$" + Encode(salt) + "$" + Encode(kdf(plain, salt, Params(65536, 1, 4), 32))
  {
    var params := Params(65536, 1, 4);
    var key := kdf(plain, salt, params, 32);
    FieldsWritten();
    JoinFive(["argon2id", "v=19", "m=65536,t=1,p=4", Encode(salt), Encode(key)], '$');
    OneText(Encode(salt), Encode(key));
  }

  lemma OneText(salt: string, key: string)
    ensures "argon2id" + ['$'] + "v=19" + ['$'] + "m=65536,t=1,p=4" + ['$'] + salt + ['$'] + key ==
            "argon2id$v=19$m=65536,t=1,p=4$" + salt + "$" + key
  {
    assert "argon2id" + ['$'] + "v=19" + ['$'] + "m=65536,t=1,p=4" + ['$'] == "argon2id$v=19$m=65536,t=1,p=4$";
  }

  lemma FieldsWritten()
    ensures VersionField(19) == "v=19" && ParamsField(Params(65536, 1, 4)) == "m=65536,t=1,p=4"
  {
    Printed();
  }

  lemma Printed()
    ensures Print(19) == "19" && Print(65536) == "65536" && Print(1) == "1" && Print(4) == "4"
  {
    assert Print(6) == "6" && Print(65) == "65" && Print(655) == "655" && Print(6553) == "6553";
  }

  lemma JoinFive(fields: seq<string>, sep: char)
    requires |fields| == 5
    ensures Join(fields, sep) ==
            fields[0] + [sep] + fields[1] + [sep] + fields[2] + [sep] + fields[3] + [sep] + fields[4]
  {
    assert Join(fields[4..], sep) == fields[4];
    assert fields[3..][1..] == fields[4..] && Join(fields[3..], sep) == fields[3] + [sep] + Join(fields[4..], sep);
    assert fields[2..][1..] == fields[3..] && Join(fields[2..], sep) == fields[2] + [sep] + Join(fields[3..], sep);
    assert fields[1..][1..] == fields[2..] && Join(fields[1..], sep) == fields[1] + [sep] + Join(fields[2..], sep);
  }

  lemma ItemOf(literal: string, n: nat, rest: string, limit: nat)
    requires n < limit && (rest == [] || !IsDigit(rest[0]))
    ensures ParseItem(literal + (Print(n) + rest), literal, limit) == Some((n, rest))
  {
    LiteralOf(literal, Print(n) + rest);
    ScanOfPrint(n, rest, limit);
  }

  lemma ParamsRoundTrip(p: Params)
    requires InRange(p)
    ensures ParseParams(ParamsField(p)) == Some(p)
  {
    var threads := ",p=" + (Print(p.threads) + "");
    var time := ",t=" + (Print(p.time) + threads);
    ItemOf("m=", p.memory, time, 0x1_0000_0000);
    ItemOf(",t=", p.time, threads, 0x1_0000_0000);
    ItemOf(",p=", p.threads, "", 0x100);
  }

  lemma VersionRoundTrip(version: nat)
    requires version < INT_LIMIT
    ensures ParseVersion(VersionField(version)) == Some(version as int)
  {
    LiteralOf("v=", Print(version));
    assert Print(version) + "" == Print(version);
    ScanOfPrint(version, "", INT_LIMIT);
  }

  lemma FieldsArePlain(version: nat, p: Params)
    ensures '$' !in VersionField(version) && '$' !in ParamsField(p) && '$' !in "argon2id"
  {
    DigitsArePlain(Print(version));
    DigitsArePlain(Print(p.memory));
    DigitsArePlain(Print(p.time));
    DigitsArePlain(Print(p.threads));
  }

  lemma DigitsArePlain(s: string)
    requires forall i | 0 <= i < |s| :: IsDigit(s[i])
    ensures '$' !in s
  {
  }

  /** Splitting an encoded hash gives back its five fields. */
  lemma FieldsOf(version: nat, parts: Parts)
    ensures Split(Format(version, parts), '$') ==
            ["argon2id", VersionField(version), ParamsField(parts.params), Encode(parts.salt), Encode(parts.digest)]
  {
    FieldsArePlain(version, parts.params);
    SymbolsArePlain(Pack(parts.salt));
    SymbolsArePlain(Pack(parts.digest));
    SplitJoin(["argon2id", VersionField(version), ParamsField(parts.params), Encode(parts.salt), Encode(parts.digest)],
      '$');
  }

  /** Parsing an encoded hash recovers its parameters, salt and digest, for all of them. */
  lemma FormatRoundTrip(parts: Parts)
    requires InRange(parts.params)
    ensures Parse(Format(ARGON_VERSION, parts)) == Some(parts)
  {
    FieldsOf(ARGON_VERSION, parts);
    VersionRoundTrip(ARGON_VERSION);
    ParamsRoundTrip(parts.params);
    Base64RoundTrip(parts.salt);
    Base64RoundTrip(parts.digest);
  }

  /** So different parts never share an encoding. */
  lemma FormatIsInjective(a: Parts, b: Parts)
    requires InRange(a.params) && InRange(b.params) && Format(ARGON_VERSION, a) == Format(ARGON_VERSION, b)
    ensures a == b
  {
    FormatRoundTrip(a);
    FormatRoundTrip(b);
  }

  /** A hash of another version is refused as malformed, whatever it holds. */
  lemma OtherVersionsAreRefused(version: nat, parts: Parts)
    requires version < INT_LIMIT && version != ARGON_VERSION
    ensures Parse(Format(version, parts)).None?
  {
    FieldsOf(version, parts);
    VersionRoundTrip(version);
  }

  /** A stored hash accepts a password iff the derived keys agree; so it accepts its own. */
  lemma HashVerifies(plain: string, other: string, salt: seq<byte>, kdf: Kdf)
    requires forall p, s, params, n :: |kdf(p, s, params, n)| == n
    ensures var params := Params(ARGON_MEMORY, ARGON_TIME, ARGON_THREADS);
            VerifyPassword(HashPassword(plain, salt, kdf), other, kdf) ==
            Some(kdf(other, salt, params, ARGON_KEY_LEN) == kdf(plain, salt, params, ARGON_KEY_LEN))
    ensures VerifyPassword(HashPassword(plain, salt, kdf), plain, kdf) == Some(true)
  {
    var params := Params(ARGON_MEMORY, ARGON_TIME, ARGON_THREADS);
    FormatRoundTrip(Parts(params, salt, kdf(plain, salt, params, ARGON_KEY_LEN)));
  }
}
