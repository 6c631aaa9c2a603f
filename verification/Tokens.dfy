/** Base64url without padding and the JSON web tokens built on it (kelan/api/server.py:186-216;
    RFC 4648 section 5, RFC 7515 appendix C). */
module Tokens {
  import opened Common

  type Bytes = seq<u8>

  // ---- Base64url ----

  function ToChar(v: nat): char
    requires v < 64
  {
    if v < 26 then 'A' + v as char
    else if v < 52 then 'a' + (v - 26) as char
    else if v < 62 then '0' + (v - 52) as char
    else if v == 62 then '-' else '_'
  }

  /** The value of a character; the decoder also knows the two of the standard alphabet. */
  function FromChar(c: char): Option<nat> {
    if 'A' <= c <= 'Z' then Some(c as nat - 'A' as nat)
    else if 'a' <= c <= 'z' then Some(c as nat - 'a' as nat + 26)
    else if '0' <= c <= '9' then Some(c as nat - '0' as nat + 52)
    else if c == '-' || c == '+' then Some(62)
    else if c == '_' || c == '/' then Some(63)
    else None
  }

  lemma FromToChar(v: nat)
    requires v < 64
    ensures FromChar(ToChar(v)) == Some(v) && ToChar(v) != '=' && ToChar(v) != '.' && ToChar(v) as nat < 128
  {
  }

  type Sextet = n: nat | n < 64

  /** The six-bit values of a byte string: four for three bytes, and two or three for the rest. */
  function Sextets(b: Bytes): seq<Sextet> {
    if b == [] then []
    else if |b| == 1 then [b[0] / 4, b[0] % 4 * 16]
    else if |b| == 2 then [b[0] / 4, b[0] % 4 * 16 + b[1] / 16, b[1] % 16 * 4]
    else [b[0] / 4, b[0] % 4 * 16 + b[1] / 16, b[1] % 16 * 4 + b[2] / 64, b[2] % 64] + Sextets(b[3..])
  }

  function Chars(ss: seq<Sextet>): string { seq(|ss|, i requires 0 <= i < |ss| => ToChar(ss[i])) }

  function Equals(n: nat): string { seq(n, _ => '=') }

  /** Standard encoding, padded to whole groups of four characters. */
  function Padded(b: Bytes): string { Chars(Sextets(b)) + Equals(if |b| % 3 == 0 then 0 else 3 - |b| % 3) }

  function StripPadding(s: string): string {
    if s != "" && s[|s| - 1] == '=' then StripPadding(s[..|s| - 1]) else s
  }

  function Encode(b: Bytes): string { StripPadding(Padded(b)) }

  /** How the lenient decoder of the Python library reads characters: unknown ones are skipped, a
      padding sequence after at least two characters of a group ends the input, and the input must
      not end inside a group. `left` holds the bits not yet emitted, `pads` the padding seen. */
  function A2b(s: string, quad: nat, left: nat, pads: nat): Option<Bytes>
    requires quad < 4 && (quad == 1 ==> left < 64) && (quad == 2 ==> left < 16) && (quad == 3 ==> left < 4)
  {
    if s == "" then if quad == 0 then Some([]) else None
    else if s[0] == '=' then
      if quad >= 2 && quad + pads + 1 >= 4 then Some([])
      else A2b(s[1..], quad, left, if quad >= 2 then pads + 1 else pads)
    else match FromChar(s[0])
      case None => A2b(s[1..], quad, left, pads)
      case Some(v) =>
        if quad == 0 then A2b(s[1..], 1, v, 0)
        else if quad == 1 then Emit(left * 4 + v / 16, A2b(s[1..], 2, v % 16, 0))
        else if quad == 2 then Emit(left * 16 + v / 4, A2b(s[1..], 3, v % 4, 0))
        else Emit(left * 64 + v, A2b(s[1..], 0, 0, 0))
  }

  function Emit(byte: u8, rest: Option<Bytes>): Option<Bytes> { if rest.Some? then Some([byte] + rest.value) else None }

  function Decode(data: string): Option<Bytes> {
    if exists i :: 0 <= i < |data| && data[i] as nat >= 128 then None
    else A2b(data + Equals(4 - |data| % 4), 0, 0, 0)
  }

  predicate UrlSafe(s: string) { forall i :: 0 <= i < |s| ==> s[i] != '=' && s[i] != '.' && s[i] as nat < 128 }

  lemma CharsUrlSafe(ss: seq<Sextet>)
    ensures UrlSafe(Chars(ss))
  {
    forall i | 0 <= i < |ss| ensures ToChar(ss[i]) != '=' && ToChar(ss[i]) != '.' && ToChar(ss[i]) as nat < 128 {
      FromToChar(ss[i]); }
  }

  lemma {:induction false} StripEquals(s: string, n: nat)
    requires UrlSafe(s)
    ensures StripPadding(s + Equals(n)) == s
  {
    if n > 0 {
      assert (s + Equals(n))[..|s| + n - 1] == s + Equals(n - 1);
      StripEquals(s, n - 1);
    } else {
      assert s + Equals(0) == s;
    }
  }

  /** Reading six-bit values with n padding characters behind them. */
  function FromSextets(ss: seq<Sextet>, n: nat, quad: nat, left: nat): Option<Bytes>
    requires quad < 4 && (quad == 1 ==> left < 64) && (quad == 2 ==> left < 16) && (quad == 3 ==> left < 4)
  {
    if ss == [] then if quad == 0 || (quad == 2 && n >= 2) || (quad == 3 && n >= 1) then Some([]) else None
    else if quad == 0 then FromSextets(ss[1..], n, 1, ss[0])
    else if quad == 1 then Emit(left * 4 + ss[0] / 16, FromSextets(ss[1..], n, 2, ss[0] % 16))
    else if quad == 2 then Emit(left * 16 + ss[0] / 4, FromSextets(ss[1..], n, 3, ss[0] % 4))
    else Emit(left * 64 + ss[0], FromSextets(ss[1..], n, 0, 0))
  }

  lemma {:induction false} ReadPadding(n: nat, quad: nat, left: nat, pads: nat)
    requires quad < 4 && (quad == 1 ==> left < 64) && (quad == 2 ==> left < 16) && (quad == 3 ==> left < 4) && pads <= 1
    requires pads == 1 ==> quad == 2
    ensures A2b(Equals(n), quad, left, pads)
         == if quad == 0 || (quad == 2 && n + pads >= 2) || (quad == 3 && n >= 1) then Some([]) else None
    decreases n
  {
    if n > 0 {
      assert Equals(n)[1..] == Equals(n - 1);
      if quad <= 1 { ReadPadding(n - 1, quad, left, pads); }
      else if quad == 2 && pads == 0 { ReadPadding(n - 1, quad, left, 1); }
    }
  }

  /** On encoded text the lenient decoder reads the six-bit values. */
  lemma {:induction false} ReadChars(ss: seq<Sextet>, n: nat, quad: nat, left: nat)
    requires quad < 4 && (quad == 1 ==> left < 64) && (quad == 2 ==> left < 16) && (quad == 3 ==> left < 4)
    ensures A2b(Chars(ss) + Equals(n), quad, left, 0) == FromSextets(ss, n, quad, left)
    decreases ss
  {
    if ss == [] {
      assert Chars(ss) + Equals(n) == Equals(n);
      ReadPadding(n, quad, left, 0);
    } else {
      var v, rest := ss[0], ss[1..];
      FromToChar(v);
      assert (Chars(ss) + Equals(n))[1..] == Chars(rest) + Equals(n);
      if quad == 0 { ReadChars(rest, n, 1, v); }
      else if quad == 1 { ReadChars(rest, n, 2, v % 16); }
      else if quad == 2 { ReadChars(rest, n, 3, v % 4); }
      else { ReadChars(rest, n, 0, 0); }
    }
  }

  /** Characters outside the alphabets are skipped wherever they stand. */
  lemma {:induction false} JunkIsSkipped(a: string, junk: char, b: string, quad: nat, left: nat, pads: nat)
    requires quad < 4 && (quad == 1 ==> left < 64) && (quad == 2 ==> left < 16) && (quad == 3 ==> left < 4)
    requires FromChar(junk).None? && junk != '='
    ensures A2b(a + [junk] + b, quad, left, pads) == A2b(a + b, quad, left, pads)
    decreases a
  {
    if a == "" {
      assert a + [junk] + b == [junk] + b && ([junk] + b)[1..] == b && a + b == b;
    } else {
      var c := a[0];
      assert (a + [junk] + b)[0] == c && (a + [junk] + b)[1..] == a[1..] + [junk] + b;
      assert (a + b)[0] == c && (a + b)[1..] == a[1..] + b;
      if c == '=' {
        if !(quad >= 2 && quad + pads + 1 >= 4) {
          JunkIsSkipped(a[1..], junk, b, quad, left, if quad >= 2 then pads + 1 else pads);
        }
      } else if FromChar(c).None? {
        JunkIsSkipped(a[1..], junk, b, quad, left, pads);
      } else {
        var v := FromChar(c).value;
        if quad == 0 { JunkIsSkipped(a[1..], junk, b, 1, v, 0); }
        else if quad == 1 { JunkIsSkipped(a[1..], junk, b, 2, v % 16, 0); }
        else if quad == 2 { JunkIsSkipped(a[1..], junk, b, 3, v % 4, 0); }
        else { JunkIsSkipped(a[1..], junk, b, 0, 0, 0); }
      }
    }
  }

  /** A single character beyond whole groups of four is six bits of a byte at most: no such text
      decodes. */
  lemma {:induction false} LoneSextetNeverDecodes(ss: seq<Sextet>)
    requires |ss| % 4 == 1
    ensures Decode(Chars(ss)) == None
  {
    CharsUrlSafe(ss);
    ReadChars(ss, 4 - |ss| % 4, 0, 0);
    LoneSextet(ss, 4 - |ss| % 4);
  }

  lemma {:induction false} LoneSextet(ss: seq<Sextet>, n: nat)
    requires |ss| % 4 == 1
    ensures FromSextets(ss, n, 0, 0) == None
  {
    if |ss| > 1 {
      var rest := ss[4..];
      LoneSextet(rest, n);
      assert ss == [ss[0], ss[1], ss[2], ss[3]] + rest;
      ReadFour(ss[0], ss[1], ss[2], ss[3], rest, n);
    } else {
      assert ss[1..] == [];
    }
  }

  lemma ReadTwo(s0: Sextet, s1: Sextet, rest: seq<Sextet>, n: nat)
    ensures FromSextets([s0, s1] + rest, n, 0, 0) == Emit(s0 * 4 + s1 / 16, FromSextets(rest, n, 2, s1 % 16))
  {
    assert ([s0, s1] + rest)[1..] == [s1] + rest;
    assert ([s1] + rest)[1..] == rest;
  }

  lemma ReadNext(s: Sextet, rest: seq<Sextet>, n: nat, quad: nat, left: nat)
    requires (quad == 2 && left < 16) || (quad == 3 && left < 4)
    ensures FromSextets([s] + rest, n, quad, left)
         == if quad == 2 then Emit(left * 16 + s / 4, FromSextets(rest, n, 3, s % 4))
            else Emit(left * 64 + s, FromSextets(rest, n, 0, 0))
  {
    assert ([s] + rest)[1..] == rest;
  }

  lemma GroupArithmetic(b0: u8, b1: u8, b2: u8)
    ensures b0 / 4 * 4 + (b0 % 4 * 16 + b1 / 16) / 16 == b0
    ensures (b0 % 4 * 16 + b1 / 16) % 16 * 16 + (b1 % 16 * 4 + b2 / 64) / 4 == b1
    ensures (b1 % 16 * 4 + b2 / 64) % 4 * 64 + b2 % 64 == b2
  {
  }

  /** Four six-bit values are three bytes, whatever their values. */
  lemma ReadFour(s0: Sextet, s1: Sextet, s2: Sextet, s3: Sextet, rest: seq<Sextet>, n: nat)
    ensures FromSextets([s0, s1, s2, s3] + rest, n, 0, 0)
         == Emit(s0 * 4 + s1 / 16, Emit(s1 % 16 * 16 + s2 / 4, Emit(s2 % 4 * 64 + s3, FromSextets(rest, n, 0, 0))))
  {
    assert [s0, s1, s2, s3] + rest == [s0, s1] + ([s2] + ([s3] + rest));
    ReadTwo(s0, s1, [s2] + ([s3] + rest), n);
    ReadNext(s2, [s3] + rest, n, 2, s1 % 16);
    ReadNext(s3, rest, n, 3, s2 % 4);
  }

  lemma ReadGroup(b0: u8, b1: u8, b2: u8, rest: seq<Sextet>, n: nat)
    ensures FromSextets([b0 / 4, b0 % 4 * 16 + b1 / 16, b1 % 16 * 4 + b2 / 64, b2 % 64] + rest, n, 0, 0)
         == Emit(b0, Emit(b1, Emit(b2, FromSextets(rest, n, 0, 0))))
  {
    GroupArithmetic(b0, b1, b2);
    ReadFour(b0 / 4, b0 % 4 * 16 + b1 / 16, b1 % 16 * 4 + b2 / 64, b2 % 64, rest, n);
  }

  lemma ReadLastOne(b0: u8, n: nat)
    requires n >= 2
    ensures FromSextets([b0 / 4, b0 % 4 * 16], n, 0, 0) == Some([b0])
  {
    assert [b0 / 4, b0 % 4 * 16] == [b0 / 4, b0 % 4 * 16] + [];
    ReadTwo(b0 / 4, b0 % 4 * 16, [], n);
    assert [b0] + [] == [b0];
  }

  lemma ReadLastTwo(b0: u8, b1: u8, n: nat)
    requires n >= 1
    ensures FromSextets([b0 / 4, b0 % 4 * 16 + b1 / 16, b1 % 16 * 4], n, 0, 0) == Some([b0, b1])
  {
    var s0, s1, s2 := b0 / 4, b0 % 4 * 16 + b1 / 16, b1 % 16 * 4;
    assert [s0, s1, s2] == [s0, s1] + ([s2] + []);
    ReadTwo(s0, s1, [s2] + [], n);
    ReadNext(s2, [], n, 2, b1 / 16);
    assert [b0] + ([b1] + []) == [b0, b1];
  }

  lemma EmitThree(b: Bytes)
    requires |b| >= 3
    ensures Emit(b[0], Emit(b[1], Emit(b[2], Some(b[3..])))) == Some(b)
  {
    assert b == [b[0]] + ([b[1]] + ([b[2]] + b[3..]));
  }

  lemma ReadGroupThenRest(b: Bytes, n: nat)
    requires |b| >= 3 && FromSextets(Sextets(b[3..]), n, 0, 0) == Some(b[3..])
    ensures FromSextets(Sextets(b), n, 0, 0) == Some(b)
  {
    ReadGroup(b[0], b[1], b[2], Sextets(b[3..]), n);
    EmitThree(b);
  }

  /** Reading the six-bit values of a byte string gives it back. */
  lemma {:induction false} ReadSextets(b: Bytes, n: nat)
    requires |b| % 3 != 0 ==> n >= 3 - |b| % 3
    ensures FromSextets(Sextets(b), n, 0, 0) == Some(b)
  {
    if |b| == 1 {
      ReadLastOne(b[0], n);
      assert b == [b[0]];
    } else if |b| == 2 {
      ReadLastTwo(b[0], b[1], n);
      assert b == [b[0], b[1]];
    } else if |b| >= 3 {
      ReadSextets(b[3..], n);
      ReadGroupThenRest(b, n);
    }
  }

  lemma {:induction false} SextetCount(b: Bytes)
    ensures |Sextets(b)| % 4 == (if |b| % 3 == 0 then 0 else |b| % 3 + 1)
  {
    if |b| >= 3 { SextetCount(b[3..]); }
  }

  lemma DecodeChars(b: Bytes)
    ensures Decode(Chars(Sextets(b))) == Some(b)
  {
    var ss := Sextets(b);
    CharsUrlSafe(ss);
    SextetCount(b);
    ReadChars(ss, 4 - |ss| % 4, 0, 0);
    ReadSextets(b, 4 - |ss| % 4);
  }

  /** Round trip: decoding an encoding returns the bytes, for every byte string. */
  lemma DecodeEncode(b: Bytes)
    ensures Decode(Encode(b)) == Some(b)
    ensures UrlSafe(Encode(b))
  {
    var ss := Sextets(b);
    CharsUrlSafe(ss);
    StripEquals(Chars(ss), if |b| % 3 == 0 then 0 else 3 - |b| % 3);
    DecodeChars(b);
  }

  lemma EncodeIsUnpadded(b: Bytes)
    ensures Encode(b) == Chars(Sextets(b))
  {
    CharsUrlSafe(Sextets(b));
    StripEquals(Chars(Sextets(b)), if |b| % 3 == 0 then 0 else 3 - |b| % 3);
  }

  /** The bits of three bytes are those of four sextets, most significant first. */
  lemma SextetsKeepValue(b: Bytes)
    requires |b| == 3
    ensures var s := Sextets(b);
      && |s| == 4
      && 0x1_0000 * (b[0] as nat) + 0x100 * (b[1] as nat) + b[2]
           == 0x4_0000 * (s[0] as nat) + 0x1000 * (s[1] as nat) + 0x40 * (s[2] as nat) + s[3]
  {
    assert b[3..] == [];
  }

  /** The test vectors "f" and "foob" of RFC 4648, section 10, without their padding. */
  lemma KnownEncodings()
    ensures Encode([0x66]) == "Zg" && Encode([0x66, 0x6F, 0x6F, 0x62]) == "Zm9vYg"
  {
    var f, foob: Bytes := [0x66], [0x66, 0x6F, 0x6F, 0x62];
    EncodeIsUnpadded(f);
    EncodeIsUnpadded(foob);
    assert Sextets(f) == [25, 32];
    assert foob[3..] == [0x62] && Sextets(foob) == [25, 38, 61, 47, 24, 32];
    assert Chars([25, 32]) == "Zg";
    assert Chars([25, 38, 61, 47, 24, 32]) == "Zm9vYg";
  }

  /** The two characters in which the URL-safe alphabet differs from the standard one. */
  lemma KnownUrlSafeEncoding()
    ensures Encode([0xFB, 0xFF]) == "-_8"
  {
    EncodeIsUnpadded([0xFB, 0xFF]);
    assert Sextets([0xFB, 0xFF]) == [62, 63, 60];
    assert Chars([62, 63, 60]) == "-_8";
  }

  lemma EncodeInjective(a: Bytes, b: Bytes)
    requires Encode(a) == Encode(b)
    ensures a == b
  {
    DecodeEncode(a);
    DecodeEncode(b);
  }

  // ---- JSON web tokens ----

  datatype Json = Null | Bool(b: bool) | Number(n: real) | Text(s: string) | Other(truthy: bool)

  type Claims = map<string, Json>

  /** The libraries behind the tokens: JSON printing and parsing (with UTF-8), and HMAC-SHA256. */
  datatype Library = Library(
    header: Bytes,
    dumps: Claims -> Bytes,
    loads: Bytes -> Option<Claims>,
    hmac: (string, string) -> Bytes)

  datatype JwtError = BadFormat | BadSignature | BadPayload | Expired | NotComparable

  function EncodeJwt(claims: Claims, secret: string, lib: Library): string {
    var signingInput := Encode(lib.header) + "." + Encode(lib.dumps(claims));
    signingInput + "." + Encode(lib.hmac(secret, signingInput))
  }

  /** Python's `split('.')`. */
  function Split(s: string): seq<string> {
    if s == "" then [""]
    else
      var rest := Split(s[1..]);
      if s[0] == '.' then [""] + rest else [[s[0]] + rest[0]] + rest[1..]
  }

  /** The expiry test: only a truthy `exp` counts, and text cannot be compared with the clock. */
  function CheckExpiry(claims: Claims, now: real): Result<Claims, JwtError> {
    if "exp" !in claims then Ok(claims)
    else match claims["exp"]
      case Null => Ok(claims)
      case Bool(b) => if b && now > 1.0 then Err(Expired) else Ok(claims)
      case Number(n) => if n != 0.0 && now > n then Err(Expired) else Ok(claims)
      case Text(s) => if s != "" then Err(NotComparable) else Ok(claims)
      case Other(truthy) => if truthy then Err(NotComparable) else Ok(claims)
  }

  function DecodeJwt(token: string, secret: string, now: real, lib: Library): Result<Claims, JwtError> {
    var parts := Split(token);
    if |parts| != 3 then Err(BadFormat)
    else if parts[2] != Encode(lib.hmac(secret, parts[0] + "." + parts[1])) then Err(BadSignature)
    else
      var payload := Decode(parts[1]);
      if payload.None? || lib.loads(payload.value).None? then Err(BadPayload)
      else CheckExpiry(lib.loads(payload.value).value, now)
  }

  function Join(parts: seq<string>): string
    requires parts != []
  {
    if |parts| == 1 then parts[0] else parts[0] + "." + Join(parts[1..])
  }

  predicate DotFree(s: string) { forall i :: 0 <= i < |s| ==> s[i] != '.' }

  lemma {:induction false} SplitPart(a: string, rest: string)
    requires DotFree(a)
    ensures Split(a + "." + rest) == [a] + Split(rest)
    ensures Split(a) == [a]
  {
    if a == "" {
      assert a + "." + rest == "." + rest && ("." + rest)[1..] == rest;
    } else {
      SplitPart(a[1..], rest);
      assert (a + "." + rest)[1..] == a[1..] + "." + rest;
      assert [a[0]] + a[1..] == a;
    }
  }

  lemma SplitThree(a: string, b: string, c: string)
    requires DotFree(a) && DotFree(b) && DotFree(c)
    ensures Split(a + "." + b + "." + c) == [a, b, c]
  {
    assert a + "." + b + "." + c == a + "." + (b + "." + c);
    SplitPart(a, b + "." + c);
    SplitPart(b, c);
    SplitPart(c, "");
  }

  lemma {:induction false} JoinSplit(s: string)
    ensures Join(Split(s)) == s
  {
    if s != "" {
      JoinSplit(s[1..]);
      var rest := Split(s[1..]);
      if s[0] == '.' {
        assert ([""] + rest)[1..] == rest;
        assert "" + "." + Join(rest) == s;
      } else {
        var parts := [[s[0]] + rest[0]] + rest[1..];
        assert parts[1..] == rest[1..];
        assert [s[0]] + s[1..] == s;
        if |rest| > 1 { assert [s[0]] + (rest[0] + "." + Join(rest[1..])) == [s[0]] + rest[0] + "." + Join(rest[1..]); }
      }
    }
  }

  /** The token is two dot-free parts and the signature of both under the secret. */
  predicate SignedAs(token: string, header: string, payload: string, secret: string, lib: Library) {
    && DotFree(header) && DotFree(payload)
    && token == header + "." + payload + "." + Encode(lib.hmac(secret, header + "." + payload))
  }

  lemma SplitSigned(token: string, header: string, payload: string, secret: string, lib: Library)
    requires SignedAs(token, header, payload, secret, lib)
    ensures Split(token) == [header, payload, Encode(lib.hmac(secret, header + "." + payload))]
  {
    DecodeEncode(lib.hmac(secret, header + "." + payload));
    SplitThree(header, payload, Encode(lib.hmac(secret, header + "." + payload)));
  }

  ghost predicate Carries(token: string, header: string, payload: string, secret: string, lib: Library,
                          claims: Claims) {
    && SignedAs(token, header, payload, secret, lib)
    && Decode(payload).Some? && lib.loads(Decode(payload).value) == Some(claims)
  }

  /** A signed text decodes to the expiry check of the claims it carries. */
  lemma DecodeCarried(token: string, header: string, payload: string, secret: string, now: real, lib: Library,
                      claims: Claims)
    requires Carries(token, header, payload, secret, lib, claims)
    ensures DecodeJwt(token, secret, now, lib) == CheckExpiry(claims, now)
  {
    SplitSigned(token, header, payload, secret, lib);
  }

  /** Token round trip: a token decodes, with the secret that signed it, to its own claims, unless
      they have expired or carry an `exp` that cannot be compared. */
  lemma DecodeEncodeJwt(claims: Claims, secret: string, now: real, lib: Library)
    requires lib.loads(lib.dumps(claims)) == Some(claims)
    ensures DecodeJwt(EncodeJwt(claims, secret, lib), secret, now, lib) == CheckExpiry(claims, now)
  {
    var h, p := Encode(lib.header), Encode(lib.dumps(claims));
    DecodeEncode(lib.header);
    DecodeEncode(lib.dumps(claims));
    DecodeCarried(EncodeJwt(claims, secret, lib), h, p, secret, now, lib, claims);
  }

  lemma JoinThree(parts: seq<string>)
    requires |parts| == 3
    ensures Join(parts) == parts[0] + "." + parts[1] + "." + parts[2]
  {
    assert Join(parts[1..]) == parts[1] + "." + Join(parts[1..][1..]);
    assert parts[1..][1..] == [parts[2]];
    assert parts[0] + "." + (parts[1] + "." + parts[2]) == parts[0] + "." + parts[1] + "." + parts[2];
  }

  /** Whatever text is offered, it decodes only if it ends in the signature, under the given
      secret, of everything before its last dot. */
  lemma OnlySignedTokensDecode(token: string, secret: string, now: real, lib: Library) returns (input: string)
    requires DecodeJwt(token, secret, now, lib).Ok?
    ensures token == input + "." + Encode(lib.hmac(secret, input))
  {
    var parts := Split(token);
    JoinSplit(token);
    input := parts[0] + "." + parts[1];
    JoinThree(parts);
  }

  /** The claims are in force: `exp` is missing, falsy, or a number not yet passed (true counts as 1). */
  predicate InForce(claims: Claims, now: real) {
    "exp" !in claims ||
    match claims["exp"]
    case Number(n) => n == 0.0 || now <= n
    case Bool(b) => !b || now <= 1.0
    case Text(s) => s == ""
    case Other(truthy) => !truthy
    case Null => true
  }

  lemma CheckExpiryMeaning(claims: Claims, now: real)
    ensures CheckExpiry(claims, now).Ok? <==> InForce(claims, now)
    ensures CheckExpiry(claims, now).Ok? ==> CheckExpiry(claims, now).value == claims
    ensures !InForce(claims, now) && claims["exp"].Number? ==> CheckExpiry(claims, now) == Err(Expired)
    ensures !InForce(claims, now) && claims["exp"].Text? ==> CheckExpiry(claims, now) == Err(NotComparable)
  {
  }

  /** What the expiry of a signed token means: without `exp`, or with 0, it never expires; with any
      other number it is accepted up to and including that second, and refused as expired later. */
  ghost predicate ExpiryHonoured(claims: Claims, now: real, r: Result<Claims, JwtError>) {
    && ("exp" !in claims ==> r == Ok(claims))
    && ("exp" in claims && claims["exp"].Number? && claims["exp"].n == 0.0 ==> r == Ok(claims))
    && ("exp" in claims && claims["exp"].Number? && claims["exp"].n != 0.0 ==>
          r == if now <= claims["exp"].n then Ok(claims) else Err(Expired))
    && ("exp" in claims && claims["exp"].Text? && claims["exp"].s != "" ==> r == Err(NotComparable))
  }

  lemma CheckHonoursExpiry(claims: Claims, now: real)
    ensures ExpiryHonoured(claims, now, CheckExpiry(claims, now))
  {
  }

  lemma SignedTokenExpires(claims: Claims, secret: string, now: real, lib: Library)
    requires lib.loads(lib.dumps(claims)) == Some(claims)
    ensures ExpiryHonoured(claims, now, DecodeJwt(EncodeJwt(claims, secret, lib), secret, now, lib))
  {
    CheckHonoursExpiry(claims, now);
    DecodeEncodeJwt(claims, secret, now, lib);
  }

  /** A login token, issued with an expiry of 24 hours, opens the door for exactly 24 hours. */
  lemma LoginTokenLastsADay(claims: Claims, issued: nat, secret: string, now: real, lib: Library)
    requires "exp" in claims && claims["exp"] == Number((issued + 24 * 3600) as real)
    requires lib.loads(lib.dumps(claims)) == Some(claims)
    ensures DecodeJwt(EncodeJwt(claims, secret, lib), secret, now, lib).Ok? <==> now - issued as real <= 86400.0
  {
    SignedTokenExpires(claims, secret, now, lib);
  }

  lemma {:induction false} SplitIsDotFree(s: string)
    ensures forall i :: 0 <= i < |Split(s)| ==> DotFree(Split(s)[i])
  {
    if s != "" { SplitIsDotFree(s[1..]); }
  }

  /** Exactly which texts are accepted, for which claims: those signed under the secret whose payload
      decodes to the claims, while these are in force. */
  lemma AcceptedIff(token: string, secret: string, now: real, lib: Library, claims: Claims)
    ensures DecodeJwt(token, secret, now, lib) == Ok(claims)
      <==> InForce(claims, now) && exists h, p :: Carries(token, h, p, secret, lib, claims)
  {
    var parts := Split(token);
    if |parts| == 3 && Decode(parts[1]).Some? && lib.loads(Decode(parts[1]).value).Some? {
      CheckExpiryMeaning(lib.loads(Decode(parts[1]).value).value, now);
    }
    if DecodeJwt(token, secret, now, lib) == Ok(claims) {
      JoinSplit(token);
      JoinThree(parts);
      SplitIsDotFree(token);
      assert Carries(token, parts[0], parts[1], secret, lib, claims);
    }
    if h, p :| Carries(token, h, p, secret, lib, claims) {
      DecodeCarried(token, h, p, secret, now, lib, claims);
      CheckExpiryMeaning(claims, now);
    }
  }

  /** No accepted token carries an expiry that has passed. */
  lemma AcceptedIsUnexpired(token: string, secret: string, now: real, lib: Library)
    requires DecodeJwt(token, secret, now, lib).Ok?
    ensures var claims := DecodeJwt(token, secret, now, lib).value;
      "exp" in claims && claims["exp"].Number? && claims["exp"].n != 0.0 ==> now <= claims["exp"].n
  {
    AcceptedIff(token, secret, now, lib, DecodeJwt(token, secret, now, lib).value);
  }
}
