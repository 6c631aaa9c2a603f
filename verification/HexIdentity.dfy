/** Entity ids as hexadecimal text (aitp-sdk/src/types.rs:301-304, aitp-sdk/src/client.rs:404-447).
    Texts are ASCII. */
module HexIdentity {
  import opened Common

  const ID_LEN := 32

  type EntityId = id: seq<u8> | |id| == ID_LEN witness seq(ID_LEN, _ => 0)

  /** A panic stands for the out-of-range slice of an odd-length short text. */
  datatype Parsed<+T> = Value(v: T) | Invalid | Panic

  function HexDigit(v: nat): char
    requires v < 16
  {
    if v < 10 then '0' + v as char else 'a' + (v - 10) as char
  }

  function DigitValue(c: char): Option<nat> {
    if '0' <= c <= '9' then Some(c as nat - '0' as nat)
    else if 'a' <= c <= 'f' then Some(c as nat - 'a' as nat + 10)
    else if 'A' <= c <= 'F' then Some(c as nat - 'A' as nat + 10)
    else None
  }

  function ToHex(id: seq<u8>): string {
    if id == [] then "" else [HexDigit(id[0] / 16), HexDigit(id[0] % 16)] + ToHex(id[1..])
  }

  function EntityIdHex(id: EntityId): string { ToHex(id) }

  /** `u8::from_str_radix(pair, 16)`: two digits, or a plus sign and one digit. */
  function PairValue(a: char, b: char): Option<u8> {
    if DigitValue(b).None? then None
    else if a == '+' then Some(DigitValue(b).value)
    else if DigitValue(a).None? then None
    else Some(DigitValue(a).value * 16 + DigitValue(b).value)
  }

  predicate IsSpace(c: char) { c == ' ' || '\t' <= c <= '\r' }

  function TrimStart(s: string): string { if s != "" && IsSpace(s[0]) then TrimStart(s[1..]) else s }

  function TrimEnd(s: string): string { if s != "" && IsSpace(s[|s| - 1]) then TrimEnd(s[..|s| - 1]) else s }

  /** The bytes of the well-formed pairs, skipping the others. */
  function LenientPairs(s: string): seq<u8>
    requires |s| % 2 == 0
  {
    if s == "" then []
    else (if PairValue(s[0], s[1]).Some? then [PairValue(s[0], s[1]).value] else []) + LenientPairs(s[2..])
  }

  /** The bytes of all pairs, when every one of them is well formed. */
  function StrictPairs(s: string): Option<seq<u8>>
    requires |s| % 2 == 0
  {
    if s == "" then Some([])
    else if PairValue(s[0], s[1]).None? || StrictPairs(s[2..]).None? then None
    else Some([PairValue(s[0], s[1]).value] + StrictPairs(s[2..]).value)
  }

  function ZeroPadded(bytes: seq<u8>): EntityId {
    if |bytes| >= ID_LEN then bytes[..ID_LEN] else bytes + seq(ID_LEN - |bytes|, _ => 0)
  }

  lemma {:induction false} StrictLength(s: string)
    requires |s| % 2 == 0
    ensures StrictPairs(s).Some? ==> |StrictPairs(s).value| == |s| / 2
  {
    if s != "" { StrictLength(s[2..]); }
  }

  function HexToEntityId(hex: string): Parsed<EntityId> {
    var clean := TrimEnd(TrimStart(hex));
    if |clean| != 2 * ID_LEN then
      if |clean| % 2 != 0 then Panic else Value(ZeroPadded(LenientPairs(clean)))
    else
      StrictLength(clean);
      if StrictPairs(clean).Some? then Value(StrictPairs(clean).value) else Invalid
  }

  /** The parser's loop over the 32 pairs of a full-length text, filling an array in place. */
  method ParseFull(clean: string) returns (r: Option<array<u8>>)
    requires |clean| == 2 * ID_LEN
    ensures r.Some? <==> StrictPairs(clean).Some?
    ensures r.Some? ==> fresh(r.value) && r.value[..] == StrictPairs(clean).value
  {
    var id := new u8[ID_LEN](_ => 0);
    for i := 0 to ID_LEN
      invariant StrictPairs(clean[..2 * i]) == Some(id[..i])
    {
      var pair := clean[2 * i..2 * i + 2];
      StrictSplit(clean[..2 * i], clean[2 * i..]);
      assert clean[..2 * i] + clean[2 * i..] == clean;
      assert StrictPairs(clean[2 * i..]).None? || PairValue(pair[0], pair[1]).Some?;
      var v := PairValue(pair[0], pair[1]);
      if v.None? {
        return None;
      }
      ghost var done := id[..i];
      id[i] := v.value;
      StrictSplit(clean[..2 * i], pair);
      assert clean[..2 * i] + pair == clean[..2 * (i + 1)];
      assert pair[2..] == "" && [v.value] + [] == [v.value];
      assert StrictPairs(pair) == Some([v.value]);
      assert id[..i + 1] == done + [v.value];
    }
    assert clean[..2 * ID_LEN] == clean && id[..ID_LEN] == id[..];
    return Some(id);
  }

  /** The parser: trim, then the lenient short form or the strict full form. */
  method Parse(hex: string) returns (r: Parsed<EntityId>)
    ensures r == HexToEntityId(hex)
  {
    var clean := TrimEnd(TrimStart(hex));
    if |clean| != 2 * ID_LEN {
      if |clean| % 2 != 0 {
        return Panic;
      }
      var bytes := LenientPairs(clean);
      var id := new u8[ID_LEN](_ => 0);
      var len := Min(|bytes|, ID_LEN);
      for i := 0 to len
        invariant id[..i] == bytes[..i] && forall j :: i <= j < ID_LEN ==> id[j] == 0
      {
        id[i] := bytes[i];
      }
      assert id[..] == ZeroPadded(bytes);
      return Value(id[..]);
    }
    var full := ParseFull(clean);
    StrictLength(clean);
    return if full.Some? then Value(full.value[..]) else Invalid;
  }

  lemma {:induction false} StrictSplit(a: string, b: string)
    requires |a| % 2 == 0 && |b| % 2 == 0
    ensures StrictPairs(a + b) == if StrictPairs(a).Some? && StrictPairs(b).Some?
      then Some(StrictPairs(a).value + StrictPairs(b).value) else None
  {
    if a == "" {
      assert a + b == b;
      if StrictPairs(b).Some? { assert [] + StrictPairs(b).value == StrictPairs(b).value; }
    } else {
      assert (a + b)[2..] == a[2..] + b;
      StrictSplit(a[2..], b);
      if StrictPairs(a).Some? && StrictPairs(b).Some? {
        var v := PairValue(a[0], a[1]).value;
        assert [v] + (StrictPairs(a[2..]).value + StrictPairs(b).value)
             == ([v] + StrictPairs(a[2..]).value) + StrictPairs(b).value;
      }
    }
  }

  lemma DigitRoundTrip(v: nat)
    requires v < 16
    ensures DigitValue(HexDigit(v)) == Some(v) && HexDigit(v) != '+' && HexDigit(v) != '@' && !IsSpace(HexDigit(v))
  {
  }

  predicate HexDigits(s: string) { forall i :: 0 <= i < |s| ==> s[i] != '@' && !IsSpace(s[i]) }

  lemma ByteRoundTrip(b: u8)
    ensures PairValue(HexDigit(b / 16), HexDigit(b % 16)) == Some(b)
    ensures HexDigits([HexDigit(b / 16), HexDigit(b % 16)])
  {
    DigitRoundTrip(b / 16);
    DigitRoundTrip(b % 16);
  }

  lemma {:induction false} ToHexReadsBack(id: seq<u8>)
    ensures |ToHex(id)| == 2 * |id| && HexDigits(ToHex(id))
    ensures StrictPairs(ToHex(id)) == Some(id)
  {
    if id != [] {
      var hex := ToHex(id);
      ToHexReadsBack(id[1..]);
      ByteRoundTrip(id[0]);
      assert hex[2..] == ToHex(id[1..]);
      assert id == [id[0]] + id[1..];
    }
  }

  lemma {:induction false} NothingToTrim(s: string)
    requires HexDigits(s)
    ensures TrimEnd(TrimStart(s)) == s
  {
  }

  lemma {:induction false} LenientReadsStrict(s: string)
    requires |s| % 2 == 0 && StrictPairs(s).Some?
    ensures LenientPairs(s) == StrictPairs(s).value
  {
    if s != "" { LenientReadsStrict(s[2..]); }
  }

  lemma WellFormedParses(s: string, bytes: seq<u8>)
    requires HexDigits(s) && |s| == 2 * |bytes| && StrictPairs(s) == Some(bytes)
    ensures HexToEntityId(s) == Value(ZeroPadded(bytes))
  {
    NothingToTrim(s);
    LenientReadsStrict(s);
    StrictLength(s);
    if |bytes| == ID_LEN { assert bytes[..ID_LEN] == bytes; }
  }

  /** Bytes of any number printed and read back: cut to 32, or padded with zeros up to 32. */
  lemma PrintedBytesReadBack(bytes: seq<u8>)
    ensures HexToEntityId(ToHex(bytes)) == Value(ZeroPadded(bytes))
  {
    ToHexReadsBack(bytes);
    WellFormedParses(ToHex(bytes), bytes);
  }

  /** Round trip: every 32-byte id is read back from its printed form. */
  lemma IdRoundTrip(id: EntityId)
    ensures HexToEntityId(EntityIdHex(id)) == Value(id)
  {
    PrintedBytesReadBack(id);
    assert id[..ID_LEN] == id;
  }

  // ---- What is printed, read and skipped ----

  /** Two printed digits, the more significant first, from the usual alphabet. */
  lemma KnownHex()
    ensures ToHex([0x01, 0x23, 0x45]) == "012345" && ToHex([0x67, 0x89]) == "6789"
    ensures ToHex([0xAB, 0xCD, 0xEF]) == "abcdef"
  {
    assert [0x01, 0x23, 0x45][1..] == [0x23, 0x45] && [0x23, 0x45][1..] == [0x45] && [0x67, 0x89][1..] == [0x89];
    assert [0xAB, 0xCD, 0xEF][1..] == [0xCD, 0xEF] && [0xCD, 0xEF][1..] == [0xEF];
    assert ToHex([0x45]) == "45" && ToHex([0x23, 0x45]) == "2345" && ToHex([0x89]) == "89";
    assert ToHex([0xEF]) == "ef" && ToHex([0xCD, 0xEF]) == "cdef";
  }

  /** A full-length text is accepted if and only if each of its pairs is. */
  lemma {:induction false} StrictIff(s: string)
    requires |s| % 2 == 0
    ensures StrictPairs(s).Some? <==> forall i :: 0 <= i < |s| / 2 ==> PairValue(s[2 * i], s[2 * i + 1]).Some?
    ensures StrictPairs(s).Some? ==> |StrictPairs(s).value| == |s| / 2
    ensures StrictPairs(s).Some? ==>
      forall i :: 0 <= i < |s| / 2 ==> PairValue(s[2 * i], s[2 * i + 1]) == Some(StrictPairs(s).value[i])
  {
    if s != "" {
      var rest := s[2..];
      StrictIff(rest);
      assert forall i :: 0 <= i < |rest| / 2 ==> rest[2 * i] == s[2 * (i + 1)] && rest[2 * i + 1] == s[2 * (i + 1) + 1];
      forall i | 0 <= i < |s| / 2 && StrictPairs(rest).Some? && PairValue(s[0], s[1]).Some?
        ensures PairValue(s[2 * i], s[2 * i + 1]) == Some(StrictPairs(s).value[i])
      {
        if i > 0 { assert rest[2 * (i - 1)] == s[2 * i]; }
      }
      if forall i :: 0 <= i < |s| / 2 ==> PairValue(s[2 * i], s[2 * i + 1]).Some? {
        assert PairValue(s[2 * 0], s[2 * 0 + 1]).Some?;
        forall i | 0 <= i < |rest| / 2 ensures PairValue(rest[2 * i], rest[2 * i + 1]).Some? {
          assert PairValue(s[2 * (i + 1)], s[2 * (i + 1) + 1]).Some?;
        }
      }
    }
  }

  /** In a shorter text a pair contributes its byte if it is well formed, and nothing otherwise,
      wherever it stands. */
  lemma {:induction false} LenientAt(before: string, a: char, b: char, after: string)
    requires |before| % 2 == 0 && |after| % 2 == 0
    ensures LenientPairs(before + [a, b] + after)
         == LenientPairs(before) + (if PairValue(a, b).Some? then [PairValue(a, b).value] else []) + LenientPairs(after)
  {
    var all := before + [a, b] + after;
    var own := if PairValue(a, b).Some? then [PairValue(a, b).value] else [];
    if before == "" {
      assert all[0] == a && all[1] == b && all[2..] == after;
      assert [] + own == own;
    } else {
      assert all[0] == before[0] && all[1] == before[1] && all[2..] == before[2..] + [a, b] + after;
      LenientAt(before[2..], a, b, after);
      var first := if PairValue(before[0], before[1]).Some? then [PairValue(before[0], before[1]).value] else [];
      assert first + (LenientPairs(before[2..]) + own + LenientPairs(after))
          == first + LenientPairs(before[2..]) + own + LenientPairs(after);
    }
  }

  predicate AllSpace(s: string) { forall i :: 0 <= i < |s| ==> IsSpace(s[i]) }

  lemma {:induction false} TrimStartSkips(space: string, s: string)
    requires AllSpace(space) && (s != "" ==> !IsSpace(s[0]))
    ensures TrimStart(space + s) == s
  {
    if space == "" {
      assert space + s == s;
    } else {
      assert (space + s)[1..] == space[1..] + s;
      TrimStartSkips(space[1..], s);
    }
  }

  lemma {:induction false} TrimEndSkips(s: string, space: string)
    requires AllSpace(space) && (s != "" ==> !IsSpace(s[|s| - 1]))
    ensures TrimEnd(s + space) == s
  {
    if space == "" {
      assert s + space == s;
    } else {
      assert (s + space)[..|s| + |space| - 1] == s + space[..|space| - 1];
      TrimEndSkips(s, space[..|space| - 1]);
    }
  }

  /** Whitespace around an id is ignored: every id is read back from its printed form inside any. */
  lemma PaddedIdRoundTrip(id: EntityId, before: string, after: string)
    requires AllSpace(before) && AllSpace(after)
    ensures HexToEntityId(before + EntityIdHex(id) + after) == Value(id)
  {
    var hex := EntityIdHex(id);
    ToHexReadsBack(id);
    assert before + hex + after == before + (hex + after);
    assert !IsSpace((hex + after)[0]) by { assert (hex + after)[0] == hex[0]; }
    TrimStartSkips(before, hex + after);
    TrimEndSkips(hex, after);
    IdRoundTrip(id);
    NothingToTrim(hex);
  }

  // ---- Targets ----

  /** Rust's `split_once('@')`. */
  function SplitOnce(s: string): Option<(string, string)> {
    if s == "" then None
    else if s[0] == '@' then Some(("", s[1..]))
    else var rest := SplitOnce(s[1..]); if rest.None? then None else Some(([s[0]] + rest.value.0, rest.value.1))
  }

  datatype Target<A> = Target(id: EntityId, addr: A)

  /** The address is parsed before the id, by the library's parser. */
  function ParseTarget<A>(target: string, parseAddr: string -> Option<A>): Parsed<Target<A>> {
    var split := SplitOnce(target);
    if split.Some? then
      var addr := parseAddr(split.value.1);
      if addr.None? then Invalid
      else match HexToEntityId(split.value.0)
        case Value(id) => Value(Target(id, addr.value))
        case Invalid => Invalid
        case Panic => Panic
    else
      var addr := parseAddr(target);
      if addr.None? then Invalid else Value(Target(seq(ID_LEN, _ => 0), addr.value))
  }

  lemma {:induction false} SplitAtFirst(a: string, b: string)
    requires forall i :: 0 <= i < |a| ==> a[i] != '@'
    ensures SplitOnce(a + "@" + b) == Some((a, b))
  {
    if a == "" {
      assert (a + "@" + b)[1..] == b;
    } else {
      assert (a + "@" + b)[1..] == a[1..] + "@" + b;
      SplitAtFirst(a[1..], b);
      assert [a[0]] + a[1..] == a;
    }
  }

  /** A target printed as id, '@' and a valid address parses to that id and address. */
  lemma TargetRoundTrip<A>(id: EntityId, addrText: string, parseAddr: string -> Option<A>)
    requires parseAddr(addrText).Some?
    ensures ParseTarget(EntityIdHex(id) + "@" + addrText, parseAddr) == Value(Target(id, parseAddr(addrText).value))
  {
    ToHexReadsBack(id);
    SplitAtFirst(ToHex(id), addrText);
    IdRoundTrip(id);
  }

  /** Without an '@' the whole text is the address, and the id is all zeros; an address that does not
      parse refuses the target whatever the id. */
  lemma TargetAddressFirst<A>(idText: string, addrText: string, parseAddr: string -> Option<A>)
    requires forall i :: 0 <= i < |idText| ==> idText[i] != '@'
    ensures ParseTarget(idText, parseAddr)
         == if parseAddr(idText).Some? then Value(Target(seq(ID_LEN, _ => 0), parseAddr(idText).value)) else Invalid
    ensures parseAddr(addrText).None? ==> ParseTarget(idText + "@" + addrText, parseAddr) == Invalid
  {
    SplitNone(idText);
    SplitAtFirst(idText, addrText);
  }

  lemma {:induction false} SplitNone(s: string)
    requires forall i :: 0 <= i < |s| ==> s[i] != '@'
    ensures SplitOnce(s).None?
  {
    if s != "" { SplitNone(s[1..]); }
  }

  // ---- Which texts a full-length parse accepts ----

  function LowerDigit(c: char): char { if 'A' <= c <= 'F' then 'a' + (c as nat - 'A' as nat) as char else c }

  /** The canonical form of a pair: lower case, and a plus sign read as a zero. */
  function Canonical(s: string): string
    requires |s| % 2 == 0
  {
    if s == "" then "" else [if s[0] == '+' then '0' else LowerDigit(s[0]), LowerDigit(s[1])] + Canonical(s[2..])
  }

  lemma DigitPrinted(c: char)
    requires DigitValue(c).Some?
    ensures DigitValue(c).value < 16 && HexDigit(DigitValue(c).value) == LowerDigit(c)
  {
  }

  lemma PairPrinted(a: char, b: char)
    requires PairValue(a, b).Some?
    ensures var v := PairValue(a, b).value;
      HexDigit(v / 16) == (if a == '+' then '0' else LowerDigit(a)) && HexDigit(v % 16) == LowerDigit(b)
  {
    DigitPrinted(b);
    if a != '+' { DigitPrinted(a); }
  }

  /** Printing what was parsed gives the text back up to case, except that a plus sign is accepted
      as the first character of a pair and comes back as a zero. */
  lemma {:induction false} PrintParsed(s: string)
    requires |s| % 2 == 0 && StrictPairs(s).Some?
    ensures ToHex(StrictPairs(s).value) == Canonical(s)
  {
    if s != "" {
      PrintParsed(s[2..]);
      var v := PairValue(s[0], s[1]).value;
      var rest := StrictPairs(s[2..]).value;
      assert ([v] + rest)[1..] == rest;
      PairPrinted(s[0], s[1]);
    }
  }
}
