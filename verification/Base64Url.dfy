/** The padded URL-safe alphabet of section 5 of RFC 4648, as Go's base64.URLEncoding uses it. */
module Base64Url {
  import opened Bytes

  const PAD: Byte := '='

  type Sextet = n: int | 0 <= n < 64

  function Digit(n: Sextet): (c: Byte)
    ensures Value(c) == Some(n) && c != PAD && !IsNewline(c)
  {
    if n < 26 then 'A' + n as char
    else if n < 52 then 'a' + (n - 26) as char
    else if n < 62 then '0' + (n - 52) as char
    else if n == 62 then '-' else '_'
  }

  function Value(c: Byte): Option<Sextet> {
    if 'A' <= c <= 'Z' then Some((c - 'A') as int)
    else if 'a' <= c <= 'z' then Some((c - 'a') as int + 26)
    else if '0' <= c <= '9' then Some((c - '0') as int + 52)
    else if c == '-' then Some(62)
    else if c == '_' then Some(63)
    else None
  }

  predicate IsNewline(c: Byte) {
    c == '\n' || c == '\r'
  }

  // The six-bit groups of up to three bytes; a missing byte counts as zero.
  function Bits0(c0: Byte): Sextet { c0 as int / 4 }
  function Bits1(c0: Byte, c1: Byte): Sextet { c0 as int % 4 * 16 + c1 as int / 16 }
  function Bits2(c1: Byte, c2: Byte): Sextet { c1 as int % 16 * 4 + c2 as int / 64 }
  function Bits3(c2: Byte): Sextet { c2 as int % 64 }

  /** Three bytes become four digits; a short final group is padded. */
  function Encode(b: Str): Str {
    if b == [] then []
    else if |b| == 1 then [Digit(Bits0(b[0])), Digit(Bits1(b[0], 0 as char)), PAD, PAD]
    else if |b| == 2 then
      [Digit(Bits0(b[0])), Digit(Bits1(b[0], b[1])), Digit(Bits2(b[1], 0 as char)), PAD]
    else
      [Digit(Bits0(b[0])), Digit(Bits1(b[0], b[1])), Digit(Bits2(b[1], b[2])), Digit(Bits3(b[2]))]
      + Encode(b[3..])
  }

  function First(v0: Sextet, v1: Sextet): Byte { (v0 * 4 + v1 / 16) as char }
  function Second(v1: Sextet, v2: Sextet): Byte { (v1 % 16 * 16 + v2 / 4) as char }
  function Third(v2: Sextet, v3: Sextet): Byte { (v2 % 4 * 64 + v3) as char }

  /** Go's decoder ignores line breaks wherever they stand. */
  function WithoutNewlines(s: Str): Str {
    if s == [] then []
    else (if IsNewline(s[0]) then [] else [s[0]]) + WithoutNewlines(s[1..])
  }

  /** Groups of four; padding ends the text, and the unused low bits of the last digit are ignored. */
  function DecodeGroups(s: Str): Option<Str> {
    if s == [] then Some([])
    else if |s| < 4 || Value(s[0]).None? || Value(s[1]).None? then None
    else
      var v0, v1 := Value(s[0]).value, Value(s[1]).value;
      if s[2] == PAD && s[3] == PAD then
        if |s| == 4 then Some([First(v0, v1)]) else None
      else if Value(s[2]).None? then None
      else
        var v2 := Value(s[2]).value;
        if s[3] == PAD then
          if |s| == 4 then Some([First(v0, v1), Second(v1, v2)]) else None
        else if Value(s[3]).None? then None
        else
          match DecodeGroups(s[4..])
          case None => None
          case Some(rest) =>
            Some([First(v0, v1), Second(v1, v2), Third(v2, Value(s[3]).value)] + rest)
  }

  function Decode(s: Str): Option<Str> {
    DecodeGroups(WithoutNewlines(s))
  }

  /** Test vectors of section 10 of RFC 4648, and the two characters in which the URL alphabet differs. */
  lemma Vectors()
    ensures Encode("f") == "Zg==" && Encode("fo") == "Zm8=" && Encode([251 as char, 255 as char]) == "-_8="
    ensures Encode("foo") == "Zm9v"
  {
    var three: Str := "foo";
    assert three[3..] == [];
  }

  lemma {:induction false} EncodeHasNoNewline(b: Str)
    ensures forall c | c in Encode(b) :: !IsNewline(c)
  {
    if |b| >= 3 {
      EncodeHasNoNewline(b[3..]);
    }
  }

  lemma {:induction false} WithoutNewlinesKeeps(s: Str)
    requires forall c | c in s :: !IsNewline(c)
    ensures WithoutNewlines(s) == s
  {
    if s != [] {
      WithoutNewlinesKeeps(s[1..]);
      assert s == [s[0]] + s[1..];
    }
  }

  /** The bits cut apart by encoding are put together again. */
  lemma BitsRoundTrip(c0: Byte, c1: Byte, c2: Byte)
    ensures First(Bits0(c0), Bits1(c0, c1)) == c0
    ensures Second(Bits1(c0, c1), Bits2(c1, c2)) == c1
    ensures Third(Bits2(c1, c2), Bits3(c2)) == c2
  {
  }

  /** Four digits decode to three bytes followed by the rest. */
  lemma FourDigits(v0: Sextet, v1: Sextet, v2: Sextet, v3: Sextet, text: Str, rest: Str)
    requires DecodeGroups(text) == Some(rest)
    ensures DecodeGroups([Digit(v0), Digit(v1), Digit(v2), Digit(v3)] + text)
         == Some([First(v0, v1), Second(v1, v2), Third(v2, v3)] + rest)
  {
    var s := [Digit(v0), Digit(v1), Digit(v2), Digit(v3)] + text;
    assert s[4..] == text;
  }

  /** A short final group: two or three digits and padding. */
  lemma PaddedDigits(v0: Sextet, v1: Sextet, v2: Sextet)
    ensures DecodeGroups([Digit(v0), Digit(v1), PAD, PAD]) == Some([First(v0, v1)])
    ensures DecodeGroups([Digit(v0), Digit(v1), Digit(v2), PAD]) == Some([First(v0, v1), Second(v1, v2)])
  {
  }

  lemma ShortGroup(c0: Byte, c1: Byte)
    ensures DecodeGroups(Encode([c0])) == Some([c0])
    ensures DecodeGroups(Encode([c0, c1])) == Some([c0, c1])
  {
    var zero: Byte := 0 as char;
    BitsRoundTrip(c0, zero, zero);
    BitsRoundTrip(c0, c1, zero);
    PaddedDigits(Bits0(c0), Bits1(c0, zero), 0);
    PaddedDigits(Bits0(c0), Bits1(c0, c1), Bits2(c1, zero));
  }

  lemma FullGroup(c0: Byte, c1: Byte, c2: Byte, rest: Str)
    requires DecodeGroups(Encode(rest)) == Some(rest)
    ensures DecodeGroups(Encode([c0, c1, c2] + rest)) == Some([c0, c1, c2] + rest)
  {
    var b := [c0, c1, c2] + rest;
    assert b[3..] == rest;
    BitsRoundTrip(c0, c1, c2);
    FourDigits(Bits0(c0), Bits1(c0, c1), Bits2(c1, c2), Bits3(c2), Encode(rest), rest);
  }

  lemma {:induction false} GroupsRoundTrip(b: Str)
    ensures DecodeGroups(Encode(b)) == Some(b)
  {
    if |b| == 1 {
      assert b == [b[0]];
      ShortGroup(b[0], b[0]);
    } else if |b| == 2 {
      assert b == [b[0], b[1]];
      ShortGroup(b[0], b[1]);
    } else if |b| > 2 {
      assert b == [b[0], b[1], b[2]] + b[3..];
      GroupsRoundTrip(b[3..]);
      FullGroup(b[0], b[1], b[2], b[3..]);
    }
  }

  lemma RoundTrip(b: Str)
    ensures Decode(Encode(b)) == Some(b)
    ensures Encode(b) == [] <==> b == []
  {
    EncodeHasNoNewline(b);
    WithoutNewlinesKeeps(Encode(b));
    GroupsRoundTrip(b);
  }
}
