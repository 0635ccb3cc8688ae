/**
 `atob` as the content viewer uses it: the forgiving-base64 decode of the
 WHATWG Infra standard (section 4.5 "Forgiving-base64 decode"), whose output
 `atob` returns as a binary string, one character per decoded byte. Its
 partner is the standard padded encoder of RFC 4648 section 4; the two are
 proved to round-trip.
 */
module Base64 {
  import opened Wrappers

  type Byte = x: int | 0 <= x < 256

  predicate IsAlphabet(c: char)
  {
    ('A' <= c <= 'Z') || ('a' <= c <= 'z') || ('0' <= c <= '9') || c == '+' || c == '/'
  }

  /** The RFC 4648 alphabet, value to character. */
  function CharOf(v: int): (c: char)
    requires 0 <= v < 64
    ensures IsAlphabet(c)
  {
    if v < 26 then ('A' as int + v) as char
    else if v < 52 then ('a' as int + (v - 26)) as char
    else if v < 62 then ('0' as int + (v - 52)) as char
    else if v == 62 then '+'
    else '/'
  }

  /** The RFC 4648 alphabet, character to value; inverse of `CharOf`. */
  function ValueOf(c: char): (v: int)
    requires IsAlphabet(c)
    ensures 0 <= v < 64
    ensures CharOf(v) == c
  {
    if 'A' <= c <= 'Z' then c as int - 'A' as int
    else if 'a' <= c <= 'z' then c as int - 'a' as int + 26
    else if '0' <= c <= '9' then c as int - '0' as int + 52
    else if c == '+' then 62
    else 63
  }

  lemma ValueOfCharOf(v: int)
    requires 0 <= v < 64
    ensures ValueOf(CharOf(v)) == v
  {
  }

  /** ASCII whitespace in the Infra standard's sense: TAB, LF, FF, CR, SPACE. */
  predicate IsAsciiSpace(c: char)
  {
    c == '\t' || c == '\n' || c == '\U{000C}' || c == '\r' || c == ' '
  }

  function RemoveSpace(s: string): (r: string)
    ensures forall i :: 0 <= i < |r| ==> !IsAsciiSpace(r[i])
    ensures |r| <= |s|
  {
    if |s| == 0 then ""
    else (if IsAsciiSpace(s[0]) then "" else [s[0]]) + RemoveSpace(s[1..])
  }

  /** Drops one or two trailing `=` (applied only when the length is a
      multiple of four). */
  function StripPadding(s: string): string
  {
    if |s| >= 2 && s[|s| - 1] == '=' && s[|s| - 2] == '=' then s[..|s| - 2]
    else if |s| >= 1 && s[|s| - 1] == '=' then s[..|s| - 1]
    else s
  }

  // Bytes from a group of sextets: four sextets give three bytes, a
  // trailing three give two, a trailing two give one (surplus bits dropped).
  function Byte0(v0: int, v1: int): Byte
    requires 0 <= v0 < 64 && 0 <= v1 < 64
  {
    v0 * 4 + v1 / 16
  }

  function Byte1(v1: int, v2: int): Byte
    requires 0 <= v1 < 64 && 0 <= v2 < 64
  {
    (v1 % 16) * 16 + v2 / 4
  }

  function Byte2(v2: int, v3: int): Byte
    requires 0 <= v2 < 64 && 0 <= v3 < 64
  {
    (v2 % 4) * 64 + v3
  }

  predicate AllAlphabet(s: string)
  {
    forall i :: 0 <= i < |s| ==> IsAlphabet(s[i])
  }

  function DecodeSextets(s: string): (r: seq<Byte>)
    requires AllAlphabet(s) && |s| % 4 != 1
    ensures |r| == (|s| / 4) * 3 + (if |s| % 4 == 0 then 0 else |s| % 4 - 1)
  {
    if |s| == 0 then []
    else if |s| == 2 then [Byte0(ValueOf(s[0]), ValueOf(s[1]))]
    else if |s| == 3 then
      [Byte0(ValueOf(s[0]), ValueOf(s[1])), Byte1(ValueOf(s[1]), ValueOf(s[2]))]
    else
      [Byte0(ValueOf(s[0]), ValueOf(s[1])), Byte1(ValueOf(s[1]), ValueOf(s[2])),
       Byte2(ValueOf(s[2]), ValueOf(s[3]))] + DecodeSextets(s[4..])
  }

  /** A binary string: character code i for byte i. */
  function BinaryString(b: seq<Byte>): (r: string)
    ensures |r| == |b|
    ensures forall i :: 0 <= i < |b| ==> r[i] as int == b[i]
  {
    seq(|b|, i requires 0 <= i < |b| => b[i] as char)
  }

  /** Steps 2 to 8 of forgiving-base64 decode, on text already stripped of
      ASCII whitespace: `None` is the standard's "failure". */
  function DecodeStripped(d0: string): (r: Option<seq<Byte>>)
    ensures r.Some? ==> |d0| % 4 != 1
  {
    var d := if |d0| % 4 == 0 then StripPadding(d0) else d0;
    if |d| % 4 == 1 then None
    else if !AllAlphabet(d) then None
    else Some(DecodeSextets(d))
  }

  /** Forgiving-base64 decode: whitespace is dropped first. */
  function ForgivingDecode(data: string): Option<seq<Byte>>
  {
    DecodeStripped(RemoveSpace(data))
  }

  /** `atob`: the decoded bytes as a binary string; `None` where `atob` throws
      (an `InvalidCharacterError`). */
  function Atob(data: string): (r: Option<string>)
    ensures r.Some? ==> forall i :: 0 <= i < |r.value| ==> r.value[i] as int < 256
    ensures r.Some? <==> ForgivingDecode(data).Some?
  {
    match ForgivingDecode(data)
    case None => None
    case Some(bytes) => Some(BinaryString(bytes))
  }

  // ----- encoding -----------------------------------------------------------

  lemma AlphabetAppend(a: string, b: string)
    requires AllAlphabet(a) && AllAlphabet(b)
    ensures AllAlphabet(a + b)
  {
    forall i | 0 <= i < |a + b| ensures IsAlphabet((a + b)[i]) {
      if i < |a| { assert (a + b)[i] == a[i]; } else { assert (a + b)[i] == b[i - |a|]; }
    }
  }

  lemma ModThreeShift(n: int)
    ensures (n + 3) % 3 == n % 3
  {
  }

  // One group of the RFC 4648 encoding: three bytes give four characters,
  // a trailing two give three, a trailing one gives two.
  function Group1(b0: Byte): (g: string)
    ensures |g| == 2 && AllAlphabet(g)
  {
    var g := [CharOf(b0 / 4), CharOf((b0 % 4) * 16)];
    assert AllAlphabet(g) by {
      assert IsAlphabet(g[0]) && IsAlphabet(g[1]);
    }
    g
  }

  function Group2(b0: Byte, b1: Byte): (g: string)
    ensures |g| == 3 && AllAlphabet(g)
  {
    var g := [CharOf(b0 / 4), CharOf((b0 % 4) * 16 + b1 / 16), CharOf((b1 % 16) * 4)];
    assert AllAlphabet(g) by {
      assert IsAlphabet(g[0]) && IsAlphabet(g[1]) && IsAlphabet(g[2]);
    }
    g
  }

  function Group3(b0: Byte, b1: Byte, b2: Byte): (g: string)
    ensures |g| == 4 && AllAlphabet(g)
  {
    var g := [CharOf(b0 / 4), CharOf((b0 % 4) * 16 + b1 / 16),
              CharOf((b1 % 16) * 4 + b2 / 64), CharOf(b2 % 64)];
    assert AllAlphabet(g) by {
      assert IsAlphabet(g[0]) && IsAlphabet(g[1]) && IsAlphabet(g[2]) && IsAlphabet(g[3]);
    }
    g
  }

  /** RFC 4648 encoding without the trailing padding. */
  function EncodeUnpadded(b: seq<Byte>): (s: string)
    ensures AllAlphabet(s)
    ensures |s| % 4 == (if |b| % 3 == 0 then 0 else |b| % 3 + 1)
    ensures |b| > 0 ==> |s| > 0
  {
    if |b| == 0 then ""
    else if |b| == 1 then Group1(b[0])
    else if |b| == 2 then Group2(b[0], b[1])
    else
      var rest := EncodeUnpadded(b[3..]);
      AlphabetAppend(Group3(b[0], b[1], b[2]), rest);
      ModThreeShift(|b| - 3);
      ModFourShift(|rest|);
      Group3(b[0], b[1], b[2]) + rest
  }

  function Padding(n: nat): string
  {
    if n % 3 == 1 then "==" else if n % 3 == 2 then "=" else ""
  }

  /** RFC 4648 section 4 encoding, padded to a multiple of four characters. */
  function Encode(b: seq<Byte>): (s: string)
    ensures |s| % 4 == 0
  {
    EncodeUnpadded(b) + Padding(|b|)
  }

  // ----- round trip ---------------------------------------------------------

  lemma ThreeBytes(b0: Byte, b1: Byte, b2: Byte)
    ensures Byte0(b0 / 4, (b0 % 4) * 16 + b1 / 16) == b0
    ensures Byte1((b0 % 4) * 16 + b1 / 16, (b1 % 16) * 4 + b2 / 64) == b1
    ensures Byte2((b1 % 16) * 4 + b2 / 64, b2 % 64) == b2
  {
  }

  lemma DecodeGroup1(b0: Byte)
    ensures DecodeSextets(Group1(b0)) == [b0]
  {
    var g := Group1(b0);
    ValueOfCharOf(b0 / 4);
    ValueOfCharOf((b0 % 4) * 16);
    assert ValueOf(g[0]) == b0 / 4 && ValueOf(g[1]) == (b0 % 4) * 16;
  }

  lemma DecodeGroup2(b0: Byte, b1: Byte)
    ensures DecodeSextets(Group2(b0, b1)) == [b0, b1]
  {
    var g := Group2(b0, b1);
    ValueOfCharOf(b0 / 4);
    ValueOfCharOf((b0 % 4) * 16 + b1 / 16);
    ValueOfCharOf((b1 % 16) * 4);
    assert ValueOf(g[0]) == b0 / 4;
    assert ValueOf(g[1]) == (b0 % 4) * 16 + b1 / 16;
    assert ValueOf(g[2]) == (b1 % 16) * 4;
  }

  lemma UnfoldDecode(s: string)
    requires AllAlphabet(s) && |s| % 4 != 1 && |s| >= 4
    ensures DecodeSextets(s) == [Byte0(ValueOf(s[0]), ValueOf(s[1])), Byte1(ValueOf(s[1]), ValueOf(s[2])),
                                 Byte2(ValueOf(s[2]), ValueOf(s[3]))] + DecodeSextets(s[4..])
  {
  }

  lemma Group3Values(b0: Byte, b1: Byte, b2: Byte)
    ensures var g := Group3(b0, b1, b2);
      && Byte0(ValueOf(g[0]), ValueOf(g[1])) == b0
      && Byte1(ValueOf(g[1]), ValueOf(g[2])) == b1
      && Byte2(ValueOf(g[2]), ValueOf(g[3])) == b2
  {
    ValueOfCharOf(b0 / 4);
    ValueOfCharOf((b0 % 4) * 16 + b1 / 16);
    ValueOfCharOf((b1 % 16) * 4 + b2 / 64);
    ValueOfCharOf(b2 % 64);
    ThreeBytes(b0, b1, b2);
  }

  lemma ModFourShift(n: int)
    ensures (n + 4) % 4 == n % 4
  {
  }

  lemma DecodeGroup3(b0: Byte, b1: Byte, b2: Byte, rest: string)
    requires AllAlphabet(rest) && |rest| % 4 != 1
    ensures DecodeSextets(Group3(b0, b1, b2) + rest) == [b0, b1, b2] + DecodeSextets(rest)
  {
    var g := Group3(b0, b1, b2);
    var s := g + rest;
    AlphabetAppend(g, rest);
    assert |s| == |rest| + 4;
    ModFourShift(|rest|);
    UnfoldDecode(s);
    assert s[4..] == rest;
    assert s[0] == g[0] && s[1] == g[1] && s[2] == g[2] && s[3] == g[3];
    Group3Values(b0, b1, b2);
  }

  lemma DecodeEncodeShort(b: seq<Byte>)
    requires 1 <= |b| <= 2
    ensures DecodeSextets(EncodeUnpadded(b)) == b
  {
    if |b| == 1 {
      assert EncodeUnpadded(b) == Group1(b[0]);
      DecodeGroup1(b[0]);
      SplitShort(b);
    } else {
      assert EncodeUnpadded(b) == Group2(b[0], b[1]);
      DecodeGroup2(b[0], b[1]);
      SplitShort(b);
    }
  }

  lemma SplitShort<T>(b: seq<T>)
    requires 1 <= |b| <= 2
    ensures |b| == 1 ==> b == [b[0]]
    ensures |b| == 2 ==> b == [b[0], b[1]]
  {
  }

  /** One group of three bytes decodes back, given that the rest does. */
  lemma DecodeEncodeStep(b: seq<Byte>)
    requires |b| >= 3
    requires DecodeSextets(EncodeUnpadded(b[3..])) == b[3..]
    ensures DecodeSextets(EncodeUnpadded(b)) == b
  {
    var rest := EncodeUnpadded(b[3..]);
    var g := Group3(b[0], b[1], b[2]);
    assert EncodeUnpadded(b) == g + rest;
    DecodeGroup3(b[0], b[1], b[2], rest);
    SplitThree(b);
  }

  lemma SplitThree<T>(b: seq<T>)
    requires |b| >= 3
    ensures b == [b[0], b[1], b[2]] + b[3..]
  {
  }

  /** Decoding the unpadded encoding gives the bytes back. */
  lemma {:induction false} DecodeEncodeUnpadded(b: seq<Byte>)
    ensures DecodeSextets(EncodeUnpadded(b)) == b
    decreases |b|
  {
    if 1 <= |b| <= 2 {
      DecodeEncodeShort(b);
    } else if |b| >= 3 {
      DecodeEncodeUnpadded(b[3..]);
      DecodeEncodeStep(b);
    }
  }

  lemma {:induction false} NoSpaceUnchanged(s: string)
    requires forall i :: 0 <= i < |s| ==> !IsAsciiSpace(s[i])
    ensures RemoveSpace(s) == s
    decreases |s|
  {
    if |s| > 0 {
      NoSpaceUnchanged(s[1..]);
      assert s == [s[0]] + s[1..];
    }
  }

  /** Padding comes off exactly: the encoded text minus its `=` run is the
      unpadded encoding. */
  lemma StripPaddingOfEncode(b: seq<Byte>)
    ensures StripPadding(Encode(b)) == EncodeUnpadded(b)
  {
    var u := EncodeUnpadded(b);
    var e := Encode(b);
    if |b| % 3 == 2 {
      assert e == u + "=";
      assert e[|e| - 2] == u[|u| - 1];
      assert e[..|e| - 1] == u;
    } else if |b| % 3 == 1 {
      assert e[..|e| - 2] == u;
    } else if |u| > 0 {
      assert e == u;
      assert e[|e| - 1] == u[|u| - 1];
    }
  }

  /** `atob` inverts the standard encoder: the encoding of any byte string
      decodes to that byte string, as a binary string. */
  lemma AtobEncode(b: seq<Byte>)
    ensures Atob(Encode(b)) == Some(BinaryString(b))
  {
    var e := Encode(b);
    forall i | 0 <= i < |e| ensures !IsAsciiSpace(e[i]) {
      if i < |EncodeUnpadded(b)| {
        assert e[i] == EncodeUnpadded(b)[i];
      }
    }
    NoSpaceUnchanged(e);
    StripPaddingOfEncode(b);
    DecodeEncodeUnpadded(b);
  }

  lemma {:induction false} RemoveSpaceAppend(a: string, b: string)
    ensures RemoveSpace(a + b) == RemoveSpace(a) + RemoveSpace(b)
    decreases |a|
  {
    if |a| > 0 {
      assert (a + b)[1..] == a[1..] + b;
      RemoveSpaceAppend(a[1..], b);
    } else {
      assert a + b == b;
    }
  }

  /** `atob` sees its input only through the whitespace-free text. */
  lemma AtobSeesNoSpace(x: string, y: string)
    requires RemoveSpace(x) == RemoveSpace(y)
    ensures Atob(x) == Atob(y)
  {
    assert ForgivingDecode(x) == ForgivingDecode(y);
  }

  /** Line breaks inside the payload do not change what `atob` yields (the
      repository API wraps base64 content across lines). */
  lemma AtobIgnoresLineBreak(a: string, b: string)
    ensures Atob(a + "\n" + b) == Atob(a + b)
  {
    RemoveSpaceAppend(a + "\n", b);
    RemoveSpaceAppend(a, "\n");
    RemoveSpaceAppend(a, b);
    assert RemoveSpace("\n") == "";
    AtobSeesNoSpace(a + "\n" + b, a + b);
  }

  /** The worked example: "aGVsbG8=" decodes to "hello". */
  lemma AtobHello()
    ensures Atob("aGVsbG8=") == Some("hello")
  {
    var bytes: seq<Byte> := [104, 101, 108, 108, 111];
    EncodeHello();
    AtobEncode(bytes);
    BinaryHello();
  }

  lemma EncodeHello()
    ensures Encode([104, 101, 108, 108, 111]) == "aGVsbG8="
  {
    var bytes: seq<Byte> := [104, 101, 108, 108, 111];
    HelloGroup3();
    HelloGroup2();
    assert bytes[3..] == [108, 111];
    assert EncodeUnpadded(bytes[3..]) == "bG8";
    assert EncodeUnpadded(bytes) == "aGVsbG8";
  }

  lemma HelloGroup3()
    ensures Group3(104, 101, 108) == "aGVs"
  {
    assert 104 / 4 == 26 && (104 % 4) * 16 + 101 / 16 == 6;
    assert (101 % 16) * 4 + 108 / 64 == 21 && 108 % 64 == 44;
    assert CharOf(26) == 'a' && CharOf(6) == 'G' && CharOf(21) == 'V' && CharOf(44) == 's';
  }

  lemma HelloGroup2()
    ensures Group2(108, 111) == "bG8"
  {
    assert 108 / 4 == 27 && (108 % 4) * 16 + 111 / 16 == 6 && (111 % 16) * 4 == 60;
    assert CharOf(27) == 'b' && CharOf(6) == 'G' && CharOf(60) == '8';
  }

  lemma BinaryHello()
    ensures BinaryString([104, 101, 108, 108, 111]) == "hello"
  {
  }
}
