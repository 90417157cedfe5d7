/** The base64 transport of the PDF bytes: the server encodes with the standard alphabet
    and padding of section 4 of RFC 4648 (Node's Buffer `toString('base64')`), and the
    browser decodes with `atob`, which is the forgiving-base64 decode of the WHATWG
    Infra standard and returns a binary string (one character per byte). */
module Base64 {
  import opened Common

  // ----- The alphabet -----

  predicate IsAlphabet(c: char)
  {
    ('A' <= c <= 'Z') || ('a' <= c <= 'z') || ('0' <= c <= '9') || c == '+' || c == '/'
  }

  /** The character that encodes a 6-bit value. */
  function Sextet(v: int): (c: char)
    requires 0 <= v < 64
    ensures IsAlphabet(c)
  {
    if v < 26 then ('A' as int + v) as char
    else if v < 52 then ('a' as int + (v - 26)) as char
    else if v < 62 then ('0' as int + (v - 52)) as char
    else if v == 62 then '+'
    else '/'
  }

  /** The 6-bit value an alphabet character encodes. */
  function SextetValue(c: char): (v: int)
    requires IsAlphabet(c)
    ensures 0 <= v < 64 && Sextet(v) == c
  {
    if 'A' <= c <= 'Z' then c as int - 'A' as int
    else if 'a' <= c <= 'z' then c as int - 'a' as int + 26
    else if '0' <= c <= '9' then c as int - '0' as int + 52
    else if c == '+' then 62
    else 63
  }

  lemma SextetRoundTrip(v: int)
    requires 0 <= v < 64
    ensures SextetValue(Sextet(v)) == v
  {
  }

  predicate AllAlphabet(s: string)
  {
    forall i :: 0 <= i < |s| ==> IsAlphabet(s[i])
  }

  // ----- Encoding (section 4 of RFC 4648) -----

  /** The four characters that encode three bytes. */
  function EncodeGroup(b0: byte, b1: byte, b2: byte): (s: string)
    ensures |s| == 4 && AllAlphabet(s)
  {
    [Sextet(b0 / 4), Sextet(b0 % 4 * 16 + b1 / 16), Sextet(b1 % 16 * 4 + b2 / 64), Sextet(b2 % 64)]
  }

  /** The encoding of `b` without its trailing padding: four characters per three bytes,
      and the first two or three characters of a zero-filled group for a final one or two bytes. */
  function EncodeUnpadded(b: seq<byte>): (s: string)
    ensures |s| % 4 != 1
    ensures |s| == 0 <==> |b| == 0
    ensures AllAlphabet(s)
  {
    if |b| == 0 then []
    else if |b| == 1 then EncodeGroup(b[0], 0, 0)[..2]
    else if |b| == 2 then EncodeGroup(b[0], b[1], 0)[..3]
    else EncodeGroup(b[0], b[1], b[2]) + EncodeUnpadded(b[3..])
  }

  /** Three bytes per four characters, and a final one or two bytes in two or three. */
  lemma {:induction false} EncodeUnpaddedLength(b: seq<byte>)
    ensures |EncodeUnpadded(b)| == |b| / 3 * 4 + (if |b| % 3 == 0 then 0 else |b| % 3 + 1)
  {
    if |b| >= 3 {
      EncodeUnpaddedLength(b[3..]);
      EncodeUnpaddedStep(b);
      assert |b[3..]| / 3 == |b| / 3 - 1 && |b[3..]| % 3 == |b| % 3;
    }
  }

  lemma EncodeUnpaddedLengthMod(b: seq<byte>)
    ensures |EncodeUnpadded(b)| % 4 == if |b| % 3 == 0 then 0 else |b| % 3 + 1
  {
    EncodeUnpaddedLength(b);
    QuadrupleMod(|b| / 3, if |b| % 3 == 0 then 0 else |b| % 3 + 1);
  }

  lemma QuadrupleMod(q: nat, t: nat)
    requires t < 4
    ensures (q * 4 + t) % 4 == t
  {
  }

  /** Padding fills the last group: a remainder of two characters takes two `=`, of three one. */
  lemma PaddingFillsGroup(u: nat, n: nat)
    requires u % 4 == if n % 3 == 0 then 0 else n % 3 + 1
    ensures (u + (if n % 3 == 0 then 0 else 3 - n % 3)) % 4 == 0
  {
  }

  lemma EncodeUnpaddedStep(b: seq<byte>)
    requires |b| >= 3
    ensures EncodeUnpadded(b) == EncodeGroup(b[0], b[1], b[2]) + EncodeUnpadded(b[3..])
  {
  }

  /** The `=` characters that fill the last group up to four characters. */
  function Padding(n: nat): (p: string)
    ensures |p| == if n % 3 == 0 then 0 else 3 - n % 3
    ensures forall i :: 0 <= i < |p| ==> p[i] == '='
  {
    if n % 3 == 1 then "==" else if n % 3 == 2 then "=" else ""
  }

  /** The padded base64 text of a byte string. */
  function Encode(b: seq<byte>): (s: string)
    ensures |s| % 4 == 0
    ensures |s| == 0 <==> |b| == 0
  {
    EncodeUnpaddedLengthMod(b);
    PaddingFillsGroup(|EncodeUnpadded(b)|, |b|);
    EncodeUnpadded(b) + Padding(|b|)
  }

  lemma RoundUpToGroups(n: nat)
    ensures (n + 2) / 3 == n / 3 + (if n % 3 == 0 then 0 else 1)
  {
  }

  /** The padded text has four characters for every started group of three bytes. */
  lemma EncodeLength(b: seq<byte>)
    ensures |Encode(b)| == (|b| + 2) / 3 * 4
  {
    EncodeUnpaddedLength(b);
    RoundUpToGroups(|b|);
  }

  // ----- Decoding (atob) -----

  predicate IsAsciiWhitespace(c: char)
  {
    c == '\t' || c == '\n' || c == '\U{000C}' || c == '\r' || c == ' '
  }

  /** The string with every ASCII whitespace character removed. */
  function StripWhitespace(s: string): (r: string)
    ensures |r| <= |s|
    ensures forall i :: 0 <= i < |r| ==> !IsAsciiWhitespace(r[i])
  {
    if s == [] then []
    else if IsAsciiWhitespace(s[0]) then StripWhitespace(s[1..])
    else [s[0]] + StripWhitespace(s[1..])
  }

  /** When the length is a multiple of four, one or two trailing `=` are dropped. */
  function StripPadding(s: string): (r: string)
    ensures r <= s && |s| - 2 <= |r|
    ensures forall i :: |r| <= i < |s| ==> s[i] == '='
    ensures |s| % 4 != 0 ==> r == s
    ensures |s| % 4 == 0 && |s| >= 1 && s[|s| - 1] == '=' ==> |r| < |s|
    ensures |s| % 4 == 0 && |s| >= 2 && s[|s| - 2..] == "==" ==> |r| == |s| - 2
  {
    if |s| % 4 == 0 && |s| >= 2 && s[|s| - 2..] == "==" then s[..|s| - 2]
    else if |s| % 4 == 0 && |s| >= 1 && s[|s| - 1] == '=' then s[..|s| - 1]
    else s
  }

  /** The three bytes four alphabet characters decode to. */
  function DecodeGroup(s: string): (b: seq<byte>)
    requires |s| == 4 && AllAlphabet(s)
    ensures |b| == 3
  {
    var v0, v1, v2, v3 := SextetValue(s[0]), SextetValue(s[1]), SextetValue(s[2]), SextetValue(s[3]);
    [v0 * 4 + v1 / 16, v1 % 16 * 16 + v2 / 4, v2 % 4 * 64 + v3]
  }

  /** The bytes of an unpadded run of alphabet characters: a final group of two or three
      characters gives one or two bytes, and its leftover bits are discarded. */
  function DecodeUnpadded(s: string): (b: seq<byte>)
    requires AllAlphabet(s) && |s| % 4 != 1
  {
    if |s| == 0 then []
    else if |s| == 2 then DecodeGroup(s + "AA")[..1]
    else if |s| == 3 then DecodeGroup(s + "A")[..2]
    else DecodeGroup(s[..4]) + DecodeUnpadded(s[4..])
  }

  /** The JavaScript binary string of a byte string: character i has code b[i]. */
  function BinaryString(b: seq<byte>): (s: string)
    ensures |s| == |b|
    ensures forall i :: 0 <= i < |b| ==> s[i] as int == b[i]
  {
    seq(|b|, i requires 0 <= i < |b| => b[i] as char)
  }

  /** atob: None where the browser throws an InvalidCharacterError. */
  function Atob(data: string): (r: Option<string>)
    ensures r.Some? ==> forall i :: 0 <= i < |r.value| ==> r.value[i] as int < 256
  {
    var s := StripPadding(StripWhitespace(data));
    if |s| % 4 == 1 || !AllAlphabet(s) then None
    else Some(BinaryString(DecodeUnpadded(s)))
  }

  // ----- Round trip -----

  lemma GroupArithmetic(b0: byte, b1: byte, b2: byte)
    ensures var v0, v1, v2, v3 := b0 / 4, b0 % 4 * 16 + b1 / 16, b1 % 16 * 4 + b2 / 64, b2 % 64;
      v0 * 4 + v1 / 16 == b0 && v1 % 16 * 16 + v2 / 4 == b1 && v2 % 4 * 64 + v3 == b2
  {
  }

  lemma DecodeEncodeGroup(b0: byte, b1: byte, b2: byte)
    ensures DecodeGroup(EncodeGroup(b0, b1, b2)) == [b0, b1, b2]
  {
    var s := EncodeGroup(b0, b1, b2);
    var v0, v1, v2, v3 := b0 / 4, b0 % 4 * 16 + b1 / 16, b1 % 16 * 4 + b2 / 64, b2 % 64;
    SextetRoundTrip(v0);
    SextetRoundTrip(v1);
    SextetRoundTrip(v2);
    SextetRoundTrip(v3);
    assert SextetValue(s[0]) == v0 && SextetValue(s[1]) == v1;
    assert SextetValue(s[2]) == v2 && SextetValue(s[3]) == v3;
    GroupArithmetic(b0, b1, b2);
  }

  lemma DecodeEncodeOne(b: seq<byte>)
    requires |b| == 1
    ensures DecodeUnpadded(EncodeUnpadded(b)) == b
  {
    var g, s := EncodeGroup(b[0], 0, 0), EncodeUnpadded(b);
    assert s == g[..2];
    assert g[2] == Sextet(0) == 'A' && g[3] == Sextet(0) == 'A';
    assert s + "AA" == g;
    DecodeEncodeGroup(b[0], 0, 0);
    assert DecodeUnpadded(s) == DecodeGroup(g)[..1];
  }

  lemma DecodeEncodeTwo(b: seq<byte>)
    requires |b| == 2
    ensures DecodeUnpadded(EncodeUnpadded(b)) == b
  {
    var g, s := EncodeGroup(b[0], b[1], 0), EncodeUnpadded(b);
    assert s == g[..3];
    assert g[3] == Sextet(0) == 'A';
    assert s + "A" == g;
    DecodeEncodeGroup(b[0], b[1], 0);
    assert DecodeUnpadded(s) == DecodeGroup(g)[..2];
  }

  lemma DecodeUnpaddedStep(g: string, rest: string)
    requires |g| == 4 && AllAlphabet(g) && AllAlphabet(rest) && |rest| % 4 != 1
    ensures AllAlphabet(g + rest) && |g + rest| % 4 != 1
    ensures DecodeUnpadded(g + rest) == DecodeGroup(g) + DecodeUnpadded(rest)
  {
    var s := g + rest;
    assert s[..4] == g;
    assert s[4..] == rest;
  }

  lemma DecodeFirstGroup(b: seq<byte>)
    requires |b| >= 3
    ensures DecodeUnpadded(EncodeUnpadded(b)) == [b[0], b[1], b[2]] + DecodeUnpadded(EncodeUnpadded(b[3..]))
  {
    var g, rest := EncodeGroup(b[0], b[1], b[2]), EncodeUnpadded(b[3..]);
    calc {
      DecodeUnpadded(EncodeUnpadded(b));
      { EncodeUnpaddedStep(b); }
      DecodeUnpadded(g + rest);
      { DecodeUnpaddedStep(g, rest); }
      DecodeGroup(g) + DecodeUnpadded(rest);
      { DecodeEncodeGroup(b[0], b[1], b[2]); }
      [b[0], b[1], b[2]] + DecodeUnpadded(rest);
    }
  }

  /** Decoding the unpadded encoding gives back the bytes. */
  lemma {:induction false} DecodeEncodeUnpadded(b: seq<byte>)
    ensures DecodeUnpadded(EncodeUnpadded(b)) == b
  {
    if |b| == 1 {
      DecodeEncodeOne(b);
    } else if |b| == 2 {
      DecodeEncodeTwo(b);
    } else if |b| >= 3 {
      DecodeEncodeUnpadded(b[3..]);
      DecodeEncodeCons(b);
    }
  }

  lemma DecodeEncodeCons(b: seq<byte>)
    requires |b| >= 3 && DecodeUnpadded(EncodeUnpadded(b[3..])) == b[3..]
    ensures DecodeUnpadded(EncodeUnpadded(b)) == b
  {
    var head, rest := [b[0], b[1], b[2]], b[3..];
    calc {
      DecodeUnpadded(EncodeUnpadded(b));
      { DecodeFirstGroup(b); }
      head + DecodeUnpadded(EncodeUnpadded(rest));
      head + rest;
      { SplitAtThree(b); }
      b;
    }
  }

  lemma SplitAtThree(b: seq<byte>)
    requires |b| >= 3
    ensures [b[0], b[1], b[2]] + b[3..] == b
  {
  }

  /** Whitespace is removed wherever it occurs: stripping works piece by piece. */
  lemma {:induction false} StripWhitespaceConcat(a: string, b: string)
    ensures StripWhitespace(a + b) == StripWhitespace(a) + StripWhitespace(b)
  {
    if a != [] {
      assert (a + b)[0] == a[0] && (a + b)[1..] == a[1..] + b;
      StripWhitespaceConcat(a[1..], b);
    } else {
      assert a + b == b;
    }
  }

  lemma {:induction false} StripWhitespaceKeeps(s: string)
    requires forall i :: 0 <= i < |s| ==> !IsAsciiWhitespace(s[i])
    ensures StripWhitespace(s) == s
  {
    if s != [] {
      StripWhitespaceKeeps(s[1..]);
    }
  }

  lemma EncodeAlphabetOrPad(b: seq<byte>)
    ensures forall i :: 0 <= i < |Encode(b)| ==> IsAlphabet(Encode(b)[i]) || Encode(b)[i] == '='
  {
    var u, p := EncodeUnpadded(b), Padding(|b|);
    assert Encode(b) == u + p;
    assert forall i :: 0 <= i < |p| ==> p[i] == '=';
  }

  lemma StripTwoPads(u: string)
    requires |u| % 4 == 2
    ensures StripPadding(u + "==") == u
  {
    var s := u + "==";
    assert s[|s| - 2..] == "==";
    assert s[..|s| - 2] == u;
  }

  lemma StripOnePad(u: string)
    requires |u| % 4 == 3 && AllAlphabet(u)
    ensures StripPadding(u + "=") == u
  {
    var s := u + "=";
    assert s[|s| - 2] == u[|u| - 1];
    assert s[|s| - 2..] != "==";
    assert s[..|s| - 1] == u;
  }

  lemma StripNoPad(u: string)
    requires |u| % 4 == 0 && AllAlphabet(u)
    ensures StripPadding(u) == u
  {
    if |u| > 0 {
      assert u[|u| - 2..][1] == u[|u| - 1];
    }
  }

  lemma StripEncodePadding(b: seq<byte>)
    ensures StripPadding(Encode(b)) == EncodeUnpadded(b)
  {
    var u := EncodeUnpadded(b);
    EncodeUnpaddedLengthMod(b);
    if |b| % 3 == 1 {
      StripTwoPads(u);
    } else if |b| % 3 == 2 {
      StripOnePad(u);
    } else {
      assert Encode(b) == u;
      StripNoPad(u);
    }
  }

  /** What the server encodes, atob decodes to the same bytes, one character per byte. */
  lemma AtobEncode(b: seq<byte>)
    ensures Atob(Encode(b)) == Some(BinaryString(b))
  {
    EncodeAlphabetOrPad(b);
    StripEncodePadding(b);
    StripWhitespaceKeeps(Encode(b));
    DecodeEncodeUnpadded(b);
  }

  /** A data length that leaves one character over in the last group is always refused. */
  lemma AtobRefusesDanglingCharacter(data: string)
    requires |StripPadding(StripWhitespace(data))| % 4 == 1
    ensures Atob(data) == None
  {
  }
}
