/** UTF-8 text as byte sequences, one `char` per byte: lead bytes, continuation bytes and where slicing is legal. */
module Utf8 {

  predicate IsContinuation(c: char) { 0x80 as char <= c < 0xC0 as char }

  predicate IsAscii(c: char) { c < 0x80 as char }

  /** Bytes in the character a lead byte announces (section 4 of RFC 3629); 0 for a byte that starts none. */
  function LeadLength(c: char): nat {
    if IsAscii(c) then 1
    else if 0xC2 as char <= c < 0xE0 as char then 2
    else if 0xE0 as char <= c < 0xF0 as char then 3
    else if 0xF0 as char <= c < 0xF5 as char then 4
    else 0
  }

  /** Lead bytes followed by their continuation bytes: true of every Rust string. */
  predicate IsUtf8(s: string) {
    s == ""
    || (var n := LeadLength(s[0]);
        0 < n <= |s| && (forall k :: 1 <= k < n ==> IsContinuation(s[k])) && IsUtf8(s[n..]))
  }

  /** `str::is_char_boundary`: slicing anywhere else panics. */
  predicate IsBoundary(s: string, i: nat) {
    i == 0 || i == |s| || (i < |s| && !IsContinuation(s[i]))
  }

  /** Bytes of the character at `i`. */
  function CharLength(s: string, i: nat): (n: nat)
    requires i < |s|
    ensures 1 <= n <= |s| - i
  {
    var n := LeadLength(s[i]);
    if n == 0 then 1 else if n <= |s| - i then n else |s| - i
  }

  function Low6(c: char): nat { c as nat % 64 }

  /** The code point of the character at `i`. */
  function CodePoint(s: string, i: nat): nat
    requires i < |s|
  {
    var n := CharLength(s, i);
    if n == 1 then s[i] as nat
    else if n == 2 then (s[i] as nat % 32) * 64 + Low6(s[i + 1])
    else if n == 3 then (s[i] as nat % 16) * 4096 + Low6(s[i + 1]) * 64 + Low6(s[i + 2])
    else (s[i] as nat % 8) * 262144 + Low6(s[i + 1]) * 4096 + Low6(s[i + 2]) * 64 + Low6(s[i + 3])
  }

  /** Unicode `White_Space`. */
  predicate IsWhitespace(c: nat) {
    9 <= c <= 13 || c in {0x20, 0x85, 0xA0, 0x1680, 0x2028, 0x2029, 0x202F, 0x205F, 0x3000} || 0x2000 <= c <= 0x200A
  }

  /** What `str::trim` removes from text that is a sequence of characters. */
  const WHITESPACE: set<char> := set c: char | IsWhitespace(c as nat)

  /** The rest of valid text from a boundary is valid text. */
  lemma {:induction false} SuffixIsUtf8(s: string, i: nat)
    requires IsUtf8(s) && i <= |s| && IsBoundary(s, i)
    ensures IsUtf8(s[i..])
    decreases |s|
  {
    if 0 < i < |s| {
      var n := LeadLength(s[0]);
      assert i >= n;
      SuffixIsUtf8(s[n..], i - n);
      assert s[n..][i - n..] == s[i..];
    }
  }

  /** Right after an ASCII byte is a boundary. */
  lemma AsciiThenBoundary(s: string, i: nat)
    requires IsUtf8(s) && i < |s| && IsAscii(s[i])
    ensures IsBoundary(s, i + 1)
  {
    SuffixIsUtf8(s, i);
    var rest := s[i..];
    if i + 1 < |s| {
      assert IsUtf8(rest[1..]) && rest[1..][0] == s[i + 1];
    }
  }

  /** Stepping over one whole character lands on a boundary. */
  lemma CharThenBoundary(s: string, i: nat)
    requires IsUtf8(s) && i < |s| && IsBoundary(s, i)
    ensures IsBoundary(s, i + CharLength(s, i))
    ensures forall k :: i < k < i + CharLength(s, i) ==> IsContinuation(s[k])
  {
    SuffixIsUtf8(s, i);
    var rest := s[i..];
    var n := LeadLength(rest[0]);
    assert n == CharLength(s, i);
    forall k | i < k < i + n ensures IsContinuation(s[k]) {
      assert s[k] == rest[k - i];
    }
    if i + n < |s| {
      assert IsUtf8(rest[n..]) && rest[n..][0] == s[i + n];
    }
  }

  predicate IsScalar(cp: nat) { cp < 0xD800 || 0xE000 <= cp < 0x110000 }

  /** The bytes of a character (section 3 of RFC 3629). */
  function Encode(cp: nat): (s: string)
    requires IsScalar(cp)
    ensures 1 <= |s| <= 4
  {
    if cp < 0x80 then [cp as char]
    else if cp < 0x800 then [(0xC0 + cp / 64) as char, (0x80 + cp % 64) as char]
    else if cp < 0x10000 then
      [(0xE0 + cp / 4096) as char, (0x80 + cp / 64 % 64) as char, (0x80 + cp % 64) as char]
    else
      [(0xF0 + cp / 262144) as char, (0x80 + cp / 4096 % 64) as char, (0x80 + cp / 64 % 64) as char,
       (0x80 + cp % 64) as char]
  }

  /** Reading back what was encoded: every character is valid text, has its own length and decodes to itself, whatever
      follows it. */
  lemma DecodesBack(cp: nat, rest: string)
    requires IsScalar(cp)
    ensures var s := Encode(cp) + rest;
            IsUtf8(Encode(cp)) && CharLength(s, 0) == |Encode(cp)| && CodePoint(s, 0) == cp
  {
    hide CodePoint, IsUtf8, CharLength;
    LeadOfEncoded(cp);
    var e := Encode(cp);
    EncodedIsUtf8(e);
    LengthByLead(e, rest);
    hide Encode, LeadLength;
    if cp < 0x80 {
      DecodesOne(cp, rest);
    } else if cp < 0x800 {
      DecodesTwo(cp, rest);
    } else if cp < 0x10000 {
      DecodesThree(cp, rest);
    } else {
      DecodesFour(cp, rest);
    }
  }

  lemma DecodesOne(cp: nat, rest: string)
    requires cp < 0x80 && CharLength(Encode(cp) + rest, 0) == 1
    ensures CodePoint(Encode(cp) + rest, 0) == cp
  {
    hide CodePoint, CharLength;
    ReadOne(cp as char, rest);
  }

  lemma DecodesTwo(cp: nat, rest: string)
    requires 0x80 <= cp < 0x800 && CharLength(Encode(cp) + rest, 0) == |Encode(cp)|
    ensures CodePoint(Encode(cp) + rest, 0) == cp
  {
    hide CodePoint, CharLength;
    ReadTwo((0xC0 + cp / 64) as char, (0x80 + cp % 64) as char, rest);
    assert (0xC0 + cp / 64) % 32 == cp / 64 && (0x80 + cp % 64) % 64 == cp % 64;
  }

  lemma DecodesThree(cp: nat, rest: string)
    requires IsScalar(cp) && 0x800 <= cp < 0x10000 && CharLength(Encode(cp) + rest, 0) == |Encode(cp)|
    ensures CodePoint(Encode(cp) + rest, 0) == cp
  {
    hide CodePoint, CharLength;
    ReadThree((0xE0 + cp / 4096) as char, (0x80 + cp / 64 % 64) as char, (0x80 + cp % 64) as char, rest);
    assert (0xE0 + cp / 4096) % 16 == cp / 4096;
    LowBits(cp / 64 % 64);
    LowBits(cp % 64);
    ThreeParts(cp);
  }

  lemma LowBits(x: nat)
    requires x < 64
    ensures (0x80 + x) % 64 == x
  {
  }

  lemma DecodesFour(cp: nat, rest: string)
    requires IsScalar(cp) && 0x10000 <= cp && CharLength(Encode(cp) + rest, 0) == |Encode(cp)|
    ensures CodePoint(Encode(cp) + rest, 0) == cp
  {
    hide CodePoint, CharLength;
    ReadFour((0xF0 + cp / 262144) as char, (0x80 + cp / 4096 % 64) as char, (0x80 + cp / 64 % 64) as char,
             (0x80 + cp % 64) as char, rest);
    assert (0xF0 + cp / 262144) % 8 == cp / 262144;
    LowBits(cp / 4096 % 64);
    LowBits(cp / 64 % 64);
    LowBits(cp % 64);
    FourParts(cp);
  }

  lemma LeadOfEncoded(cp: nat)
    requires IsScalar(cp)
    ensures var e := Encode(cp); LeadLength(e[0]) == |e| && forall k :: 1 <= k < |e| ==> IsContinuation(e[k])
  {
  }

  lemma EncodedIsUtf8(e: string)
    requires e != "" && LeadLength(e[0]) == |e| && forall k :: 1 <= k < |e| ==> IsContinuation(e[k])
    ensures IsUtf8(e)
  {
    assert e[|e|..] == "";
  }

  lemma LengthByLead(e: string, rest: string)
    requires e != "" && LeadLength(e[0]) == |e|
    ensures CharLength(e + rest, 0) == |e|
  {
  }

  lemma ReadOne(a: char, rest: string)
    requires CharLength([a] + rest, 0) == 1
    ensures CodePoint([a] + rest, 0) == a as nat
  {
  }

  lemma ReadTwo(a: char, b: char, rest: string)
    requires CharLength([a, b] + rest, 0) == 2
    ensures CodePoint([a, b] + rest, 0) == (a as nat % 32) * 64 + b as nat % 64
  {
  }

  lemma ReadThree(a: char, b: char, c: char, rest: string)
    requires CharLength([a, b, c] + rest, 0) == 3
    ensures CodePoint([a, b, c] + rest, 0) == (a as nat % 16) * 4096 + (b as nat % 64) * 64 + c as nat % 64
  {
  }

  lemma ReadFour(a: char, b: char, c: char, d: char, rest: string)
    requires CharLength([a, b, c, d] + rest, 0) == 4
    ensures CodePoint([a, b, c, d] + rest, 0)
            == (a as nat % 8) * 262144 + (b as nat % 64) * 4096 + (c as nat % 64) * 64 + d as nat % 64
  {
  }

  lemma ThreeParts(cp: nat)
    ensures cp == cp / 4096 * 4096 + cp / 64 % 64 * 64 + cp % 64
  {
    assert cp / 64 / 64 == cp / 4096;
  }

  lemma FourParts(cp: nat)
    ensures cp == cp / 262144 * 262144 + cp / 4096 % 64 * 4096 + cp / 64 % 64 * 64 + cp % 64
  {
    ThreeParts(cp);
    assert cp / 4096 / 64 == cp / 262144;
  }
}
