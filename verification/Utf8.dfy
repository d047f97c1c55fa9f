/** Well-formed UTF-8 as `String::from_utf8` accepts it, and how it behaves around newlines. */
module Utf8 {
  import opened Common

  const NEWLINE: byte := 10

  predicate Continues(b: byte) { 0x80 <= b <= 0xBF }

  /** The range the second byte of a multi-byte sequence has to be in. */
  predicate Seconds(lead: byte, b: byte)
  {
    match lead
    case 0xE0 => 0xA0 <= b <= 0xBF
    case 0xED => 0x80 <= b <= 0x9F
    case 0xF0 => 0x90 <= b <= 0xBF
    case 0xF4 => 0x80 <= b <= 0x8F
    case _ => Continues(b)
  }

  /** Length a leading byte announces; 0 for a byte that cannot lead. */
  function Announced(lead: byte): (n: nat)
    ensures n <= 4
  {
    if lead < 0x80 then 1
    else if 0xC2 <= lead <= 0xDF then 2
    else if 0xE0 <= lead <= 0xEF then 3
    else if 0xF0 <= lead <= 0xF4 then 4
    else 0
  }

  /** The `n` bytes from `at` on encode one character. */
  predicate Character(s: Bytes, at: nat, n: nat)
  {
    && at < at + n <= |s| && n == Announced(s[at])
    && (n > 1 ==> Seconds(s[at], s[at + 1]))
    && (n > 2 ==> Continues(s[at + 2]))
    && (n > 3 ==> Continues(s[at + 3]))
  }

  predicate ValidFrom(s: Bytes, at: nat)
    requires at <= |s|
    decreases |s| - at
  {
    at == |s| || (Character(s, at, Announced(s[at])) && ValidFrom(s, at + Announced(s[at])))
  }

  predicate ValidUtf8(s: Bytes)
  {
    ValidFrom(s, 0)
  }

  /** What precedes a character does not matter. */
  lemma {:induction false} ValidAfter(front: Bytes, s: Bytes, at: nat)
    requires at <= |s|
    ensures ValidFrom(front + s, |front| + at) == ValidFrom(s, at)
    decreases |s| - at
  {
    if at < |s| {
      var n := Announced(s[at]);
      assert forall i :: at <= i < |s| ==> (front + s)[|front| + i] == s[i];
      assert Character(front + s, |front| + at, n) == Character(s, at, n);
      if Character(s, at, n) {
        ValidAfter(front, s, at + n);
      }
    }
  }

  /** A newline is no part of a longer character, so validity can be checked line by line. */
  lemma {:induction false} ValidBefore(a: Bytes, b: Bytes, at: nat)
    requires at <= |a|
    ensures ValidFrom(a + [NEWLINE] + b, at) <==> ValidFrom(a, at) && ValidUtf8(b)
    decreases |a| - at
  {
    var s := a + [NEWLINE] + b;
    assert s[|a|] == NEWLINE && forall i :: 0 <= i < |a| ==> s[i] == a[i];
    if at == |a| {
      ValidAfter(a + [NEWLINE], b, 0);
    } else {
      var n := Announced(s[at]);
      assert Character(s, at, n) == Character(a, at, n);
      if Character(s, at, n) {
        ValidBefore(a, b, at + n);
      }
    }
  }

  lemma ValidByLine(a: Bytes, b: Bytes)
    ensures ValidUtf8(a + [NEWLINE] + b) <==> ValidUtf8(a) && ValidUtf8(b)
  {
    ValidBefore(a, b, 0);
  }

  /** The bytes of a line are as valid with their newline as without it. */
  lemma ValidWithNewline(line: Bytes)
    ensures ValidUtf8(line + [NEWLINE]) <==> ValidUtf8(line)
  {
    ValidByLine(line, []);
    assert line + [NEWLINE] + [] == line + [NEWLINE];
  }

  // ---------- Characters ----------

  /** A Unicode scalar value: a code point that is no surrogate. */
  type Scalar = c: nat | c < 0xD800 || 0xE000 <= c < 0x11_0000

  /** The encoding of section 3 of RFC 3629: six bits in each byte behind the first. */
  function Encode(c: Scalar): Bytes
  {
    if c < 0x80 then [c as byte]
    else if c < 0x800 then [(0xC0 + c / 64) as byte, Low(c)]
    else if c < 0x1_0000 then [(0xE0 + c / 4096) as byte, Low(c / 64), Low(c)]
    else [(0xF0 + c / 262144) as byte, Low(c / 4096), Low(c / 64), Low(c)]
  }

  /** A byte with the lowest six bits. */
  function Low(c: nat): byte { (0x80 + c % 64) as byte }

  function Text(cs: seq<Scalar>): Bytes
  {
    if cs == [] then [] else Encode(cs[0]) + Text(cs[1..])
  }

  lemma EncodedIsCharacter(c: Scalar)
    ensures var s := Encode(c); s != [] && |s| == Announced(s[0]) && Character(s, 0, |s|)
  {
  }

  lemma TwoBytes(a: byte, b: byte) returns (c: Scalar)
    requires Announced(a) == 2 && Seconds(a, b)
    ensures Encode(c) == [a, b]
  {
    c := (a as nat - 0xC0) * 64 + (b as nat - 0x80);
    assert c / 64 == a as nat - 0xC0 && c % 64 == b as nat - 0x80;
  }

  lemma ThreeBytes(a: byte, b: byte, d: byte) returns (c: Scalar)
    requires Announced(a) == 3 && Seconds(a, b) && Continues(d)
    ensures Encode(c) == [a, b, d]
  {
    var high := (a as nat - 0xE0) * 64 + (b as nat - 0x80);
    var n := high * 64 + (d as nat - 0x80);
    assert n / 64 == high && n % 64 == d as nat - 0x80;
    assert high / 64 == a as nat - 0xE0 && high % 64 == b as nat - 0x80;
    assert n / 4096 == high / 64;
    c := n;
  }

  lemma FourBytes(a: byte, b: byte, d: byte, e: byte) returns (c: Scalar)
    requires Announced(a) == 4 && Seconds(a, b) && Continues(d) && Continues(e)
    ensures Encode(c) == [a, b, d, e]
  {
    var top := (a as nat - 0xF0) * 64 + (b as nat - 0x80);
    var high := top * 64 + (d as nat - 0x80);
    var n := high * 64 + (e as nat - 0x80);
    assert n / 64 == high && n % 64 == e as nat - 0x80;
    assert high / 64 == top && high % 64 == d as nat - 0x80;
    assert top / 64 == a as nat - 0xF0 && top % 64 == b as nat - 0x80;
    assert n / 4096 == top && n / 262144 == top / 64;
    c := n;
  }

  lemma CharacterIsEncoded(s: Bytes, at: nat) returns (c: Scalar)
    requires at < |s| && Character(s, at, Announced(s[at]))
    ensures Encode(c) == s[at..at + Announced(s[at])]
  {
    var n := Announced(s[at]);
    if n == 1 {
      c := s[at] as nat;
    } else if n == 2 {
      c := TwoBytes(s[at], s[at + 1]);
    } else if n == 3 {
      c := ThreeBytes(s[at], s[at + 1], s[at + 2]);
    } else {
      c := FourBytes(s[at], s[at + 1], s[at + 2], s[at + 3]);
    }
  }

  lemma {:induction false} TextIsValid(cs: seq<Scalar>)
    ensures ValidUtf8(Text(cs))
  {
    if cs != [] {
      var first, rest := Encode(cs[0]), Text(cs[1..]);
      EncodedIsCharacter(cs[0]);
      TextIsValid(cs[1..]);
      ValidAfter(first, rest, 0);
      assert forall i :: 0 <= i < |first| ==> (first + rest)[i] == first[i];
      assert Character(first + rest, 0, |first|);
    }
  }

  lemma {:induction false} ValidIsText(s: Bytes, at: nat) returns (cs: seq<Scalar>)
    requires at <= |s| && ValidFrom(s, at)
    ensures Text(cs) == s[at..]
    decreases |s| - at
  {
    if at == |s| {
      cs := [];
    } else {
      var n := Announced(s[at]);
      var c := CharacterIsEncoded(s, at);
      var rest := ValidIsText(s, at + n);
      cs := [c] + rest;
      assert cs[1..] == rest && s[at..] == s[at..at + n] + s[at + n..];
    }
  }

  /** The bytes are valid exactly if they are the encoding of some text. */
  lemma ValidIff(s: Bytes)
    ensures ValidUtf8(s) <==> exists cs: seq<Scalar> :: Text(cs) == s
  {
    if ValidUtf8(s) {
      var cs := ValidIsText(s, 0);
      assert Text(cs) == s;
    }
    if cs: seq<Scalar> :| Text(cs) == s {
      TextIsValid(cs);
    }
  }
}
