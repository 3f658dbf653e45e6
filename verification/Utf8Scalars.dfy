/** UTF-8 by arithmetic on Unicode scalar values, and that the byte-level reading agrees with it. */
module Utf8Scalars {
  import opened Common
  import opened Utf8

  /** A Unicode scalar value: a code point that is not a surrogate. */
  type Char = c: int | 0 <= c <= 0xD7FF || 0xE000 <= c <= 0x10FFFF

  /** The encoding of one scalar value: six bits to each continuation byte. */
  function EncodeChar(c: Char): (r: Bytes)
    ensures 1 <= |r| <= 4
  {
    if c < 0x80 then [c]
    else if c < 0x800 then [0xC0 + c / 64, 0x80 + c % 64]
    else if c < 0x10000 then [0xE0 + c / 4096, 0x80 + c / 64 % 64, 0x80 + c % 64]
    else [0xF0 + c / 262144, 0x80 + c / 4096 % 64, 0x80 + c / 64 % 64, 0x80 + c % 64]
  }

  function EncodeText(text: seq<Char>): Bytes {
    if text == [] then [] else EncodeChar(text[0]) + EncodeText(text[1..])
  }

  // ------------------------------------------------------------- one character

  lemma TwoBytes(c: Char, r: Bytes)
    requires 0x80 <= c < 0x800
    ensures First(EncodeChar(c) + r) == Good(2)
  {
    var s := EncodeChar(c) + r;
    assert s[0] == 0xC0 + c / 64 && s[1] == 0x80 + c % 64;
  }

  lemma ThreeBytes(c: Char, r: Bytes)
    requires 0x800 <= c < 0x10000
    ensures First(EncodeChar(c) + r) == Good(3)
  {
    var s := EncodeChar(c) + r;
    assert s[0] == 0xE0 + c / 4096 && s[1] == 0x80 + c / 64 % 64 && s[2] == 0x80 + c % 64;
  }

  lemma FourBytes(c: Char, r: Bytes)
    requires 0x10000 <= c
    ensures First(EncodeChar(c) + r) == Good(4)
  {
    var s := EncodeChar(c) + r;
    assert s[0] == 0xF0 + c / 262144 && s[1] == 0x80 + c / 4096 % 64 && s[2] == 0x80 + c / 64 % 64
        && s[3] == 0x80 + c % 64;
  }

  /** A string that starts with an encoded character is read so. */
  lemma CharIsRead(c: Char, r: Bytes)
    ensures First(EncodeChar(c) + r) == Good(|EncodeChar(c)|)
  {
    if c < 0x80 {
    } else if c < 0x800 {
      TwoBytes(c, r);
    } else if c < 0x10000 {
      ThreeBytes(c, r);
    } else {
      FourBytes(c, r);
    }
  }

  /** A character that is read is the encoding of some scalar value. */
  lemma ReadIsChar(s: Bytes) returns (c: Char)
    requires s != [] && First(s).Good?
    ensures s[..First(s).size] == EncodeChar(c)
  {
    if First(s).size == 1 {
      c := s[0];
    } else if First(s).size == 2 {
      c := TwoByteChar(s[0], s[1]);
    } else if First(s).size == 3 {
      c := ThreeByteChar(s[0], s[1], s[2]);
    } else {
      c := FourByteChar(s[0], s[1], s[2], s[3]);
    }
  }

  lemma TwoByteChar(a: u8, b: u8) returns (c: Char)
    requires 0xC2 <= a <= 0xDF && Cont(b)
    ensures EncodeChar(c) == [a, b]
  {
    var x: int, y: int := a - 0xC0, b - 0x80;
    c := 64 * x + y;
  }

  lemma ThreeByteChar(a: u8, b: u8, d: u8) returns (c: Char)
    requires 0xE0 <= a <= 0xEF && Second3(a, b) && Cont(d)
    ensures EncodeChar(c) == [a, b, d]
  {
    var x: int, y: int, z: int := a - 0xE0, b - 0x80, d - 0x80;
    c := 4096 * x + 64 * y + z;
    assert c / 64 == 64 * x + y;
  }

  lemma FourByteChar(a: u8, b: u8, d: u8, e: u8) returns (c: Char)
    requires 0xF0 <= a <= 0xF4 && Second4(a, b) && Cont(d) && Cont(e)
    ensures EncodeChar(c) == [a, b, d, e]
  {
    var w: int, x: int, y: int, z: int := a - 0xF0, b - 0x80, d - 0x80, e - 0x80;
    c := 262144 * w + 4096 * x + 64 * y + z;
    assert c / 64 == 4096 * w + 64 * x + y;
    assert c / 4096 == 64 * w + x;
  }

  // ---------------------------------------------------------------- whole texts

  lemma {:induction false} TextIsValid(text: seq<Char>)
    ensures Valid(EncodeText(text))
  {
    if text != [] {
      var c, rest := EncodeChar(text[0]), EncodeText(text[1..]);
      CharIsRead(text[0], rest);
      TextIsValid(text[1..]);
      SliceConcat(c, rest, |c|);
      assert (c + rest)[|c|..] == rest;
    }
  }

  lemma EncodeCons(c: Char, rest: seq<Char>)
    ensures EncodeText([c] + rest) == EncodeChar(c) + EncodeText(rest)
  {
    ConsTail(c, rest);
  }

  lemma {:induction false} ValidIsText(s: Bytes) returns (text: seq<Char>)
    requires Valid(s)
    ensures s == EncodeText(text)
  {
    if s == [] {
      text := [];
    } else {
      var n := First(s).size;
      var c := ReadIsChar(s);
      var rest := ValidIsText(s[n..]);
      text := [c] + rest;
      EncodeCons(c, rest);
      assert s == s[..n] + s[n..];
    }
  }

  /** Well-formed bytes are exactly the encodings of texts. */
  lemma ValidIffText(s: Bytes)
    ensures Valid(s) <==> exists text :: s == EncodeText(text)
  {
    if Valid(s) {
      var text := ValidIsText(s);
    }
    if text :| s == EncodeText(text) {
      TextIsValid(text);
    }
  }

  /** The lossy conversion is the identity on encoded texts. */
  lemma LossyKeepsText(text: seq<Char>)
    ensures Lossy(EncodeText(text)) == EncodeText(text)
  {
    TextIsValid(text);
    LossyOfValid(EncodeText(text));
  }

  // -------------------------------------------------------------- ill-formed parts

  /** `p` is how some character begins. */
  ghost predicate Begins(p: Bytes) {
    exists c: Char :: p <= EncodeChar(c)
  }

  lemma CharBegins(c: Char, p: Bytes)
    requires p <= EncodeChar(c)
    ensures Begins(p)
  {
  }

  /** Nothing longer than an ill-formed part begins a character. */
  lemma FaultStops(s: Bytes, c: Char)
    requires s != [] && First(s).Bad? && First(s).size < |s|
    ensures !(s[..First(s).size + 1] <= EncodeChar(c))
  {
    var p, e := s[..First(s).size + 1], EncodeChar(c);
    CharIsRead(c, []);
    assert e + [] == e;
    assert p[0] == s[0] && p[1] == s[1];
    assert First(s).size >= 2 ==> p[2] == s[2];
    assert First(s).size >= 3 ==> p[3] == s[3];
  }

  /** An ill-formed part of two or three bytes begins a character. */
  lemma FaultBegins(s: Bytes)
    requires s != [] && First(s).Bad? && First(s).size > 1
    ensures Begins(s[..First(s).size])
  {
    var p := s[..First(s).size];
    if s[0] <= 0xEF {
      var c := ThreeByteChar(s[0], s[1], 0x80);
      assert p == [s[0], s[1]];
      CharBegins(c, p);
    } else if First(s).size == 2 {
      var c := FourByteChar(s[0], s[1], 0x80, 0x80);
      assert p == [s[0], s[1]];
      CharBegins(c, p);
    } else {
      var c := FourByteChar(s[0], s[1], s[2], 0x80);
      assert p == [s[0], s[1], s[2]];
      CharBegins(c, p);
    }
  }

  /**
   * What one replacement character stands for: the longest part that begins a
   * character but does not complete it, or a single byte.
   */
  lemma FaultIsMaximal(s: Bytes)
    requires s != [] && First(s).Bad?
    ensures var n := First(s).size;
            && (n > 1 ==> Begins(s[..n]))
            && (n < |s| ==> !Begins(s[..n + 1]))
  {
    var n := First(s).size;
    if n > 1 {
      FaultBegins(s);
    }
    if n < |s| {
      forall c: Char ensures !(s[..n + 1] <= EncodeChar(c)) {
        FaultStops(s, c);
      }
    }
  }
}
