/** UTF-8 validity and the lossy conversion that replaces each ill-formed part by U+FFFD. */
module Utf8 {
  import opened Common

  predicate Cont(b: u8) { 0x80 <= b <= 0xBF }

  /** Second byte of a three-byte character. */
  predicate Second3(a: u8, b: u8) {
    Cont(b) && (a == 0xE0 ==> 0xA0 <= b) && (a == 0xED ==> b <= 0x9F)
  }

  /** Second byte of a four-byte character. */
  predicate Second4(a: u8, b: u8) {
    Cont(b) && (a == 0xF0 ==> 0x90 <= b) && (a == 0xF4 ==> b <= 0x8F)
  }

  /** The first character of a byte string, or the maximal ill-formed part it starts with. */
  datatype Chunk = Good(size: nat) | Bad(size: nat)

  function First(s: Bytes): (c: Chunk)
    requires s != []
    ensures 1 <= c.size <= 4 && c.size <= |s| && (c.Bad? ==> c.size <= 3)
  {
    var a := s[0];
    if a < 0x80 then Good(1)
    else if 0xC2 <= a <= 0xDF then
      if |s| > 1 && Cont(s[1]) then Good(2) else Bad(1)
    else if 0xE0 <= a <= 0xEF then
      if |s| > 1 && Second3(a, s[1]) then (if |s| > 2 && Cont(s[2]) then Good(3) else Bad(2)) else Bad(1)
    else if 0xF0 <= a <= 0xF4 then
      if |s| > 1 && Second4(a, s[1]) then
        if |s| > 2 && Cont(s[2]) then (if |s| > 3 && Cont(s[3]) then Good(4) else Bad(3)) else Bad(2)
      else Bad(1)
    else Bad(1)
  }

  predicate Valid(s: Bytes) {
    s == [] || (First(s).Good? && Valid(s[First(s).size..]))
  }

  const REPLACEMENT: Bytes := [0xEF, 0xBF, 0xBD]

  function Lossy(s: Bytes): Bytes {
    if s == [] then []
    else (if First(s).Good? then s[..First(s).size] else REPLACEMENT) + Lossy(s[First(s).size..])
  }

  lemma {:induction false} LossyOfValid(s: Bytes)
    requires Valid(s)
    ensures Lossy(s) == s
  {
    if s != [] {
      LossyOfValid(s[First(s).size..]);
    }
  }

  lemma SliceConcat<T>(p: seq<T>, r: seq<T>, n: nat)
    requires n <= |p|
    ensures (p + r)[..n] == p[..n] && (p + r)[n..] == p[n..] + r
    ensures p[..n] + (p[n..] + r) == p + r
  {
  }

  lemma CancelPrefix<T>(p: seq<T>, a: seq<T>, b: seq<T>)
    requires p + a <= p + b
    ensures a <= b
  {
    assert a == (p + a)[|p|..] && b == (p + b)[|p|..];
  }

  /** Whether a string starts with a whole character does not depend on what follows that character. */
  lemma FirstOfPrefix(p: Bytes, r: Bytes)
    requires p != [] && First(p).Good?
    ensures First(p + r) == First(p)
  {
    assert forall i :: 0 <= i < |p| ==> (p + r)[i] == p[i];
  }

  /** A well-formed prefix does not affect what follows. */
  lemma {:induction false} ValidPrefix(p: Bytes, r: Bytes)
    requires Valid(p)
    ensures Valid(p + r) <==> Valid(r)
    ensures Lossy(p + r) == p + Lossy(r)
  {
    if p == [] {
      assert p + r == r;
    } else {
      var n := First(p).size;
      FirstOfPrefix(p, r);
      SliceConcat(p, r, n);
      ValidPrefix(p[n..], r);
      SliceConcat(p, Lossy(r), n);
    }
  }

  lemma {:induction false} LossyIsValid(s: Bytes)
    ensures Valid(Lossy(s)) && |s| <= |Lossy(s)|
  {
    if s != [] {
      var n := First(s).size;
      LossyIsValid(s[n..]);
      var head := if First(s).Good? then s[..n] else REPLACEMENT;
      assert Valid(head) by { assert First(head) == Good(|head|); assert head[|head|..] == []; }
      ValidPrefix(head, Lossy(s[n..]));
    }
  }

  /** Only well-formed bytes come through unchanged. */
  lemma LossyKeepsOnlyValid(s: Bytes)
    ensures Lossy(s) == s <==> Valid(s)
  {
    LossyIsValid(s);
    if Valid(s) {
      LossyOfValid(s);
    }
  }

  /** An ASCII byte is a boundary: no character or ill-formed part reaches across it. */
  lemma {:induction false} AsciiBoundary(s: Bytes, r: Bytes)
    requires r != [] && r[0] < 0x80
    ensures Lossy(s + r) == Lossy(s) + Lossy(r)
    ensures Valid(s + r) <==> Valid(s) && Valid(r)
  {
    if s == [] {
      assert s + r == r;
    } else {
      var n := First(s).size;
      assert First(s + r) == First(s);
      assert (s + r)[n..] == s[n..] + r && (s + r)[..n] == s[..n];
      AsciiBoundary(s[n..], r);
    }
  }

  predicate AllHigh(s: Bytes) {
    forall i :: 0 <= i < |s| ==> s[i] >= 0x80
  }

  lemma {:induction false} LossyOfHigh(s: Bytes)
    requires AllHigh(s)
    ensures AllHigh(Lossy(s))
  {
    if s != [] {
      LossyOfHigh(s[First(s).size..]);
    }
  }

  /** An ill-formed string is a well-formed prefix and an ill-formed part. */
  lemma {:induction false} FirstFault(s: Bytes) returns (p: Bytes, r: Bytes)
    requires !Valid(s)
    ensures s == p + r && Valid(p) && r != [] && First(r).Bad?
  {
    if First(s).Bad? {
      p, r := [], s;
    } else {
      var n := First(s).size;
      p, r := FirstFault(s[n..]);
      assert Valid(s[..n]) by { assert First(s[..n]) == Good(n); assert s[..n][n..] == []; }
      ValidPrefix(s[..n], p);
      p := s[..n] + p;
    }
  }

  lemma FaultInsideReplacement(r: Bytes, x: Bytes)
    requires r != [] && First(r).Bad? && r <= REPLACEMENT + x
    ensures (r == [0xEF] || r == [0xEF, 0xBF]) && r[First(r).size..] == []
  {
    assert forall i :: 0 <= i < |r| ==> r[i] == (REPLACEMENT + x)[i];
  }

  /**
   * An ill-formed string is a prefix of its own lossy form only if it stops
   * inside the bytes of U+FFFD itself.
   */
  lemma LossyExtends(s: Bytes)
    requires !Valid(s) && s <= Lossy(s)
    ensures Lossy(s) == s + [0xBD] || Lossy(s) == s + [0xBF, 0xBD]
  {
    var p, r := FirstFault(s);
    ValidPrefix(p, r);
    var x := Lossy(r[First(r).size..]);
    CancelPrefix(p, r, REPLACEMENT + x);
    FaultInsideReplacement(r, x);
    assert Lossy(s) == p + REPLACEMENT;
  }
}
