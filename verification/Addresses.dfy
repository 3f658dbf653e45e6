/** Database addresses: a root hash in hexadecimal and a path, printed and parsed. */
module Addresses {
  import opened Common
  import Keys

  const PREFIX: string := "/GuardianDB/"
  const HASH_LEN: nat := 32

  /** A content hash: 32 bytes. */
  type Hash = b: Bytes | |b| == HASH_LEN witness seq(HASH_LEN, _ => 0)

  datatype Address = Address(root: Hash, path: string)

  // ------------------------------------------------------------------ hexadecimal

  function HexDigit(n: int): char
    requires 0 <= n < 16
  {
    if n < 10 then (48 + n) as char else (87 + n) as char
  }

  /** The value of a hexadecimal digit of either case. */
  function DigitValue(c: char): (r: Option<int>)
    ensures r.Some? ==> 0 <= r.value < 16
  {
    if '0' <= c <= '9' then Some(c as int - 48)
    else if 'a' <= c <= 'f' then Some(c as int - 87)
    else if 'A' <= c <= 'F' then Some(c as int - 55)
    else None
  }

  function HexEncode(b: Bytes): (r: string)
    ensures |r| == 2 * |b|
  {
    if b == [] then [] else [HexDigit(b[0] / 16), HexDigit(b[0] % 16)] + HexEncode(b[1..])
  }

  function HexDecode(s: string): (r: Option<Bytes>)
    ensures r.Some? ==> 2 * |r.value| == |s|
  {
    if s == [] then Some([])
    else if |s| == 1 then None
    else
      var hi, lo, rest := DigitValue(s[0]), DigitValue(s[1]), HexDecode(s[2..]);
      if hi.Some? && lo.Some? && rest.Some? then Some([16 * hi.value + lo.value] + rest.value) else None
  }

  predicate LowerHex(s: string) {
    forall i :: 0 <= i < |s| ==> '0' <= s[i] <= '9' || 'a' <= s[i] <= 'f'
  }

  lemma DigitReadBack(n: int)
    requires 0 <= n < 16
    ensures DigitValue(HexDigit(n)) == Some(n) && LowerHex([HexDigit(n)])
  {
  }

  lemma {:induction false} HexReadBack(b: Bytes)
    ensures HexDecode(HexEncode(b)) == Some(b) && LowerHex(HexEncode(b))
  {
    if b != [] {
      HexReadBack(b[1..]);
      DigitReadBack(b[0] / 16);
      DigitReadBack(b[0] % 16);
      assert b == [16 * (b[0] / 16) + b[0] % 16] + b[1..];
      var s := HexEncode(b);
      assert s[2..] == HexEncode(b[1..]);
      assert LowerHex([s[0]]) && LowerHex([s[1]]) && [s[0]][0] == s[0] && [s[1]][0] == s[1];
      forall i | 0 <= i < |s| ensures '0' <= s[i] <= '9' || 'a' <= s[i] <= 'f' {
        if i >= 2 {
          assert s[i] == s[2..][i - 2];
        }
      }
    }
  }

  /** Encoding a decoded text gives it back exactly when it was lowercase. */
  lemma {:induction false} HexPrintsBackIff(s: string)
    requires HexDecode(s).Some?
    ensures HexEncode(HexDecode(s).value) == s <==> LowerHex(s)
  {
    if s != [] {
      HexPrintsBackIff(s[2..]);
      var b := HexDecode(s).value;
      assert b[1..] == HexDecode(s[2..]).value;
      assert b[0] / 16 == DigitValue(s[0]).value && b[0] % 16 == DigitValue(s[1]).value;
      assert s == [s[0], s[1]] + s[2..];
      assert LowerHex(s) <==> LowerHex([s[0], s[1]]) && LowerHex(s[2..]);
    }
  }

  // ----------------------------------------------------------------- print and parse

  function Display(a: Address): string {
    var base := PREFIX + HexEncode(a.root);
    if a.path == "" then base else base + "/" + a.path
  }

  function StripPrefix(s: string): string {
    if PREFIX <= s then s[|PREFIX|..] else s
  }

  /** The text before the first slash. */
  function HashPart(s: string): string {
    if s == "" || s[0] == '/' then "" else [s[0]] + HashPart(s[1..])
  }

  /** The text after the first slash, or nothing. */
  function PathPart(s: string): string {
    if s == "" then "" else if s[0] == '/' then s[1..] else PathPart(s[1..])
  }

  function IsValid(s: string): Result<(), string> {
    if Keys.Trim(s) == "" then Err("Address cannot be empty")
    else
      var trimmed := StripPrefix(s);
      if trimmed == "" then Err("only the GuardianDB prefix found")
      else
        var hash := HashPart(trimmed);
        if hash == "" then Err("hash cannot be empty")
        else if |hash| != 2 * HASH_LEN then Err("hash must be 64 hex characters")
        else if HexDecode(hash).None? then Err("invalid hex hash")
        else Ok(())
  }

  function Parse(s: string): Result<Address, string> {
    if IsValid(s).Err? then Err("Not a valid GuardianDB address")
    else
      var trimmed := StripPrefix(s);
      match HexDecode(HashPart(trimmed))
      case None => Err("could not decode the hash")
      case Some(bytes) =>
        if |bytes| != HASH_LEN then Err("hash must be 32 bytes") else Ok(Address(bytes, PathPart(trimmed)))
  }

  /** The validity test accepts exactly what parses. */
  lemma ValidIffParses(s: string)
    ensures IsValid(s).Ok? <==> Parse(s).Ok?
  {
  }

  lemma {:induction false} PartsOf(hash: string, rest: string)
    requires '/' !in hash && (rest == "" || rest[0] == '/')
    ensures HashPart(hash + rest) == hash
    ensures PathPart(hash + rest) == if rest == "" then "" else rest[1..]
  {
    if hash == "" {
      assert hash + rest == rest;
    } else {
      PartsOf(hash[1..], rest);
      assert (hash + rest)[1..] == hash[1..] + rest;
      assert hash == [hash[0]] + hash[1..];
    }
  }

  lemma {:induction false} PartsJoin(s: string)
    ensures '/' !in HashPart(s)
    ensures s == HashPart(s) || s == HashPart(s) + "/" + PathPart(s)
    ensures s == HashPart(s) ==> PathPart(s) == ""
  {
    if s != "" {
      if s[0] == '/' {
        assert s == [] + "/" + s[1..];
      } else {
        PartsJoin(s[1..]);
        assert s == [s[0]] + s[1..];
      }
    }
  }

  lemma {:induction false} TrimOfVisible(s: string, i: nat)
    requires i < |s| && !Keys.IsWhite(s[i])
    ensures Keys.Trim(s) != ""
  {
    LeftKeeps(s, i);
    var t := Keys.TrimLeft(s);
    var j :| 0 <= j < |t| && t[j] == s[i];
    RightKeeps(t, j);
  }

  lemma {:induction false} LeftKeeps(s: string, i: nat)
    requires i < |s| && !Keys.IsWhite(s[i])
    ensures s[i] in Keys.TrimLeft(s)
  {
    if Keys.IsWhite(s[0]) {
      LeftKeeps(s[1..], i - 1);
    }
  }

  lemma {:induction false} RightKeeps(s: string, i: nat)
    requires i < |s| && !Keys.IsWhite(s[i])
    ensures Keys.TrimRight(s) != ""
  {
    if Keys.IsWhite(s[|s| - 1]) {
      RightKeeps(s[..|s| - 1], i);
    }
  }

  lemma HexHasNoSlash(b: Bytes)
    ensures '/' !in HexEncode(b)
  {
    HexReadBack(b);
  }

  /** The text Display prints after the prefix. */
  function Body(a: Address): string {
    HexEncode(a.root) + if a.path == "" then "" else "/" + a.path
  }

  lemma DisplayIsBody(a: Address)
    ensures Display(a) == PREFIX + Body(a)
  {
    if a.path == "" {
      assert Body(a) == HexEncode(a.root);
    } else {
      assert PREFIX + HexEncode(a.root) + "/" + a.path == PREFIX + (HexEncode(a.root) + ("/" + a.path));
    }
  }

  /** Every address is read back from its printed form, whatever its path. */
  lemma ParseDisplay(a: Address)
    ensures Parse(Display(a)) == Ok(a)
  {
    var s, hash := Display(a), HexEncode(a.root);
    DisplayIsBody(a);
    assert s[|PREFIX|..] == Body(a) && PREFIX <= s;
    HexReadBack(a.root);
    HexHasNoSlash(a.root);
    PartsOf(hash, if a.path == "" then "" else "/" + a.path);
    assert s[0] == '/';
    TrimOfVisible(s, 0);
  }

  /** Printing what was parsed is canonical: it parses to the same address again. */
  lemma DisplayIsCanonical(s: string)
    requires Parse(s).Ok?
    ensures Parse(Display(Parse(s).value)) == Parse(s)
  {
    ParseDisplay(Parse(s).value);
  }

  /**
   * A text prints back unchanged exactly when it is canonical already: it has
   * the prefix, its hash is lowercase, and no slash ends it with an empty path.
   */
  lemma PrintsBackIff(s: string)
    requires Parse(s).Ok?
    ensures Display(Parse(s).value) == s
            <==> && PREFIX <= s && LowerHex(HashPart(s[|PREFIX|..]))
                 && (PathPart(s[|PREFIX|..]) != "" || '/' !in s[|PREFIX|..])
  {
    var a := Parse(s).value;
    DisplayIsBody(a);
    if PREFIX <= s {
      var t := s[|PREFIX|..];
      assert s == PREFIX + t;
      assert Display(a) == s <==> Body(a) == t by {
        assert Display(a)[|PREFIX|..] == Body(a);
      }
      BodyPrintsBackIff(t, a);
    } else {
      assert PREFIX <= Display(a);
    }
  }

  lemma BodyPrintsBackIff(t: string, a: Address)
    requires HexDecode(HashPart(t)) == Some(a.root) && a.path == PathPart(t)
    ensures Body(a) == t <==> LowerHex(HashPart(t)) && (PathPart(t) != "" || '/' !in t)
  {
    PartsJoin(t);
    HexPrintsBackIff(HashPart(t));
    HexHasNoSlash(a.root);
    TextEqualsIff(HexEncode(a.root), HashPart(t), a.path, t);
  }

  /** Comparing a printed hash and path with a text of given parts. */
  lemma TextEqualsIff(hex: string, hash: string, path: string, t: string)
    requires '/' !in hex && '/' !in hash
    requires t == hash + "/" + path || (t == hash && path == "")
    ensures hex + (if path == "" then "" else "/" + path) == t <==> hex == hash && (path != "" || '/' !in t)
  {
    if path == "" {
      assert hex + "" == hex;
      if t != hash {
        assert t[|hash|] == '/';
      }
    } else {
      assert t == hash + ("/" + path);
      SameSuffix(hex, hash, "/" + path);
    }
  }

  lemma SameSuffix(x: string, y: string, r: string)
    ensures x + r == y + r <==> x == y
  {
    if x + r == y + r {
      assert |x| == |y|;
      assert x == (x + r)[..|x|] == (y + r)[..|y|] == y;
    }
  }
}
