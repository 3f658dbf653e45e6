/** Which texts are addresses, and of what, letter by letter. */
module AddressForms {
  import opened Common
  import Keys
  import opened Addresses

  const DIGITS: string := "0123456789abcdef"
  const CAPITAL_DIGITS: string := "0123456789ABCDEF"

  lemma DigitIff(c: char, n: int)
    requires 0 <= n < 16
    ensures HexDigit(n) == DIGITS[n]
    ensures DigitValue(c) == Some(n) <==> c == DIGITS[n] || c == CAPITAL_DIGITS[n]
  {
  }

  /** Each byte is printed as two digits, the high one first. */
  lemma {:induction false} HexAt(b: Bytes, i: nat)
    requires i < |b|
    ensures HexEncode(b)[2 * i] == DIGITS[b[i] / 16] && HexEncode(b)[2 * i + 1] == DIGITS[b[i] % 16]
  {
    if i == 0 {
      DigitIff('0', b[0] / 16);
      DigitIff('0', b[0] % 16);
    } else {
      HexAt(b[1..], i - 1);
    }
  }

  predicate HexChar(c: char) {
    '0' <= c <= '9' || 'a' <= c <= 'f' || 'A' <= c <= 'F'
  }

  predicate AllHex(s: string) {
    forall i :: 0 <= i < |s| ==> HexChar(s[i])
  }

  lemma {:induction false} HexDecodesIff(s: string)
    ensures HexDecode(s).Some? <==> |s| % 2 == 0 && AllHex(s)
  {
    if |s| >= 2 {
      HexDecodesIff(s[2..]);
      assert AllHex(s) <==> HexChar(s[0]) && HexChar(s[1]) && AllHex(s[2..]) by {
        assert s == [s[0], s[1]] + s[2..];
      }
    } else if |s| == 1 {
      assert |s| % 2 == 1;
    }
  }

  /** An optional prefix, 64 hexadecimal digits of either case, and nothing or a path behind a slash. */
  predicate AddressForm(prefix: string, hex: string, tail: string) {
    && (prefix == "" || prefix == "/GuardianDB/")
    && |hex| == 64 && AllHex(hex)
    && (tail == "" || tail[0] == '/')
  }

  lemma FormStrips(prefix: string, hex: string, tail: string)
    requires AddressForm(prefix, hex, tail)
    ensures StripPrefix(prefix + hex + tail) == hex + tail && Keys.Trim(prefix + hex + tail) != ""
    ensures '/' !in hex
  {
    var s := prefix + hex + tail;
    assert s[|prefix|] == hex[0] && !Keys.IsWhite(hex[0]);
    TrimOfVisible(s, |prefix|);
    if prefix == "" {
      assert s[0] == hex[0] != PREFIX[0];
    } else {
      assert s == PREFIX + (hex + tail) && s[|PREFIX|..] == hex + tail;
    }
  }

  /** Every text of that form parses, to the hash its digits spell and the path behind the first slash. */
  lemma ParsesTo(prefix: string, hex: string, tail: string)
    requires AddressForm(prefix, hex, tail)
    ensures HexDecode(hex).Some? && |HexDecode(hex).value| == 32
    ensures Parse(prefix + hex + tail) == Ok(Address(HexDecode(hex).value, if tail == "" then "" else tail[1..]))
  {
    FormStrips(prefix, hex, tail);
    HexDecodesIff(hex);
    PartsOf(hex, tail);
  }

  lemma ParsedHasForm(s: string) returns (prefix: string, hex: string, tail: string)
    requires Parse(s).Ok?
    ensures AddressForm(prefix, hex, tail) && s == prefix + hex + tail
  {
    var t := StripPrefix(s);
    prefix := if PREFIX <= s then PREFIX else "";
    hex := HashPart(t);
    PartsJoin(t);
    HexDecodesIff(hex);
    tail := if t == hex then "" else "/" + PathPart(t);
    assert t == hex + tail;
    assert s == prefix + t;
  }

  /** Exactly which texts parse. */
  lemma ParsesIff(s: string)
    ensures Parse(s).Ok? <==> exists prefix, hex, tail :: AddressForm(prefix, hex, tail) && s == prefix + hex + tail
  {
    if Parse(s).Ok? {
      var prefix, hex, tail := ParsedHasForm(s);
    }
    if prefix, hex, tail :| AddressForm(prefix, hex, tail) && s == prefix + hex + tail {
      ParsesTo(prefix, hex, tail);
    }
  }
}
