/** What the op log stores and reads back, byte by byte and character by character. */
module OpLogTexts {
  import opened Common
  import opened Utf8
  import opened Utf8Scalars
  import opened Operations
  import opened OpLogView
  import opened OpLogStore

  // ------------------------------------------------------------------- numbers

  function Power(i: nat): (r: nat)
    ensures r > 0
  {
    if i == 0 then 1 else 128 * Power(i - 1)
  }

  lemma QuotientIs(m: nat, q: nat, r: nat)
    requires r < m
    ensures (m * q + r) / m == q
  {
    var d := (m * q + r) / m;
    assert m * d <= m * q + r < m * (d + 1);
    assert d < q ==> m * (d + 1) <= m * q;
    assert d > q ==> m * d >= m * (q + 1);
  }

  lemma DivideTwice(n: nat, m: nat)
    requires m > 0
    ensures n / 128 / m == n / (128 * m)
  {
    var h := n / 128;
    var q, r := h / m, h % m;
    assert h == m * q + r;
    Regrouped(m, q, r, n % 128);
    QuotientIs(128 * m, q, 128 * r + n % 128);
  }

  lemma Regrouped(m: nat, q: nat, r: nat, l: nat)
    ensures 128 * (m * q + r) + l == (128 * m) * q + (128 * r + l)
  {
  }

  /** A number is stored in base 128, low digit first, with 128 added to every digit but the last. */
  lemma {:induction false} VarintDigit(n: nat, i: nat)
    requires i < |Varint(n)|
    ensures Varint(n)[i] == n / Power(i) % 128 + if i + 1 < |Varint(n)| then 128 else 0
    ensures i + 1 == |Varint(n)| ==> n / Power(i) < 128
    decreases n
  {
    if n >= 128 && i > 0 {
      VarintDigit(n / 128, i - 1);
      DivideTwice(n, Power(i - 1));
    }
  }

  // ---------------------------------------------------------------- operations

  /** The bytes of a put of a short key and a short value. */
  lemma PutBytes(key: Text, value: Bytes)
    requires |key| < 128 && |value| < 128
    ensures Encode(PutOp(key, value)) == [1, |key|] + key + [3, 80, 85, 84, |value|] + value + [0]
  {
    PutLayout(key, value);
    assert Sized(PUT) == [3, 80, 85, 84];
    assert EncodeKey(Some(key)) == [1, |key|] + key;
    RunTogether(|key|, key, [3, 80, 85, 84], |value|, value);
  }

  lemma RunTogether(m: u8, key: Bytes, name: Bytes, n: u8, value: Bytes)
    ensures [1, m] + key + (name + ([n] + value + [0])) == [1, m] + key + (name + [n]) + value + [0]
  {
    Associate([1, m] + key, name, [n] + value + [0]);
    Associate([1, m] + key + name, [n], value + [0]);
    Associate([n], value, [0]);
    Associate([1, m] + key, name, [n]);
    Associate([1, m] + key + (name + [n]), value, [0]);
  }

  /** The bytes of a deletion of a short key. */
  lemma DeleteBytes(key: Text)
    requires |key| < 128
    ensures Encode(DeleteOp(key)) == [1, |key|] + key + [6, 68, 69, 76, 69, 84, 69, 0, 0]
  {
    DeleteLayout(key);
    assert Sized(DELETE) == [6, 68, 69, 76, 69, 84, 69];
  }

  /** Text of fewer than 128 bytes, whatever its characters, is stored and read back. */
  lemma ShortTextIsKept(log: seq<Bytes>, key: seq<Char>, value: seq<Char>)
    requires |EncodeText(key)| < 128 && |EncodeText(value)| < 128
    ensures Valid(EncodeText(key))
    ensures Scan(Decode, log + [Payload(PutOp(EncodeText(key), EncodeText(value)))], EncodeText(key))
            == Some(EncodeText(value))
  {
    var k, v := EncodeText(key), EncodeText(value);
    TextIsValid(key);
    TextIsValid(value);
    AsciiByteIsValid(|k|);
    AsciiByteIsValid(|v|);
    GoodPut(k, v);
    assert (log + [Payload(PutOp(k, v))])[..|log|] == log;
  }

  // -------------------------------------------------------------- one more payload

  /** What one more payload does to the reading of a key, for each thing it can decode to. */
  lemma NewestDecides(log: seq<Bytes>, payload: Bytes, k: Text)
    ensures var before, after := Scan(Decode, log, k), Scan(Decode, log + [payload], k);
            match Decode(payload)
            case None => after == before
            case Some(o) =>
              && (o.key == Some(k) && o.op == [80, 85, 84] ==> after == Some(o.value))
              && (o.key == Some(k) && o.op == [68, 69, 76, 69, 84, 69] ==> after == None)
              && (o.key != Some(k) || (o.op != [80, 85, 84] && o.op != [68, 69, 76, 69, 84, 69]) ==> after == before)
  {
    assert (log + [payload])[..|log|] == log;
  }
}
