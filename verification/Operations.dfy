/** Log operations and their binary form: length-prefixed fields, lengths as base-128 varints. */
module Operations {
  import opened Common
  import opened Utf8

  /** Text is held as its UTF-8 bytes. */
  type Text = Bytes

  datatype OpDoc = OpDoc(key: Text, value: Bytes)

  datatype Operation = Operation(key: Option<Text>, op: Text, value: Bytes, docs: seq<OpDoc>)

  const PUT: Text := [80, 85, 84]
  const DELETE: Text := [68, 69, 76, 69, 84, 69]

  function Varint(n: nat): (r: Bytes)
    ensures r != []
  {
    if n < 128 then [n] else [128 + n % 128] + Varint(n / 128)
  }

  /** A number and the bytes after it. */
  function ReadVarint(s: Bytes): (r: Option<(nat, Bytes)>)
    ensures r.Some? ==> |r.value.1| < |s|
  {
    if s == [] then None
    else if s[0] < 128 then Some((s[0], s[1..]))
    else match ReadVarint(s[1..])
      case None => None
      case Some(pair) => Some((s[0] - 128 + 128 * pair.0, pair.1))
  }

  function Sized(b: Bytes): Bytes {
    Varint(|b|) + b
  }

  function ReadSized(s: Bytes): (r: Option<(Bytes, Bytes)>)
    ensures r.Some? ==> |r.value.1| < |s|
  {
    match ReadVarint(s)
    case None => None
    case Some(pair) => if pair.0 <= |pair.1| then Some((pair.1[..pair.0], pair.1[pair.0..])) else None
  }

  function ReadText(s: Bytes): (r: Option<(Text, Bytes)>)
    ensures r.Some? ==> |r.value.1| < |s|
  {
    match ReadSized(s)
    case None => None
    case Some(pair) => if Valid(pair.0) then Some(pair) else None
  }

  function EncodeDocs(docs: seq<OpDoc>): Bytes {
    if docs == [] then [] else Sized(docs[0].key) + Sized(docs[0].value) + EncodeDocs(docs[1..])
  }

  function ReadDocs(s: Bytes, n: nat): Option<seq<OpDoc>>
    decreases |s|
  {
    if n == 0 then Some([])
    else match ReadText(s)
      case None => None
      case Some(key) =>
        match ReadSized(key.1)
        case None => None
        case Some(value) =>
          match ReadDocs(value.1, n - 1)
          case None => None
          case Some(docs) => Some([OpDoc(key.0, value.0)] + docs)
  }

  function EncodeKey(key: Option<Text>): Bytes {
    match key
    case None => [0]
    case Some(k) => [1] + Sized(k)
  }

  function Encode(o: Operation): Bytes {
    EncodeKey(o.key) + (Sized(o.op) + (Sized(o.value) + (Varint(|o.docs|) + EncodeDocs(o.docs))))
  }

  function ReadKey(s: Bytes): Option<(Option<Text>, Bytes)> {
    if s == [] || s[0] > 1 then None
    else if s[0] == 0 then Some((None, s[1..]))
    else match ReadText(s[1..])
      case None => None
      case Some(pair) => Some((Some(pair.0), pair.1))
  }

  /** The fields after the key. */
  function ReadBody(key: Option<Text>, s: Bytes): Option<Operation> {
    match ReadText(s)
    case None => None
    case Some(op) => ReadTail(key, op.0, op.1)
  }

  function ReadTail(key: Option<Text>, op: Text, s: Bytes): Option<Operation> {
    match ReadSized(s)
    case None => None
    case Some(value) =>
      match ReadVarint(value.1)
      case None => None
      case Some(n) =>
        match ReadDocs(n.1, n.0)
        case None => None
        case Some(docs) => Some(Operation(key, op, value.0, docs))
  }

  /** Bytes left over at the end are ignored. */
  function Decode(s: Bytes): Option<Operation> {
    match ReadKey(s)
    case None => None
    case Some(key) => ReadBody(key.0, key.1)
  }

  // ----------------------------------------------------------------- round trip

  lemma {:induction false} VarintReadBack(n: nat, rest: Bytes)
    ensures ReadVarint(Varint(n) + rest) == Some((n, rest))
  {
    var s := Varint(n) + rest;
    if n < 128 {
      assert s[1..] == rest;
    } else {
      VarintReadBack(n / 128, rest);
      assert s[1..] == Varint(n / 128) + rest;
    }
  }

  lemma SizedReadBack(b: Bytes, rest: Bytes)
    ensures ReadSized(Sized(b) + rest) == Some((b, rest))
  {
    VarintReadBack(|b|, b + rest);
    assert Sized(b) + rest == Varint(|b|) + (b + rest);
    assert (b + rest)[..|b|] == b && (b + rest)[|b|..] == rest;
  }

  lemma {:induction false} DocsReadBack(docs: seq<OpDoc>, rest: Bytes)
    requires forall d :: d in docs ==> Valid(d.key)
    ensures ReadDocs(EncodeDocs(docs) + rest, |docs|) == Some(docs)
  {
    if docs != [] {
      var more := EncodeDocs(docs[1..]) + rest;
      var tail := Sized(docs[0].value) + more;
      Associate(Sized(docs[0].key) + Sized(docs[0].value), EncodeDocs(docs[1..]), rest);
      Associate(Sized(docs[0].key), Sized(docs[0].value), more);
      SizedReadBack(docs[0].key, tail);
      SizedReadBack(docs[0].value, more);
      DocsReadBack(docs[1..], rest);
      assert docs == [OpDoc(docs[0].key, docs[0].value)] + docs[1..];
    }
  }

  predicate WellFormed(o: Operation) {
    (o.key.Some? ==> Valid(o.key.value)) && Valid(o.op) && forall d :: d in o.docs ==> Valid(d.key)
  }

  lemma KeyReadBack(key: Option<Text>, rest: Bytes)
    requires key.Some? ==> Valid(key.value)
    ensures ReadKey(EncodeKey(key) + rest) == Some((key, rest))
  {
    if key.Some? {
      SizedReadBack(key.value, rest);
      Associate([1], Sized(key.value), rest);
      ConsTail(1, Sized(key.value) + rest);
    } else {
      ConsTail(0, rest);
    }
  }

  lemma TailReadBack(key: Option<Text>, op: Text, value: Bytes, docs: seq<OpDoc>)
    requires forall d :: d in docs ==> Valid(d.key)
    ensures ReadTail(key, op, Sized(value) + (Varint(|docs|) + EncodeDocs(docs)))
            == Some(Operation(key, op, value, docs))
  {
    SizedReadBack(value, Varint(|docs|) + EncodeDocs(docs));
    VarintReadBack(|docs|, EncodeDocs(docs));
    DocsReadBack(docs, []);
    assert EncodeDocs(docs) + [] == EncodeDocs(docs);
  }

  lemma DecodeEncode(o: Operation)
    requires WellFormed(o)
    ensures Decode(Encode(o)) == Some(o)
  {
    var tail := Sized(o.value) + (Varint(|o.docs|) + EncodeDocs(o.docs));
    KeyReadBack(o.key, Sized(o.op) + tail);
    SizedReadBack(o.op, tail);
    TailReadBack(o.key, o.op, o.value, o.docs);
  }

  // ------------------------------------------------- varints through lossy text

  /** A varint of more than one byte: high bytes, then one that is neither high nor zero. */
  lemma {:induction false} VarintShape(n: nat) returns (high: Bytes, low: u8)
    ensures Varint(n) == high + [low] && AllHigh(high) && low < 128
    ensures high != [] ==> low != 0
    ensures n > 0 ==> low != 0
    decreases n
  {
    if n < 128 {
      high, low := [], n;
    } else {
      high, low := VarintShape(n / 128);
      high := [128 + n % 128] + high;
    }
  }

  /** Bytes of that shape are the varint of the number read from them. */
  lemma {:induction false} ShapeIsCanonical(high: Bytes, low: u8, rest: Bytes)
    requires AllHigh(high) && 0 < low < 128
    ensures ReadVarint(high + [low] + rest).Some?
    ensures var n := ReadVarint(high + [low] + rest).value.0; n > 0 && Varint(n) == high + [low]
  {
    var s := high + [low] + rest;
    if high != [] {
      ShapeIsCanonical(high[1..], low, rest);
      assert s[1..] == high[1..] + [low] + rest;
      var m := ReadVarint(s[1..]).value.0;
      var n := high[0] - 128 + 128 * m;
      assert n / 128 == m && n % 128 == high[0] - 128;
      assert high == [high[0]] + high[1..];
    }
  }

  lemma AsciiByteIsValid(low: u8)
    requires low < 128
    ensures Valid([low])
  {
    assert First([low]) == Good(1) && [low][1..] == [];
  }

  lemma LossyAroundByte(high: Bytes, low: u8, rest: Bytes)
    requires low < 128
    ensures Lossy(high + [low] + rest) == Lossy(high) + [low] + Lossy(rest)
    ensures Valid(high + [low] + rest) <==> Valid(high) && Valid(rest)
  {
    AsciiByteIsValid(low);
    ValidPrefix([low], rest);
    AsciiBoundary(high, [low] + rest);
    assert high + [low] + rest == high + ([low] + rest);
  }

  /** A well-formed varint ends with an ASCII byte, so what follows stands alone. */
  lemma VarintThenRest(n: nat, rest: Bytes)
    ensures Valid(Varint(n) + rest) <==> Valid(Varint(n)) && Valid(rest)
  {
    var high, low := VarintShape(n);
    LossyAroundByte(high, low, rest);
    LossyAroundByte(high, low, []);
    assert Varint(n) == high + [low] + [];
  }

  /** An ill-formed varint reads back as another number once made lossy. */
  lemma LossyVarintDiffers(n: nat, rest: Bytes)
    requires !Valid(Varint(n))
    ensures ReadVarint(Lossy(Varint(n) + rest)).Some? ==> ReadVarint(Lossy(Varint(n) + rest)).value.0 != n
  {
    var high, low := VarintShape(n);
    LossyAroundByte(high, low, rest);
    LossyAroundByte(high, low, []);
    assert Varint(n) == high + [low] + [] && !Valid(high);
    LossyOfHigh(high);
    LossyKeepsOnlyValid(high);
    ShapeIsCanonical(Lossy(high), low, Lossy(rest));
    assert Lossy(high) + [low] != high + [low] by {
      assert (Lossy(high) + [low])[..|Lossy(high)|] == Lossy(high);
      assert (high + [low])[..|high|] == high;
    }
  }
}
