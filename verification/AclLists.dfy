/** Lists of identities in their stored form, and what is left of them after the op log's text conversion. */
module AclLists {
  import opened Common
  import opened Utf8
  import opened Operations
  import opened OpLogView
  import opened OpLogStore

  function EncodeIds(ids: seq<Text>): Bytes {
    if ids == [] then [] else Sized(ids[0]) + EncodeIds(ids[1..])
  }

  function EncodeList(ids: seq<Text>): Bytes {
    Varint(|ids|) + EncodeIds(ids)
  }

  function ReadIds(s: Bytes, n: nat): Option<seq<Text>>
    decreases n
  {
    if n == 0 then Some([])
    else match ReadText(s)
      case None => None
      case Some(id) =>
        match ReadIds(id.1, n - 1)
        case None => None
        case Some(ids) => Some([id.0] + ids)
  }

  /** Bytes left over at the end are ignored. */
  function DecodeList(s: Bytes): Option<seq<Text>> {
    match ReadVarint(s)
    case None => None
    case Some(n) => ReadIds(n.1, n.0)
  }

  predicate AllText(ids: seq<Text>) {
    forall i :: 0 <= i < |ids| ==> Valid(ids[i])
  }

  // ----------------------------------------------------------------- round trip

  lemma {:induction false} IdsReadBack(ids: seq<Text>)
    requires AllText(ids)
    ensures ReadIds(EncodeIds(ids), |ids|) == Some(ids)
  {
    if ids != [] {
      SizedReadBack(ids[0], EncodeIds(ids[1..]));
      IdsReadBack(ids[1..]);
      assert ids == [ids[0]] + ids[1..];
    }
  }

  lemma ListReadBack(ids: seq<Text>)
    requires AllText(ids)
    ensures DecodeList(EncodeList(ids)) == Some(ids)
  {
    VarintReadBack(|ids|, EncodeIds(ids));
    IdsReadBack(ids);
  }

  lemma {:induction false} DecodedIsText(s: Bytes, n: nat)
    ensures ReadIds(s, n).Some? ==> AllText(ReadIds(s, n).value)
    decreases n
  {
    if n > 0 && ReadText(s).Some? {
      DecodedIsText(ReadText(s).value.1, n - 1);
    }
  }

  /** The bytes of a list with one more short identity at its front. */
  lemma IdsBytes(id: Text, ids: seq<Text>)
    requires |id| < 128
    ensures EncodeIds([id] + ids) == [|id|] + id + EncodeIds(ids)
  {
    ConsTail(id, ids);
  }

  /** A list of fewer than 128 identities starts with their number. */
  lemma ListBytes(ids: seq<Text>)
    requires |ids| < 128
    ensures EncodeList(ids) == [|ids|] + EncodeIds(ids) && EncodeIds([]) == []
  {
  }

  // ------------------------------------------------- numbers inside a longer text

  /** A number is read the same from a longer text. */
  lemma {:induction false} ReadFromPrefix(v: Bytes, w: Bytes)
    requires v <= w && ReadVarint(v).Some?
    ensures ReadVarint(w).Some? && ReadVarint(w).value.0 == ReadVarint(v).value.0
    ensures ReadVarint(v).value.1 <= ReadVarint(w).value.1
    ensures |v| - |ReadVarint(v).value.1| == |w| - |ReadVarint(w).value.1|
  {
    if v[0] >= 128 {
      ReadFromPrefix(v[1..], w[1..]);
    }
  }

  lemma {:induction false} ReadPastHigh(high: Bytes, low: u8, rest: Bytes)
    requires AllHigh(high) && low < 128
    ensures ReadVarint(high + [low] + rest).Some? && ReadVarint(high + [low] + rest).value.1 == rest
  {
    var s := high + [low] + rest;
    if high == [] {
      assert s[1..] == rest;
    } else {
      ReadPastHigh(high[1..], low, rest);
      assert s[1..] == high[1..] + [low] + rest;
    }
  }

  /** A length prefix made lossy is still one number, and what follows it is made lossy on its own. */
  lemma LossyPrefixReads(n: nat, rest: Bytes)
    ensures var read := ReadVarint(Lossy(Varint(n) + rest));
            read.Some? && read.value.1 == Lossy(rest) && (read.value.0 == n <==> Valid(Varint(n)))
  {
    var high, low := VarintShape(n);
    LossyAroundByte(high, low, rest);
    LossyOfHigh(high);
    ReadPastHigh(Lossy(high), low, Lossy(rest));
    if Valid(Varint(n)) {
      ValidPrefix(Varint(n), rest);
      VarintReadBack(n, Lossy(rest));
    } else {
      LossyVarintDiffers(n, rest);
    }
  }

  lemma PrefixOfPrefix<T>(a: seq<T>, b: seq<T>, tail: seq<T>)
    requires a == b
    ensures b <= a + tail
  {
  }

  /** Where a prefix of a lossy text still reads as the number encoded there, the number came through unchanged. */
  lemma NumberCameThrough(n: nat, rest: Bytes, tail: Bytes, v: Bytes)
    requires v <= Lossy(Varint(n) + rest) + tail && ReadVarint(v).Some? && ReadVarint(v).value.0 == n
    ensures Valid(Varint(n))
    ensures ReadVarint(v).value.1 <= Lossy(rest) + tail && |v| == |Varint(n)| + |ReadVarint(v).value.1|
  {
    var text := Lossy(Varint(n) + rest);
    LossyPrefixReads(n, rest);
    PrefixOfPrefix(text, text, tail);
    ReadFromPrefix(text, text + tail);
    ReadFromPrefix(v, text + tail);
    ValidPrefix(Varint(n), rest);
    Associate(Varint(n), Lossy(rest), tail);
    VarintReadBack(n, Lossy(rest) + tail);
  }

  // ------------------------------------------------ lists that read as they were

  lemma TextThenRest(id: Text, rest: Bytes)
    requires Valid(id)
    ensures Lossy(id + rest) == id + Lossy(rest)
    ensures Valid(id + rest) <==> Valid(rest)
  {
    ValidPrefix(id, rest);
  }

  lemma DropPrefix<T>(v: seq<T>, a: seq<T>, b: seq<T>)
    requires |a| <= |v| && v <= a + b
    ensures v[..|a|] == a && v[|a|..] <= b
  {
  }

  /** The first identity of a list that still reads as it was came through unchanged. */
  lemma FirstCameThrough(id: Text, rest: Bytes, tail: Bytes, v: Bytes)
    requires Valid(id) && v <= Lossy(Sized(id) + rest) + tail
    requires ReadText(v).Some? && ReadText(v).value.0 == id
    ensures Valid(Varint(|id|)) && ReadText(v).value.1 <= Lossy(rest) + tail
    ensures |v| == |Sized(id)| + |ReadText(v).value.1|
  {
    assert Sized(id) + rest == Varint(|id|) + (id + rest);
    NumberCameThrough(|id|, id + rest, tail, v);
    TextThenRest(id, rest);
    Associate(id, Lossy(rest), tail);
    DropPrefix(ReadVarint(v).value.1, id, Lossy(rest) + tail);
  }

  lemma {:induction false} IdsCameThrough(ids: seq<Text>, tail: Bytes, v: Bytes)
    requires AllText(ids) && v <= Lossy(EncodeIds(ids)) + tail && ReadIds(v, |ids|) == Some(ids)
    ensures Valid(EncodeIds(ids)) && |EncodeIds(ids)| <= |v|
    decreases |ids|
  {
    if ids != [] {
      var rest := EncodeIds(ids[1..]);
      FirstIsRead(ids, v);
      FirstCameThrough(ids[0], rest, tail, v);
      IdsCameThrough(ids[1..], tail, ReadText(v).value.1);
      SizedThenRest(ids[0], rest);
    }
  }

  lemma SizedThenRest(id: Text, rest: Bytes)
    requires Valid(Varint(|id|)) && Valid(id) && Valid(rest)
    ensures Valid(Sized(id) + rest)
  {
    SizedValid(id);
    ValidPrefix(Sized(id), rest);
  }

  lemma FirstIsRead(ids: seq<Text>, v: Bytes)
    requires ids != [] && ReadIds(v, |ids|) == Some(ids)
    ensures ReadText(v).Some? && ReadText(v).value.0 == ids[0]
    ensures ReadIds(ReadText(v).value.1, |ids| - 1) == Some(ids[1..])
  {
    var id := ReadText(v).value;
    var more := ReadIds(id.1, |ids| - 1).value;
    assert ([id.0] + more)[0] == id.0 && ([id.0] + more)[1..] == more;
  }

  /** A list that is still read from the lossy form of its bytes was well-formed text, and is all there. */
  lemma ListCameThrough(ids: seq<Text>, tail: Bytes, v: Bytes)
    requires AllText(ids) && v <= Lossy(EncodeList(ids)) + tail && DecodeList(v) == Some(ids)
    ensures Valid(EncodeList(ids)) && |EncodeList(ids)| <= |v|
  {
    CountIsRead(ReadVarint(v).value.1, ReadVarint(v).value.0);
    NumberCameThrough(|ids|, EncodeIds(ids), tail, v);
    IdsCameThrough(ids, tail, ReadVarint(v).value.1);
    ValidPrefix(Varint(|ids|), EncodeIds(ids));
  }

  lemma {:induction false} CountIsRead(s: Bytes, n: nat)
    ensures ReadIds(s, n).Some? ==> |ReadIds(s, n).value| == n
    decreases n
  {
    if n > 0 && ReadText(s).Some? {
      CountIsRead(ReadText(s).value.1, n - 1);
    }
  }

  // ---------------------------------------------------------------- stored lists

  /** What the fields after the key and the operation decode to, once the value was made lossy. */
  lemma LossyTailReads(key: Text, value: Bytes)
    ensures var read := ReadTail(Some(key), PUT, Lossy(Sized(value) + [0]));
            read.Some? ==>
              && read.value.key == Some(key) && read.value.op == PUT
              && read.value.value <= Lossy(value) + [0] && |read.value.value| <= |Lossy(value)|
              && (|read.value.value| == |value| <==> Valid(Varint(|value|)))
  {
    assert Sized(value) + [0] == Varint(|value|) + (value + [0]);
    LossyPrefixReads(|value|, value + [0]);
    AsciiBoundary(value, [0]);
    AsciiByteIsValid(0);
    LossyOfValid([0]);
    var rest := Lossy(value) + [0];
    assert Lossy(value + [0]) == rest;
    if |ReadVarint(Lossy(Sized(value) + [0])).value.1| == ReadVarint(Lossy(Sized(value) + [0])).value.0 {
      assert rest[|rest|..] == [];
    }
  }

  /** A put of a list whose bytes do not survive leaves something that does not read as that list. */
  lemma LostList(key: Str, ids: seq<Text>, v: Bytes)
    requires AllText(ids) && !Survives(key, EncodeList(ids))
    requires EffectOn(Decode, Payload(PutOp(key, EncodeList(ids))), key) == Sets(v)
    ensures DecodeList(v) != Some(ids)
  {
    var value := EncodeList(ids);
    PutLayout(key, value);
    if !Valid(Varint(|key|)) {
      BadKeyThroughText(key, Sized(PUT) + (Sized(value) + [0]));
    } else {
      HeadThroughText(key, Sized(value) + [0]);
      DecodePut(key, Lossy(Sized(value) + [0]));
      LossyTailReads(key, value);
      if DecodeList(v) == Some(ids) {
        ListCameThrough(ids, [0], v);
        LossyOfValid(value);
      }
    }
  }

  /** The list a log holds under a key. */
  function ListIn(log: seq<Bytes>, key: Text): Option<seq<Text>> {
    match Scan(Decode, log, key)
    case None => None
    case Some(v) => DecodeList(v)
  }

  /** Exactly when storing a new list under a key takes effect. */
  lemma ListKeptIff(log: seq<Bytes>, key: Str, ids: seq<Text>)
    requires AllText(ids) && ListIn(log, key) != Some(ids)
    ensures ListIn(log + [Payload(PutOp(key, EncodeList(ids)))], key) == Some(ids) <==> Survives(key, EncodeList(ids))
  {
    var payload := Payload(PutOp(key, EncodeList(ids)));
    ListInNext(log, payload, key);
    if Survives(key, EncodeList(ids)) {
      GoodPutSets(key, EncodeList(ids));
      ListReadBack(ids);
    } else if EffectOn(Decode, payload, key).Sets? {
      LostList(key, ids, EffectOn(Decode, payload, key).value);
    }
  }

  lemma ListInNext(log: seq<Bytes>, payload: Bytes, key: Text)
    ensures ListIn(log + [payload], key)
            == match EffectOn(Decode, payload, key)
               case Sets(v) => DecodeList(v)
               case Clears => None
               case Ignores => ListIn(log, key)
  {
    assert (log + [payload])[..|log|] == log;
  }

  lemma GoodPutSets(key: Str, value: Bytes)
    requires Survives(key, value)
    ensures EffectOn(Decode, Payload(PutOp(key, value)), key) == Sets(value)
  {
    GoodPut(key, value);
  }

  /** Lists of 128 to 16383 bytes are always lost. */
  lemma LongListIsLost(key: Str, ids: seq<Text>)
    requires 128 <= |EncodeList(ids)| < 16384
    ensures !Survives(key, EncodeList(ids))
  {
    var n := |EncodeList(ids)|;
    assert Varint(n) == [128 + n % 128, n / 128];
    assert First(Varint(n)).Bad?;
  }

  /** Two identities of 64 bytes, such as public keys in hexadecimal, already make such a list. */
  lemma TwoKeysAreLost(key: Str, a: Text, b: Text)
    requires |a| == 64 && |b| == 64
    ensures !Survives(key, EncodeList([a, b]))
  {
    var ids, last, none: seq<Text> := [a, b], [b], [];
    assert ids[1..] == last && last[1..] == none && EncodeIds(none) == [];
    assert |EncodeIds(last)| == |Sized(b)| == 65 && |EncodeIds(ids)| == 65 + 65;
    LongListIsLost(key, ids);
  }
}
