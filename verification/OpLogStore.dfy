/** The access-control key-value adapter over the op log. */
module OpLogStore {
  import opened Common
  import opened Utf8
  import opened Operations
  import opened OpLogView

  /** Rust strings are well-formed UTF-8. */
  type Str = b: Bytes | Valid(b)

  function PutOp(key: Text, value: Bytes): Operation { Operation(Some(key), PUT, value, []) }

  function DeleteOp(key: Text): Operation { Operation(Some(key), DELETE, [], []) }

  /** The payload kept for an operation: its bytes, passed through a text conversion. */
  function Payload(o: Operation): Bytes { Lossy(Encode(o)) }

  class KeyValueAdapter {
    var log: seq<Bytes>

    constructor ()
      ensures log == []
    {
      log := [];
    }

    method Put(key: Str, value: Bytes) returns (o: Operation)
      modifies this
      ensures o == PutOp(key, value) && log == old(log) + [Payload(o)]
    {
      o := Operation(Some(key), PUT, value, []);
      log := log + [Lossy(Encode(o))];
    }

    method Delete(key: Str) returns (o: Operation)
      modifies this
      ensures o == DeleteOp(key) && log == old(log) + [Payload(o)]
    {
      o := Operation(Some(key), DELETE, [], []);
      log := log + [Lossy(Encode(o))];
    }

    method Get(key: Str) returns (r: Option<Bytes>)
      ensures r == Scan(Decode, log, key)
    {
      r := ScanLog(Decode, log, key);
    }

    method All() returns (result: map<Text, Bytes>)
      ensures result == Fold(Decode, log)
    {
      result := FoldLog(Decode, log);
    }
  }

  // ------------------------------------------- which operations survive the text

  /** Checkable before a put: both length prefixes and the value are well-formed as text. */
  predicate Survives(key: Str, value: Bytes) {
    Valid(Varint(|key|)) && Valid(Varint(|value|)) && Valid(value)
  }

  lemma SizedValid(b: Bytes)
    ensures Valid(Sized(b)) <==> Valid(Varint(|b|)) && Valid(b)
  {
    VarintThenRest(|b|, b);
  }

  lemma {:induction false} AsciiIsValid(s: Bytes)
    requires forall i :: 0 <= i < |s| ==> s[i] < 128
    ensures Valid(s)
  {
    if s != [] {
      AsciiIsValid(s[1..]);
    }
  }

  lemma PutNameIsText()
    ensures Valid(Sized(PUT))
  {
    assert Sized(PUT) == [3, 80, 85, 84];
    AsciiIsValid([3, 80, 85, 84]);
  }

  lemma ReadKeyLength(s: Bytes)
    ensures var read := ReadKey([1] + s);
            read.Some? ==> read.value.0.Some? && ReadVarint(s).Some? && |read.value.0.value| == ReadVarint(s).value.0
  {
    assert ([1] + s)[1..] == s;
  }

  lemma ReadTailLength(key: Option<Text>, op: Text, s: Bytes)
    ensures var read := ReadTail(key, op, s);
            read.Some? ==> ReadVarint(s).Some? && |read.value.value| == ReadVarint(s).value.0
  {
  }

  /** The tag and the key come through the text unchanged when the length prefix is well-formed. */
  lemma GoodKeyThroughText(key: Str, rest: Bytes)
    requires Valid(Varint(|key|))
    ensures Valid(EncodeKey(Some(key)))
    ensures Lossy(EncodeKey(Some(key)) + rest) == EncodeKey(Some(key)) + Lossy(rest)
  {
    AsciiByteIsValid(1);
    SizedValid(key);
    ValidPrefix([1], Sized(key));
    ValidPrefix(EncodeKey(Some(key)), rest);
  }

  lemma LossyTagged(s: Bytes)
    ensures Lossy([1] + s) == [1] + Lossy(s)
  {
    AsciiByteIsValid(1);
    ValidPrefix([1], s);
  }

  lemma KeyLayout(key: Text, rest: Bytes)
    ensures EncodeKey(Some(key)) + rest == [1] + (Varint(|key|) + (key + rest))
  {
    Associate([1], Sized(key), rest);
    Associate(Varint(|key|), key, rest);
  }

  /** Otherwise another key is read, or none. */
  lemma BadKeyThroughText(key: Str, rest: Bytes)
    requires !Valid(Varint(|key|))
    ensures var read := ReadKey(Lossy(EncodeKey(Some(key)) + rest));
            read.Some? ==> read.value.0 != Some(key)
  {
    KeyLayout(key, rest);
    LossyTagged(Varint(|key|) + (key + rest));
    LossyVarintDiffers(|key|, key + rest);
    ReadKeyLength(Lossy(Varint(|key|) + (key + rest)));
  }

  lemma BadLengthThroughText(key: Option<Text>, op: Text, value: Bytes)
    requires !Valid(Varint(|value|))
    ensures var read := ReadTail(key, op, Lossy(Sized(value) + [0]));
            read.Some? ==> read.value.value != value
  {
    assert Sized(value) + [0] == Varint(|value|) + (value + [0]);
    LossyVarintDiffers(|value|, value + [0]);
    ReadTailLength(key, op, Lossy(Sized(value) + [0]));
  }

  lemma TailAfterLength(key: Option<Text>, op: Text, n: nat, rest: Bytes)
    requires n <= |rest|
    ensures var read := ReadTail(key, op, Varint(n) + rest);
            read.Some? ==> read.value.value == rest[..n] && ReadVarint(rest[n..]).Some?
                           && ReadDocs(ReadVarint(rest[n..]).value.1, ReadVarint(rest[n..]).value.0).Some?
  {
    VarintReadBack(n, rest);
  }

  lemma NoDocsLeft(s: Bytes)
    requires s == [0xBD, 0] || s == [0xBF, 0xBD, 0]
    ensures ReadVarint(s).Some? && ReadDocs(ReadVarint(s).value.1, ReadVarint(s).value.0).None?
  {
    var a, b: Bytes := [0xBD, 0], [0];
    assert b[1..] == [] && a[1..] == b && ReadVarint(b) == Some((0, []));
    assert ReadVarint(a) == Some((0x3D, []));
    if s != a {
      assert s[1..] == a;
    }
    assert ReadText([]).None?;
  }

  lemma LossyAfterLength(value: Bytes)
    requires Valid(Varint(|value|))
    ensures Lossy(Sized(value) + [0]) == Varint(|value|) + (Lossy(value) + [0])
  {
    assert Sized(value) + [0] == Varint(|value|) + (value + [0]);
    ValidPrefix(Varint(|value|), value + [0]);
    AsciiBoundary(value, [0]);
    AsciiByteIsValid(0);
    LossyOfValid([0]);
  }

  /** Where an ill-formed value is a prefix of its lossy form, bytes of U+FFFD follow it. */
  lemma ValueOverrun(value: Bytes)
    requires !Valid(value) && value <= Lossy(value) + [0]
    ensures var after := (Lossy(value) + [0])[|value|..];
            after == [0xBD, 0] || after == [0xBF, 0xBD, 0]
  {
    LossyIsValid(value);
    assert Lossy(value)[..|value|] == (Lossy(value) + [0])[..|value|];
    LossyExtends(value);
  }

  /** If the first bytes of the lossy form still spell the value, the document count after it is nonsense. */
  lemma BadValueThroughText(key: Option<Text>, op: Text, value: Bytes)
    requires Valid(Varint(|value|)) && !Valid(value)
    ensures var read := ReadTail(key, op, Lossy(Sized(value) + [0]));
            read.Some? ==> read.value.value != value
  {
    LossyAfterLength(value);
    LossyIsValid(value);
    var rest := Lossy(value) + [0];
    TailAfterLength(key, op, |value|, rest);
    if rest[..|value|] == value {
      ValueOverrun(value);
      NoDocsLeft(rest[|value|..]);
    }
  }

  lemma GoodValueThroughText(value: Bytes)
    requires Valid(Varint(|value|)) && Valid(value)
    ensures Lossy(Sized(value) + [0]) == Sized(value) + [0]
  {
    AsciiByteIsValid(0);
    SizedValid(value);
    ValidPrefix(Sized(value), [0]);
    LossyOfValid([0]);
  }

  lemma PutLayout(key: Text, value: Bytes)
    ensures Encode(PutOp(key, value)) == EncodeKey(Some(key)) + (Sized(PUT) + (Sized(value) + [0]))
  {
    assert Varint(0) + EncodeDocs([]) == [0];
  }

  lemma DeleteLayout(key: Text)
    ensures Encode(DeleteOp(key)) == EncodeKey(Some(key)) + (Sized(DELETE) + [0, 0])
  {
    assert Sized([]) + (Varint(0) + EncodeDocs([])) == [0, 0];
  }

  /** A put whose parts are well-formed text is read back exactly. */
  lemma GoodPut(key: Str, value: Bytes)
    requires Survives(key, value)
    ensures Decode(Payload(PutOp(key, value))) == Some(PutOp(key, value))
  {
    PutLayout(key, value);
    HeadThroughText(key, Sized(value) + [0]);
    GoodValueThroughText(value);
    PutIsWellFormed(key, value);
    DecodeEncode(PutOp(key, value));
  }

  lemma PutIsWellFormed(key: Str, value: Bytes)
    ensures WellFormed(PutOp(key, value)) && WellFormed(DeleteOp(key))
  {
    AsciiIsValid(PUT);
    AsciiIsValid(DELETE);
  }

  lemma HeadThroughText(key: Str, rest: Bytes)
    requires Valid(Varint(|key|))
    ensures Lossy(EncodeKey(Some(key)) + (Sized(PUT) + rest)) == EncodeKey(Some(key)) + (Sized(PUT) + Lossy(rest))
  {
    GoodKeyThroughText(key, Sized(PUT) + rest);
    PutNameIsText();
    ValidPrefix(Sized(PUT), rest);
  }

  lemma DecodePut(key: Str, rest: Bytes)
    ensures Decode(EncodeKey(Some(key)) + (Sized(PUT) + rest)) == ReadTail(Some(key), PUT, rest)
  {
    KeyReadBack(Some(key), Sized(PUT) + rest);
    SizedReadBack(PUT, rest);
    AsciiIsValid(PUT);
  }

  /** Any other put is lost: whatever its payload decodes to does not give `value` to `key`. */
  lemma BadPut(key: Str, value: Bytes)
    requires !Survives(key, value)
    ensures EffectOn(Decode, Payload(PutOp(key, value)), key) != Sets(value)
  {
    PutLayout(key, value);
    if !Valid(Varint(|key|)) {
      BadKeyThroughText(key, Sized(PUT) + (Sized(value) + [0]));
    } else {
      HeadThroughText(key, Sized(value) + [0]);
      DecodePut(key, Lossy(Sized(value) + [0]));
      if !Valid(Varint(|value|)) {
        BadLengthThroughText(Some(key), PUT, value);
      } else {
        BadValueThroughText(Some(key), PUT, value);
      }
    }
  }

  /**
   * Exactly when a put takes effect: both length prefixes and the value must
   * be well-formed UTF-8, because the payload is stored as text.
   */
  lemma PutVisibleIff(log: seq<Bytes>, key: Str, value: Bytes)
    requires Scan(Decode, log, key) != Some(value)
    ensures Scan(Decode, log + [Payload(PutOp(key, value))], key) == Some(value) <==> Survives(key, value)
  {
    var after := log + [Payload(PutOp(key, value))];
    assert after[..|after| - 1] == log;
    if Survives(key, value) {
      GoodPut(key, value);
    } else {
      BadPut(key, value);
    }
  }

  lemma DeleteBodyIsText()
    ensures Lossy(Sized(DELETE) + [0, 0]) == Sized(DELETE) + [0, 0]
  {
    assert Sized(DELETE) + [0, 0] == [6, 68, 69, 76, 69, 84, 69, 0, 0];
    AsciiIsValid([6, 68, 69, 76, 69, 84, 69, 0, 0]);
    LossyOfValid(Sized(DELETE) + [0, 0]);
  }

  lemma GoodDelete(key: Str)
    requires Valid(Varint(|key|))
    ensures Decode(Payload(DeleteOp(key))) == Some(DeleteOp(key))
  {
    DeleteLayout(key);
    DeleteBodyIsText();
    GoodKeyThroughText(key, Sized(DELETE) + [0, 0]);
    PutIsWellFormed(key, []);
    DecodeEncode(DeleteOp(key));
  }

  /** Exactly when deleting a stored key takes effect. */
  lemma DeleteVisibleIff(log: seq<Bytes>, key: Str)
    requires Scan(Decode, log, key).Some?
    ensures Scan(Decode, log + [Payload(DeleteOp(key))], key).None? <==> Valid(Varint(|key|))
  {
    var after := log + [Payload(DeleteOp(key))];
    assert after[..|after| - 1] == log;
    if Valid(Varint(|key|)) {
      GoodDelete(key);
    } else {
      DeleteLayout(key);
      BadKeyThroughText(key, Sized(DELETE) + [0, 0]);
    }
  }

  /** A value of 128 bytes is lost, although every byte of it is plain ASCII. */
  lemma LongValueIsLost(key: Str)
    ensures var value: Bytes := seq(128, _ => 65);
            Scan(Decode, [Payload(PutOp(key, value))], key) != Some(value)
  {
    var value: Bytes := seq(128, _ => 65);
    assert Varint(128) == [128, 1];
    assert First([128, 1]) == Bad(1);
    PutVisibleIff([], key, value);
    assert [] + [Payload(PutOp(key, value))] == [Payload(PutOp(key, value))];
  }

  // -------------------------------------------------------------------- histories

  datatype Command = DoPut(key: Str, value: Bytes) | DoDelete(key: Str)

  function CommandPayload(command: Command): Bytes {
    match command
    case DoPut(key, value) => Payload(PutOp(key, value))
    case DoDelete(key) => Payload(DeleteOp(key))
  }

  predicate CommandSurvives(command: Command) {
    match command
    case DoPut(key, value) => Survives(key, value)
    case DoDelete(key) => Valid(Varint(|key|))
  }

  /** The log after a history of commands. */
  function LogAfter(log: seq<Bytes>, commands: seq<Command>): seq<Bytes> {
    if commands == [] then log
    else LogAfter(log, commands[..|commands| - 1]) + [CommandPayload(commands[|commands| - 1])]
  }

  /** The same history on a plain map. */
  function PlainMap(m: map<Text, Bytes>, commands: seq<Command>): map<Text, Bytes> {
    if commands == [] then m
    else
      var before := PlainMap(m, commands[..|commands| - 1]);
      match commands[|commands| - 1]
      case DoPut(key, value) => before[key := value]
      case DoDelete(key) => before - {key}
  }

  lemma CommandIsApplied(m: map<Text, Bytes>, command: Command)
    requires CommandSurvives(command)
    ensures ApplyPayload(Decode, m, CommandPayload(command))
            == if command.DoPut? then m[command.key := command.value] else m - {command.key}
  {
    match command
    case DoPut(key, value) => GoodPut(key, value);
    case DoDelete(key) => GoodDelete(key);
  }

  /** After any history of such commands on any log, both readings equal a plain map. */
  lemma {:induction false} HistoryIsPlainMap(log: seq<Bytes>, commands: seq<Command>, k: Text)
    requires forall c :: c in commands ==> CommandSurvives(c)
    ensures Fold(Decode, LogAfter(log, commands)) == PlainMap(Fold(Decode, log), commands)
    ensures Scan(Decode, LogAfter(log, commands), k) == Lookup(PlainMap(Fold(Decode, log), commands), k)
  {
    if commands != [] {
      var n := |commands| - 1;
      HistoryIsPlainMap(log, commands[..n], k);
      assert commands[n] in commands;
      var after := LogAfter(log, commands);
      assert after[..|after| - 1] == LogAfter(log, commands[..n]);
      CommandIsApplied(PlainMap(Fold(Decode, log), commands[..n]), commands[n]);
    }
    ScanIsFold(Decode, LogAfter(log, commands), k);
  }
}
