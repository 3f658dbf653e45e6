/** Reading a key-value view out of a log of payloads, forwards and backwards. */
module OpLogView {
  import opened Common
  import opened Operations

  datatype Effect = Sets(value: Bytes) | Clears | Ignores

  type Decoder = Bytes -> Option<Operation>

  /** What one payload means for key `k`; undecodable, keyless and unknown operations mean nothing. */
  function EffectOn(decode: Decoder, payload: Bytes, k: Text): Effect {
    match decode(payload)
    case None => Ignores
    case Some(o) =>
      if o.key != Some(k) then Ignores
      else if o.op == PUT then Sets(o.value)
      else if o.op == DELETE then Clears
      else Ignores
  }

  /** The newest payload that concerns `k` decides. */
  function Scan(decode: Decoder, log: seq<Bytes>, k: Text): Option<Bytes> {
    if log == [] then None
    else match EffectOn(decode, log[|log| - 1], k)
      case Sets(v) => Some(v)
      case Clears => None
      case Ignores => Scan(decode, log[..|log| - 1], k)
  }

  function ApplyPayload(decode: Decoder, m: map<Text, Bytes>, payload: Bytes): map<Text, Bytes> {
    match decode(payload)
    case None => m
    case Some(o) =>
      if o.key.None? then m
      else if o.op == PUT then m[o.key.value := o.value]
      else if o.op == DELETE then m - {o.key.value}
      else m
  }

  /** All payloads applied in order. */
  function Fold(decode: Decoder, log: seq<Bytes>): map<Text, Bytes> {
    if log == [] then map[]
    else ApplyPayload(decode, Fold(decode, log[..|log| - 1]), log[|log| - 1])
  }

  /** For every log, whatever its payloads, the backward scan agrees with the forward fold. */
  lemma {:induction false} ScanIsFold(decode: Decoder, log: seq<Bytes>, k: Text)
    ensures Scan(decode, log, k) == Lookup(Fold(decode, log), k)
  {
    if log != [] {
      ScanIsFold(decode, log[..|log| - 1], k);
    }
  }

  /** The lookup as coded: newest entry first, stopping at the first that concerns the key. */
  method ScanLog(decode: Decoder, log: seq<Bytes>, key: Text) returns (r: Option<Bytes>)
    ensures r == Scan(decode, log, key)
  {
    var i := |log|;
    assert log[..i] == log;
    while i > 0
      invariant 0 <= i <= |log|
      invariant Scan(decode, log, key) == Scan(decode, log[..i], key)
    {
      assert log[..i][..i - 1] == log[..i - 1];
      var operation := decode(log[i - 1]);
      if operation.Some? && operation.value.key.Some? {
        if operation.value.key.value == key && operation.value.op == PUT {
          return Some(operation.value.value);
        } else if operation.value.key.value == key && operation.value.op == DELETE {
          return None;
        }
      }
      i := i - 1;
    }
    return None;
  }

  /** The listing as coded: every entry applied in order. */
  method FoldLog(decode: Decoder, log: seq<Bytes>) returns (result: map<Text, Bytes>)
    ensures result == Fold(decode, log)
  {
    result := map[];
    for i := 0 to |log|
      invariant result == Fold(decode, log[..i])
    {
      assert log[..i + 1][..i] == log[..i];
      var operation := decode(log[i]);
      if operation.Some? && operation.value.key.Some? {
        if operation.value.op == PUT {
          result := result[operation.value.key.value := operation.value.value];
        } else if operation.value.op == DELETE {
          result := result - {operation.value.key.value};
        }
      }
    }
    assert log[..|log|] == log;
  }
}
