/** Lucene's variable-length integers: seven bits per byte, least significant
    group first, the high bit set on every byte but the last.

    `read_vint` in scripts/fixture-segment-ids.py is the decoder; the longer
    `readVLong` of the packed index is the same loop with room for nine bytes. */
module VarInt {

  type Byte = b: int | 0 <= b < 256

  datatype Fault = Truncated | TooLong | NotAHeader | NegativeSkip

  datatype Result<+T> = Ok(value: T) | Err(fault: Fault) {
    predicate IsFailure() {
      Err?
    }

    function PropagateFailure<U>(): Result<U>
      requires Err?
    {
      Err(fault)
    }

    function Extract(): T
      requires Ok?
    {
      value
    }
  }

  const VINT_BYTES: nat := 5
  const VLONG_BYTES: nat := 9

  /** `bytes` stand in `data` at `pos`. */
  predicate At(data: seq<Byte>, pos: nat, bytes: seq<Byte>) {
    pos + |bytes| <= |data| && data[pos..pos + |bytes|] == bytes
  }

  lemma AtParts(data: seq<Byte>, pos: nat, a: seq<Byte>, b: seq<Byte>)
    requires At(data, pos, a + b)
    ensures At(data, pos, a) && At(data, pos + |a|, b)
  {
    var both := data[pos..pos + |a + b|];
    assert data[pos..pos + |a|] == both[..|a|] == a;
    assert data[pos + |a|..pos + |a| + |b|] == both[|a|..] == b;
  }

  function Pow128(k: nat): (p: nat)
    ensures p >= 1
  {
    if k == 0 then 1 else 128 * Pow128(k - 1)
  }

  /** The minimal encoding, as a writer emits it. */
  function Encode(v: nat): (e: seq<Byte>)
    ensures |e| >= 1
    decreases v
  {
    if v < 128 then [v] else [v % 128 + 128] + Encode(v / 128)
  }

  /** Puts `value`, read below weight `scale`, in front of what is still to come. */
  function Prepend(value: nat, scale: nat, rest: Result<(nat, nat)>): Result<(nat, nat)> {
    var (v, end) :- rest;
    Ok((value + scale * v, end))
  }

  /** What a reader allowed `room` bytes makes of `data` at `pos`: the value and
      the position after it. */
  function Decode(data: seq<Byte>, pos: nat, room: nat): (r: Result<(nat, nat)>)
    requires room >= 1
    decreases |data| - pos
  {
    if pos >= |data| then Err(Truncated)
    else if data[pos] < 128 then Ok((data[pos], pos + 1))
    else if room == 1 then Err(TooLong)
    else Prepend(data[pos] - 128, 128, Decode(data, pos + 1, room - 1))
  }

  /** The minimal encoding takes at most k bytes exactly for the values below 128^k. */
  lemma {:induction false} EncodedLength(v: nat, k: nat)
    requires k >= 1
    ensures |Encode(v)| <= k <==> v < Pow128(k)
    decreases k
  {
    if k == 1 {
      assert Pow128(1) == 128 * Pow128(0);
    } else if v >= 128 {
      EncodedLength(v / 128, k - 1);
      assert v / 128 < Pow128(k - 1) <==> v < 128 * Pow128(k - 1);
    } else {
      assert Pow128(k - 1) >= 1;
    }
  }

  /** Reading undoes writing, wherever the value stands and whatever surrounds it. */
  lemma {:induction false} DecodeEncode(v: nat, data: seq<Byte>, pos: nat, room: nat)
    requires room >= 1 && v < Pow128(room)
    requires At(data, pos, Encode(v))
    ensures Decode(data, pos, room) == Ok((v, pos + |Encode(v)|))
    decreases room
  {
    assert data[pos] == data[pos..pos + |Encode(v)|][0] == Encode(v)[0];
    assert Pow128(1) == 128 * Pow128(0);
    if v >= 128 {
      assert room > 1;
      assert v / 128 < Pow128(room - 1);
      AtParts(data, pos, [v % 128 + 128], Encode(v / 128));
      DecodeEncode(v / 128, data, pos + 1, room - 1);
    }
  }

  /** A successful read stays inside the data, uses between one and `room` bytes
      and yields a value that many groups can hold. */
  lemma {:induction false} DecodeInBounds(data: seq<Byte>, pos: nat, room: nat)
    requires room >= 1
    ensures var r := Decode(data, pos, room);
            r.Ok? ==>
              pos < r.value.1 <= |data| && r.value.1 <= pos + room && r.value.0 < Pow128(room)
    decreases room
  {
    if pos < |data| && data[pos] >= 128 && room > 1 {
      DecodeInBounds(data, pos + 1, room - 1);
    }
  }

  /** Bytes read before a success are the only ones that matter. */
  lemma {:induction false} DecodeLocal(data: seq<Byte>, pos: nat, room: nat, more: seq<Byte>)
    requires room >= 1 && Decode(data, pos, room).Ok?
    ensures Decode(data + more, pos, room) == Decode(data, pos, room)
    decreases room
  {
    if data[pos] >= 128 {
      DecodeLocal(data, pos + 1, room - 1, more);
    }
  }

  /** `read_vint`: the shift-and-accumulate loop. `|=` never meets a set bit, since
      every group lands above what is already there, so it is written as `+`. */
  method ReadVarInt(data: seq<Byte>, start: nat, room: nat) returns (r: Result<(nat, nat)>)
    requires room >= 1
    ensures r == Decode(data, start, room)
  {
    hide Prepend;
    var value: nat, scale: nat, pos: nat, left := 0, 1, start, room;
    PrependNothing(Decode(data, start, room));
    while true
      invariant left >= 1 && scale >= 1
      invariant Decode(data, start, room) == Prepend(value, scale, Decode(data, pos, left))
      decreases left
    {
      PrependToEnd(value, scale, Decode(data, pos, left));
      if pos >= |data| {
        return Err(Truncated);
      }
      var b := data[pos];
      pos := pos + 1;
      var group := b % 128 * scale;
      if b < 128 {
        return Ok((value + group, pos));
      }
      if left == 1 {
        return Err(TooLong);
      }
      left := left - 1;
      NextGroup(value, scale, b, Decode(data, pos, left));
      value, scale := value + group, scale * 128;
    }
  }

  lemma PrependNothing(rest: Result<(nat, nat)>)
    ensures Prepend(0, 1, rest) == rest
  {
    assert rest.Ok? ==> rest == Ok((rest.value.0, rest.value.1));
  }

  lemma PrependToEnd(value: nat, scale: nat, rest: Result<(nat, nat)>)
    ensures rest.Err? ==> Prepend(value, scale, rest) == rest
    ensures rest.Ok? ==> Prepend(value, scale, rest) == Ok((value + rest.value.0 * scale, rest.value.1))
  {
  }

  /** A group joins what was read before it. */
  lemma NextGroup(value: nat, scale: nat, b: int, rest: Result<(nat, nat)>)
    requires 128 <= b < 256
    ensures Prepend(value, scale, Prepend(b - 128, 128, rest))
         == Prepend(value + b % 128 * scale, scale * 128, rest)
  {
    if rest.Ok? {
      var v := rest.value.0;
      assert b % 128 == b - 128;
      calc {
        scale * (b - 128 + 128 * v);
        scale * (b - 128) + scale * (128 * v);
        (b - 128) * scale + scale * 128 * v;
      }
    }
  }
}
