/** A name in the term-vector stream of fixtures/bwc/BwcDump.java that is read as a term of a
    field or as the name of the next one, whatever the two fields record. */
module VectorCrossing {
  import opened Common
  import opened VarInt
  import opened TextOrder
  import opened Fnv
  import opened PostingsStream
  import opened VectorStream
  import opened VectorAmbiguity

  // ---------------------------------------------------------------------------
  // Positions
  // ---------------------------------------------------------------------------

  /** A position with all its numbers alike, and an empty payload where payloads are recorded. */
  function Level(v: nat, o: Options): Position {
    Position(v, if o.offsets then v else -1, if o.offsets then v else -1, if o.payloads then Some([]) else None)
  }

  function Levels(v: nat, o: Options, k: nat): (ps: seq<Position>)
    ensures |ps| == k && forall i :: 0 <= i < k ==> ps[i] == Level(v, o)
  {
    seq(k, _ => Level(v, o))
  }

  lemma LevelsValid(v: nat, o: Options, k: nat)
    requires v < 0x8000_0000
    ensures ValidPositions(Levels(v, o, k), o)
  {
  }

  lemma {:induction false} LevelsBytes(v: nat, o: Options, k: nat)
    ensures 8 * k <= |PositionsBytes(Levels(v, o, k), o)| <= 32 * k
    decreases k
  {
    hide L;
    if k > 0 {
      LevelsBytes(v, o, k - 1);
      assert Levels(v, o, k)[1..] == Levels(v, o, k - 1);
      assert 8 <= |PositionBytes(Level(v, o), o)| <= 32;
    }
  }

  lemma ZeroLong()
    ensures L(0) == Zeros(8)
  {
  }

  lemma ZeroLevel(o: Options)
    ensures PositionBytes(Level(0, o), o) == Zeros(|PositionBytes(Level(0, o), o)|)
    ensures 8 <= |PositionBytes(Level(0, o), o)| <= 32
  {
    ZeroLong();
    hide L;
  }

  lemma {:induction false} ZeroLevels(o: Options, k: nat)
    ensures PositionsBytes(Levels(0, o, k), o) == Zeros(|PositionsBytes(Levels(0, o, k), o)|)
    ensures |PositionsBytes(Levels(0, o, k + 1), o)|
         == |PositionBytes(Level(0, o), o)| + |PositionsBytes(Levels(0, o, k), o)|
    decreases k
  {
    hide PositionBytes;
    ZeroLevel(o);
    assert Levels(0, o, k + 1)[1..] == Levels(0, o, k);
    if k > 0 {
      ZeroLevels(o, k - 1);
      assert Levels(0, o, k)[1..] == Levels(0, o, k - 1);
    }
  }

  /** As few positions as make a text longer than k. */
  lemma {:induction false} Enough(o: Options, k: nat) returns (i: nat)
    ensures i >= 1 && k < |PositionsBytes(Levels(0, o, i), o)| <= k + 32
  {
    hide PositionBytes, PositionsBytes;
    ZeroLevel(o);
    LevelsBytes(0, o, 0);
    i := 0;
    while |PositionsBytes(Levels(0, o, i), o)| <= k
      invariant |PositionsBytes(Levels(0, o, i), o)| <= k + 32
      invariant i == 0 ==> |PositionsBytes(Levels(0, o, i), o)| == 0
      decreases k - |PositionsBytes(Levels(0, o, i), o)|
    {
      ZeroLevels(o, i);
      i := i + 1;
    }
  }

  lemma {:induction false} ZerosLess(k: nat, y: Text)
    requires k < |y|
    ensures Less(Zeros(k), y)
    decreases k
  {
    if k > 0 {
      assert Zeros(k)[1..] == Zeros(k - 1);
      ZerosLess(k - 1, y[1..]);
    }
  }

  // ---------------------------------------------------------------------------
  // The start of the crossing
  // ---------------------------------------------------------------------------

  /** How one field's positions z open the crossing: behind zero bytes, another field reads
      them as a frequency, positions p, the length of a term and its first bytes w. */
  datatype Start = Start(z: seq<Position>, head: Text, freq: nat, p: seq<Position>, w: Text)

  ghost predicate Opens(s: Start, om: Options, on: Options, t: nat) {
    Fits(s, om, on, t) && PositionsBytes(s.z, om) == s.head + (L(s.freq) + PositionsBytes(s.p, on) + (L(t) + s.w))
  }

  function P1(pos: int): Position {
    Position(pos, -1, -1, None)
  }

  function P2(pos: int, b: Text): Position {
    Position(pos, -1, -1, Some(b))
  }

  function P3(pos: int, start: int, end: int): Position {
    Position(pos, start, end, None)
  }

  function P4(pos: int, start: int, end: int, b: Text): Position {
    Position(pos, start, end, Some(b))
  }

  /** Positions of a field that records positions alone. */
  function FromPositions(on: Options, t: nat): Start {
    if !on.positions then Start([P1(1), P1(t)], [], 1, [], [])
    else if on.offsets && on.payloads then
      Start([P1(1), P1(1), P1(1), P1(1), P1(8), P1(8), P1(t)], [], 1, [P4(1, 1, 1, L(8))], [])
    else if on.offsets then Start([P1(1), P1(1), P1(1), P1(1), P1(t)], [], 1, [P3(1, 1, 1)], [])
    else if on.payloads then Start([P1(1), P1(1), P1(8), P1(8), P1(t)], [], 1, [P2(1, L(8))], [])
    else Start([P1(1), P1(1), P1(t)], [], 1, [P1(1)], [])
  }

  /** Positions and offsets. */
  function FromOffsets(on: Options, t: nat): Start {
    if !on.positions then Start([P3(1, t, t)], [], 1, [], L(t))
    else if on.offsets && on.payloads then
      Start([P3(1, 1, 1), P3(1, 8, 8), P3(t, 8, 8)], [], 1, [P4(1, 1, 1, L(8))], L(8) + L(8))
    else if on.offsets then Start([P3(1, 1, 1), P3(1, t, t)], [], 1, [P3(1, 1, 1)], L(t))
    else if on.payloads then Start([P3(1, 1, 8), P3(8, t, t)], [], 1, [P2(1, L(8))], L(t))
    else Start([P3(1, 1, t)], [], 1, [P1(1)], [])
  }

  /** Positions and payloads. */
  function FromPayloads(on: Options, t: nat): Start {
    if !on.positions then Start([P2(0, L(t))], L(0), 8, [], [])
    else if on.offsets && on.payloads then
      Start([P2(1, L(1) + L(1) + L(0) + L(t))], [], 1, [P4(32, 1, 1, [])], [])
    else if on.offsets then Start([P2(1, L(1) + L(1) + L(t))], [], 1, [P3(24, 1, 1)], [])
    else if on.payloads then Start([P2(1, L(0) + L(t))], [], 1, [P2(16, [])], [])
    else Start([P2(1, L(t))], [], 1, [P1(8)], [])
  }

  /** All three. */
  function FromAll(on: Options, t: nat): Start {
    if !on.positions then Start([P4(1, t, t, [])], [], 1, [], L(t) + L(0))
    else if on.offsets && on.payloads then Start([P4(1, 1, 1, L(0) + L(t))], [], 1, [P4(1, 1, 16, [])], [])
    else if on.offsets then Start([P4(1, 1, 1, L(t))], [], 1, [P3(1, 1, 8)], [])
    else if on.payloads then Start([P4(1, 1, 8, L(t))], [], 1, [P2(1, L(8))], [])
    else Start([P4(1, 1, t, [])], [], 1, [P1(1)], L(0))
  }

  function StartOf(om: Options, on: Options, t: nat): Start {
    if om.offsets && om.payloads then FromAll(on, t)
    else if om.offsets then FromOffsets(on, t)
    else if om.payloads then FromPayloads(on, t)
    else FromPositions(on, t)
  }

  lemma PositionSteps(ps: seq<Position>, o: Options)
    ensures ps == [] ==> PositionsBytes(ps, o) == []
    ensures ps != [] ==> PositionsBytes(ps, o) == PositionBytes(ps[0], o) + PositionsBytes(ps[1..], o)
  {
  }

  lemma Bytes1(pos: int, o: Options)
    requires !o.offsets && !o.payloads
    ensures PositionBytes(P1(pos), o) == L(pos)
  {
    hide L;
  }

  lemma Bytes2(pos: int, b: Text, o: Options)
    requires !o.offsets && o.payloads
    ensures PositionBytes(P2(pos, b), o) == L(pos) + (L(|b|) + b)
  {
    hide L;
  }

  lemma Bytes3(pos: int, start: int, end: int, o: Options)
    requires o.offsets && !o.payloads
    ensures PositionBytes(P3(pos, start, end), o) == L(pos) + (L(start) + L(end))
  {
    hide L;
  }

  lemma Bytes4(pos: int, start: int, end: int, b: Text, o: Options)
    requires o.offsets && o.payloads
    ensures PositionBytes(P4(pos, start, end, b), o) == L(pos) + (L(start) + (L(end) + (L(|b|) + b)))
  {
    hide L;
  }

  /** The bytes of the positions another field reads. */
  lemma ReadBytes(on: Options, t: nat)
    ensures PositionsBytes([], on) == []
    ensures !on.offsets && !on.payloads ==> PositionsBytes([P1(1)], on) == L(1) && PositionsBytes([P1(8)], on) == L(8)
    ensures !on.offsets && on.payloads ==>
              && PositionsBytes([P2(1, L(8))], on) == L(1) + (L(8) + L(8))
              && PositionsBytes([P2(16, [])], on) == L(16) + L(0)
    ensures on.offsets && !on.payloads ==>
              && PositionsBytes([P3(1, 1, 1)], on) == L(1) + (L(1) + L(1))
              && PositionsBytes([P3(24, 1, 1)], on) == L(24) + (L(1) + L(1))
              && PositionsBytes([P3(1, 1, 8)], on) == L(1) + (L(1) + L(8))
    ensures on.offsets && on.payloads ==>
              && PositionsBytes([P4(1, 1, 1, L(8))], on) == L(1) + (L(1) + (L(1) + (L(8) + L(8))))
              && PositionsBytes([P4(32, 1, 1, [])], on) == L(32) + (L(1) + (L(1) + L(0)))
              && PositionsBytes([P4(1, 1, 16, [])], on) == L(1) + (L(1) + (L(16) + L(0)))
  {
    hide L, PositionBytes, PositionsBytes;
    PositionSteps([], on);
    if !on.offsets && !on.payloads {
      OnePosition(P1(1), on);
      OnePosition(P1(8), on);
      Bytes1(1, on);
      Bytes1(8, on);
    } else if !on.offsets {
      OnePosition(P2(1, L(8)), on);
      OnePosition(P2(16, []), on);
      Bytes2(1, L(8), on);
      Bytes2(16, [], on);
      assert L(0) + [] == L(0);
    } else if !on.payloads {
      OnePosition(P3(1, 1, 1), on);
      OnePosition(P3(24, 1, 1), on);
      OnePosition(P3(1, 1, 8), on);
      Bytes3(1, 1, 1, on);
      Bytes3(24, 1, 1, on);
      Bytes3(1, 1, 8, on);
    } else {
      OnePosition(P4(1, 1, 1, L(8)), on);
      OnePosition(P4(32, 1, 1, []), on);
      OnePosition(P4(1, 1, 16, []), on);
      Bytes4(1, 1, 1, L(8), on);
      Bytes4(32, 1, 1, [], on);
      Bytes4(1, 1, 16, [], on);
      assert L(0) + [] == L(0);
    }
  }

  lemma AllBytes(on: Options, t: nat, om: Options)
    requires om.positions && om.offsets && om.payloads
    ensures var s := FromAll(on, t);
            PositionsBytes(s.z, om) == s.head + (L(s.freq) + PositionsBytes(s.p, on) + (L(t) + s.w))
  {
    hide L, PositionBytes, PositionsBytes;
    ReadBytes(on, t);
    var s := FromAll(on, t);
    var z := s.z[0];
    OnePosition(z, om);
    assert s.z == [z];
    Bytes4(z.pos, z.start, z.end, z.payload.value, om);
    assert s.head + (L(s.freq) + PositionsBytes(s.p, on) + (L(t) + s.w))
        == L(s.freq) + PositionsBytes(s.p, on) + (L(t) + s.w);
  }

  lemma PayloadsBytes(on: Options, t: nat, om: Options)
    requires om.positions && !om.offsets && om.payloads
    ensures var s := FromPayloads(on, t);
            PositionsBytes(s.z, om) == s.head + (L(s.freq) + PositionsBytes(s.p, on) + (L(t) + s.w))
  {
    hide L, PositionBytes, PositionsBytes;
    ReadBytes(on, t);
    var s := FromPayloads(on, t);
    var z := s.z[0];
    OnePosition(z, om);
    assert s.z == [z];
    Bytes2(z.pos, z.payload.value, om);
  }

  lemma TwoPositions(a: Position, b: Position, o: Options)
    ensures PositionsBytes([a, b], o) == PositionBytes(a, o) + PositionBytes(b, o)
  {
    hide PositionBytes;
    OnePosition(b, o);
    PositionSteps([a, b], o);
    assert [a, b][1..] == [b];
  }

  lemma ThreePositions(a: Position, b: Position, c: Position, o: Options)
    ensures PositionsBytes([a, b, c], o) == PositionBytes(a, o) + (PositionBytes(b, o) + PositionBytes(c, o))
  {
    hide PositionBytes;
    TwoPositions(b, c, o);
    PositionSteps([a, b, c], o);
    assert [a, b, c][1..] == [b, c];
  }

  lemma OffsetsBytes(on: Options, t: nat, om: Options)
    requires om.positions && om.offsets && !om.payloads
    ensures var s := FromOffsets(on, t);
            PositionsBytes(s.z, om) == s.head + (L(s.freq) + PositionsBytes(s.p, on) + (L(t) + s.w))
  {
    hide L, PositionBytes, PositionsBytes;
    ReadBytes(on, t);
    Bytes3(1, t, t, om);
    Bytes3(1, 1, 1, om);
    Bytes3(1, 8, 8, om);
    Bytes3(t, 8, 8, om);
    Bytes3(1, 1, 8, om);
    Bytes3(8, t, t, om);
    Bytes3(1, 1, t, om);
    OnePosition(P3(1, t, t), om);
    ThreePositions(P3(1, 1, 1), P3(1, 8, 8), P3(t, 8, 8), om);
    TwoPositions(P3(1, 1, 1), P3(1, t, t), om);
    TwoPositions(P3(1, 1, 8), P3(8, t, t), om);
    OnePosition(P3(1, 1, t), om);
  }

  function Longs(vs: seq<int>): Text {
    if vs == [] then [] else L(vs[0]) + Longs(vs[1..])
  }

  function P1s(vs: seq<int>): (ps: seq<Position>)
    ensures |ps| == |vs| && forall i :: 0 <= i < |ps| ==> ps[i] == P1(vs[i])
  {
    seq(|vs|, i requires 0 <= i < |vs| => P1(vs[i]))
  }

  lemma {:induction false} LongsBytes(vs: seq<int>, o: Options)
    requires !o.offsets && !o.payloads
    ensures PositionsBytes(P1s(vs), o) == Longs(vs)
    decreases |vs|
  {
    hide PositionBytes, L;
    if vs != [] {
      LongsBytes(vs[1..], o);
      assert P1s(vs)[1..] == P1s(vs[1..]);
      Bytes1(vs[0], o);
    }
  }

  lemma LongsCons(v: int, vs: seq<int>)
    ensures Longs([v] + vs) == L(v) + Longs(vs) && Longs([]) == []
  {
    hide L;
    assert ([v] + vs)[1..] == vs;
  }

  lemma LongsOf(a: int, b: int, c: int, d: int, t: int)
    ensures Longs([a, t]) == L(a) + L(t)
    ensures Longs([a, b, t]) == L(a) + (L(b) + L(t))
    ensures Longs([a, b, c, d, t]) == L(a) + (L(b) + (L(c) + (L(d) + L(t))))
  {
    hide L, Longs;
    LongsCons(t, []);
    assert [t] == [t] + [] && L(t) + [] == L(t);
    LongsCons(a, [t]);
    LongsCons(b, [t]);
    LongsCons(d, [t]);
    LongsCons(a, [b, t]);
    LongsCons(c, [d, t]);
    LongsCons(b, [c, d, t]);
    LongsCons(a, [b, c, d, t]);
    assert [a, t] == [a] + [t] && [b, t] == [b] + [t] && [d, t] == [d] + [t] && [a, b, t] == [a] + [b, t];
    assert [c, d, t] == [c] + [d, t] && [b, c, d, t] == [b] + [c, d, t] && [a, b, c, d, t] == [a] + [b, c, d, t];
  }

  lemma SevenLongs(t: int)
    ensures Longs([1, 1, 1, 1, 8, 8, t]) == L(1) + (L(1) + (L(1) + (L(1) + (L(8) + (L(8) + L(t))))))
  {
    hide L, Longs;
    LongsOf(1, 1, 8, 8, t);
    LongsCons(1, [1, 1, 8, 8, t]);
    LongsCons(1, [1, 1, 1, 8, 8, t]);
    assert [1, 1, 1, 8, 8, t] == [1] + [1, 1, 8, 8, t];
    assert [1, 1, 1, 1, 8, 8, t] == [1] + [1, 1, 1, 8, 8, t];
  }

  lemma PositionsAloneBytes(on: Options, t: nat, om: Options)
    requires om.positions && !om.offsets && !om.payloads
    ensures var s := FromPositions(on, t);
            PositionsBytes(s.z, om) == s.head + (L(s.freq) + PositionsBytes(s.p, on) + (L(t) + s.w))
  {
    hide L, PositionBytes, PositionsBytes, Longs;
    ReadBytes(on, t);
    var s := FromPositions(on, t);
    var vs := Values(on, t);
    assert s.z == P1s(vs);
    LongsBytes(vs, om);
    LongsOf(1, 1, 1, 1, t);
    LongsOf(1, 1, 8, 8, t);
    SevenLongs(t);
  }

  /** What a start has to be besides its bytes. */
  ghost predicate Fits(s: Start, om: Options, on: Options, t: nat) {
    && 1 <= |s.z| <= 7 && ValidPositions(s.z, om) && ValidPositions(s.p, on)
    && (forall i :: 0 <= i < |s.z| ==> s.z[i].pos <= t && s.z[i].start <= t)
    && IsFrequency(s.freq) && (if on.positions then s.freq == |s.p| else s.p == [])
    && |s.head| <= 8 && s.head == Zeros(|s.head|) && |s.w| <= 16
  }

  lemma OneFits(p: Position, o: Options)
    requires ValidPosition(p, o) && 0 <= p.pos < 0x8000_0000
    requires if o.offsets then 0 <= p.start <= p.end < 0x8000_0000 else p.start == p.end == -1
    ensures ValidPositions([p], o)
  {
  }

  lemma AllFits(on: Options, t: nat, om: Options)
    requires om.positions && om.offsets && om.payloads && 100 <= t < 0x8000
    ensures Fits(FromAll(on, t), om, on, t)
  {
    hide L, ValidPositions;
    var s := FromAll(on, t);
    OneFits(s.z[0], om);
    assert s.z == [s.z[0]];
    ReadFits(s.p, on);
  }

  lemma ReadFits(p: seq<Position>, o: Options)
    requires |p| <= 1 && forall i :: 0 <= i < |p| ==>
               && ValidPosition(p[i], o) && 0 <= p[i].pos < 0x8000_0000
               && if o.offsets then 0 <= p[i].start <= p[i].end < 0x8000_0000 else p[i].start == p[i].end == -1
    ensures ValidPositions(p, o)
  {
  }

  lemma PayloadsFits(on: Options, t: nat, om: Options)
    requires om.positions && !om.offsets && om.payloads && 100 <= t < 0x8000
    ensures Fits(FromPayloads(on, t), om, on, t)
  {
    ZeroLong();
    hide L, ValidPositions;
    var s := FromPayloads(on, t);
    OneFits(s.z[0], om);
    assert s.z == [s.z[0]];
    ReadFits(s.p, on);
  }

  ghost predicate IsP3(p: Position, t: nat) {
    0 <= p.pos <= t && 0 <= p.start <= p.end <= t && p.payload == None
  }

  lemma P3sValid(a: Position, b: Position, c: Position, t: nat, o: Options)
    requires o.offsets && t < 0x8000 && IsP3(a, t) && IsP3(b, t) && IsP3(c, t)
    requires a.pos <= b.pos <= c.pos && a.start <= b.start <= c.start
    ensures ValidPositions([a], o) && ValidPositions([a, b], o) && ValidPositions([a, b, c], o)
  {
    OneFits(a, o);
    OneFits(b, o);
    OneFits(c, o);
    hide ValidPositions, ValidPosition;
    ValidAppend([a], [b], o);
    ValidAppend([a] + [b], [c], o);
    assert [a] + [b] == [a, b] && [a, b] + [c] == [a, b, c];
  }

  lemma OffsetsFits(on: Options, t: nat, om: Options)
    requires om.positions && om.offsets && !om.payloads && 100 <= t < 0x8000
    ensures Fits(FromOffsets(on, t), om, on, t)
  {
    hide L, ValidPositions;
    var s := FromOffsets(on, t);
    ReadFits(s.p, on);
    P3sValid(P3(1, t, t), P3(t, t, t), P3(t, t, t), t, om);
    P3sValid(P3(1, 1, 1), P3(1, 8, 8), P3(t, 8, 8), t, om);
    P3sValid(P3(1, 1, 1), P3(1, t, t), P3(t, t, t), t, om);
    P3sValid(P3(1, 1, 8), P3(8, t, t), P3(t, t, t), t, om);
    P3sValid(P3(1, 1, t), P3(t, t, t), P3(t, t, t), t, om);
  }

  lemma P1sValid(vs: seq<int>, o: Options)
    requires !o.offsets && !o.payloads && forall i :: 0 <= i < |vs| ==> 0 <= vs[i] < 0x8000_0000
    requires forall i, j :: 0 <= i < j < |vs| ==> vs[i] <= vs[j]
    ensures ValidPositions(P1s(vs), o)
  {
  }

  lemma PositionsFits(on: Options, t: nat, om: Options)
    requires om.positions && !om.offsets && !om.payloads && 100 <= t < 0x8000
    ensures Fits(FromPositions(on, t), om, on, t)
  {
    ValuesAscend(on, t);
    hide L, ValidPositions, Values;
    var s := FromPositions(on, t);
    ReadFits(s.p, on);
    var vs := Values(on, t);
    P1sValid(vs, om);
  }

  lemma ValuesAscend(on: Options, t: nat)
    requires t >= 100
    ensures var vs := Values(on, t);
            && FromPositions(on, t).z == P1s(vs) && 1 <= |vs| <= 7
            && (forall i :: 0 <= i < |vs| ==> 0 <= vs[i] <= t)
            && forall i, j :: 0 <= i < j < |vs| ==> vs[i] <= vs[j]
  {
    hide L;
  }

  /** The longs of a start made of positions alone. */
  function Values(on: Options, t: nat): (vs: seq<int>) {
    if !on.positions then [1, t]
    else if on.offsets && on.payloads then [1, 1, 1, 1, 8, 8, t]
    else if on.offsets then [1, 1, 1, 1, t]
    else if on.payloads then [1, 1, 8, 8, t]
    else [1, 1, t]
  }

  lemma StartOpens(om: Options, on: Options, t: nat)
    requires om.positions && 100 <= t < 0x8000
    ensures Opens(StartOf(om, on, t), om, on, t)
  {
    hide L, PositionBytes, PositionsBytes, ValidPositions, FromAll, FromOffsets, FromPayloads, FromPositions;
    if om.offsets && om.payloads {
      AllBytes(on, t, om);
      AllFits(on, t, om);
    } else if om.offsets {
      OffsetsBytes(on, t, om);
      OffsetsFits(on, t, om);
    } else if om.payloads {
      PayloadsBytes(on, t, om);
      PayloadsFits(on, t, om);
    } else {
      PositionsAloneBytes(on, t, om);
      PositionsFits(on, t, om);
    }
  }

  // ---------------------------------------------------------------------------
  // The end of the crossing
  // ---------------------------------------------------------------------------

  /** One last position; a payload can hold what another field ends with. */
  function LastOf(o: Options, b: Text): (ps: seq<Position>) {
    if !o.positions then []
    else if o.offsets && o.payloads then [P4(1, 1, 1, b)]
    else if o.offsets then [P3(1, 1, 1)]
    else if o.payloads then [P2(1, b)]
    else [P1(1)]
  }

  function End(o: Options, b: Text): Text {
    L(1) + (if o.positions then PositionsBytes(LastOf(o, b), o) else [])
  }

  lemma EndBytes(o: Options, b: Text)
    ensures !o.positions ==> End(o, b) == L(1)
    ensures o.positions && !o.offsets && !o.payloads ==> End(o, b) == L(1) + L(1)
    ensures o.positions && o.offsets && !o.payloads ==> End(o, b) == L(1) + L(1) + (L(1) + L(1))
    ensures o.positions && !o.offsets && o.payloads ==> End(o, b) == L(1) + (L(1) + L(|b|)) + b
    ensures o.positions && o.offsets && o.payloads ==> End(o, b) == L(1) + (L(1) + (L(1) + (L(1) + L(|b|)))) + b
  {
    hide L, PositionBytes, PositionsBytes;
    if o.positions {
      var p := LastOf(o, b)[0];
      OnePosition(p, o);
      assert LastOf(o, b) == [p];
      if o.offsets && o.payloads {
        Bytes4(1, 1, 1, b, o);
      } else if o.offsets {
        Bytes3(1, 1, 1, o);
      } else if o.payloads {
        Bytes2(1, b, o);
      } else {
        Bytes1(1, o);
      }
    }
  }

  lemma LastValid(o: Options, b: Text)
    requires |b| < 0x8000
    ensures ValidPositions(LastOf(o, b), o) && |LastOf(o, b)| == if o.positions then 1 else 0
  {
    ReadFits(LastOf(o, b), o);
  }

  /** The end of one field is the end of the other's, with h in front. */
  ghost predicate EndsIn(om: Options, bm: Text, on: Options, bn: Text, h: Text, inner: bool) {
    && |bm| <= 100 && |bn| <= 100 && |h| <= 100
    && if inner then End(om, bm) == h + End(on, bn) else End(on, bn) == h + End(om, bm)
  }

  lemma Endings(om: Options, on: Options) returns (bm: Text, bn: Text, h: Text, inner: bool)
    ensures EndsIn(om, bm, on, bn, h, inner)
    ensures !om.positions ==> !inner
  {
    hide L, End;
    EndBytes(om, []);
    EndBytes(on, []);
    bm, bn, inner := [], [], false;
    if on.positions && on.payloads {
      EndSize(om);
      bn := End(om, []);
      EndBytes(on, bn);
      h := if on.offsets then L(1) + (L(1) + (L(1) + (L(1) + L(|bn|)))) else L(1) + (L(1) + L(|bn|));
    } else if om.positions && om.payloads {
      EndSize(on);
      bm, inner := End(on, []), true;
      EndBytes(om, bm);
      h := if om.offsets then L(1) + (L(1) + (L(1) + (L(1) + L(|bm|)))) else L(1) + (L(1) + L(|bm|));
    } else if !om.positions {
      h := if !on.positions then [] else if on.offsets then L(1) + L(1) + L(1) else L(1);
    } else if !on.positions {
      inner := true;
      h := if om.offsets then L(1) + L(1) + L(1) else L(1);
    } else if om.offsets {
      inner := true;
      h := if on.offsets then [] else L(1) + L(1);
    } else {
      h := if on.offsets then L(1) + L(1) else [];
    }
  }

  lemma EndSize(o: Options)
    ensures |End(o, [])| <= 40
  {
    EndBytes(o, []);
    hide L, End;
  }

  // ---------------------------------------------------------------------------
  // The crossing
  // ---------------------------------------------------------------------------

  ghost predicate ValidTermList(ts: seq<TermEntry>, excluded: set<Text>, o: Options) {
    && ts != [] && (forall i :: 0 <= i < |ts| ==> ValidEntry(ts[i], excluded, o))
    && forall i, j :: 0 <= i < j < |ts| ==> Less(ts[i].term, ts[j].term)
  }

  /** Terms that start with n, in a field that records om, feed what the name n and the terms
      of a field that records on feed. */
  ghost predicate ReadsAcross(
    n: Text, ts: seq<TermEntry>, us: seq<TermEntry>, excluded: set<Text>, om: Options, on: Options)
  {
    && ValidTermList(ts, excluded, om) && ts[0].term == n && ValidTermList(us, excluded, on)
    && Stream(ts, om, false) == B(n) + Stream(us, on, false)
  }

  lemma TwoStream(a: TermEntry, b: TermEntry, o: Options)
    ensures Stream([a, b], o, false) == TermBytes(a, o, false) + TermBytes(b, o, false)
  {
    hide TermBytes;
    EntryStream(b, o);
    assert [a, b][1..] == [b];
  }

  lemma TwoTerms(a: TermEntry, b: TermEntry, excluded: set<Text>, o: Options)
    requires ValidEntry(a, excluded, o) && ValidEntry(b, excluded, o) && Less(a.term, b.term)
    ensures ValidTermList([a, b], excluded, o)
  {
    hide ValidEntry, Less;
  }

  lemma LastBytes(t: Text, o: Options, b: Text)
    ensures TermBytes(Entry(t, 1, LastOf(o, b)), o, false) == B(t) + End(o, b)
  {
    hide L, PositionsBytes, LastOf, TermBytes;
    EntryBytes(t, 1, LastOf(o, b), o);
  }

  lemma LastEntry(t: Text, o: Options, b: Text, excluded: set<Text>)
    requires |b| < 0x8000 && |t| <= MAX_TERM && t !in excluded
    ensures ValidEntry(Entry(t, 1, LastOf(o, b)), excluded, o)
  {
    hide ValidEntry, ValidPositions;
    LastValid(o, b);
    EntryValid(t, 1, LastOf(o, b), excluded, o);
  }

  /** Without positions: the frequency of n is read as the length of a term. */
  lemma FrequencyAsLength(n: Text, excluded: set<Text>, om: Options, on: Options)
    returns (ts: seq<TermEntry>, us: seq<TermEntry>)
    requires !om.positions && |n| < 800 && n !in excluded && Short(excluded)
    ensures ReadsAcross(n, ts, us, excluded, om, on)
  {
    hide L, TermBytes, Less, ValidEntry, End, LastOf, Stream;
    var k := Longer(excluded);
    var bm, bn, h, inner := Endings(om, on);
    var u := Zeros(k + 1);
    var c := n + u + h;
    var t := L(|c|) + n + u;
    var name, last, other := Entry(n, |t|, []), Entry(c, 1, LastOf(om, bm)), Entry(t, 1, LastOf(on, bn));
    ts, us := [name, last], [other];
    EntryValid(n, |t|, [], excluded, om);
    LastEntry(c, om, bm, excluded);
    LastEntry(t, on, bn, excluded);
    LongerIsLess(n, u + h);
    assert n + (u + h) == c;
    TwoTerms(name, last, excluded, om);
    TwoStream(name, last, om);
    EntryStream(other, on);
    EntryBytes(n, |t|, [], om);
    LastBytes(c, om, bm);
    LastBytes(t, on, bn);
    assert L(|t|) + [] == L(|t|);
    ShortCut(n, u, h, End(om, bm));
  }

  lemma ShortCut(n: Text, u: Text, h: Text, end: Text)
    ensures var c := n + u + h;
            var t := L(|c|) + n + u;
            (B(n) + L(|t|) + (B(c) + end)) == (B(n) + (B(t) + (h + end)))
  {
    hide L;
  }

  /** Zero bytes behind which the positions z begin, as many positions in all as the bytes count. */
  lemma Front(excluded: set<Text>, om: Options, s: Start, on: Options, t: nat)
    returns (x: seq<Position>, y: seq<Position>, term: Text)
    requires Short(excluded) && Fits(s, om, on, t) && t < 0x8000
    ensures ValidPositions(x + s.z + y, om) && |x + s.z + y| == |term|
    ensures term == PositionsBytes(x, om) + s.head == Zeros(|term|)
    ensures term !in excluded && 1 <= |term| <= 840
    ensures |PositionsBytes(y, om)| <= 32 * |term|
  {
    hide PositionsBytes, ValidPosition, Levels;
    var k := Longer(excluded);
    var i := Enough(om, k);
    x := Levels(0, om, i);
    ZeroLevels(om, i);
    LevelsBytes(0, om, i);
    term := PositionsBytes(x, om) + s.head;
    var j := |term| - i - |s.z|;
    y := Levels(t, om, j);
    LevelsBytes(t, om, j);
    LevelsValid(0, om, i);
    LevelsValid(t, om, j);
    Surround(x, s, y, om, on, t);
  }

  lemma Surround(x: seq<Position>, s: Start, y: seq<Position>, om: Options, on: Options, t: nat)
    requires Fits(s, om, on, t) && ValidPositions(x, om) && ValidPositions(y, om)
    requires forall i :: 0 <= i < |x| ==> x[i] == Level(0, om)
    requires forall i :: 0 <= i < |y| ==> y[i] == Level(t, om)
    ensures ValidPositions(x + s.z + y, om)
  {
    Starts(s.z, om);
    hide ValidPositions, ValidPosition;
    ValidAppend(x, s.z, om);
    ValidAppend(x + s.z, y, om);
  }

  lemma Starts(z: seq<Position>, o: Options)
    requires ValidPositions(z, o)
    ensures forall i :: 0 <= i < |z| ==>
              0 <= z[i].pos && (if o.offsets then z[i].start >= 0 else z[i].start == -1)
  {
  }

  /** A term c above n, and the term t of `size` bytes that the other field reads up to its end. */
  lemma Reach(n: Text, front: Text, h: Text, inner: bool, size: nat) returns (c: Text, t: Text)
    requires |n| < 800 && |h| <= 100 && |front| + 2000 < size
    ensures |t| == size && |c| > 800 && |c| <= size + 100 && Less(n, c)
    ensures t == front + (if inner then B(c) + h else B(c)[..|B(c)| - |h|])
    ensures !inner ==> |c| >= |h| && c[|c| - |h|..] == h
  {
    hide L, Less;
    var u := Zeros(size - |front| - 8 - |n| - if inner then |h| else 0);
    var more := if inner then u else u + h;
    c := n + more;
    t := front + (if inner then B(c) + h else B(c)[..|B(c)| - |h|]);
    LongerIsLess(n, more);
    if !inner {
      assert c[|c| - |h|..] == h;
    }
  }

  lemma ReachBytes(front: Text, c: Text, t: Text, h: Text, em: Text, en: Text, inner: bool)
    requires if inner then em == h + en else en == h + em
    requires !inner ==> |c| >= |h| && c[|c| - |h|..] == h
    requires t == front + (if inner then B(c) + h else B(c)[..|B(c)| - |h|])
    ensures front + (B(c) + em) == t + en
  {
    hide L;
    var bc := B(c);
    if inner {
      Shift4(front, bc, h, en);
    } else {
      var start := bc[..|bc| - |h|];
      assert bc[|bc| - |h|..] == c[|c| - |h|..];
      assert bc == start + h;
      Shift4(front, start, h, em);
    }
  }

  /** With positions: those of n are read as a term, its positions and the start of a term that
      reaches to the end of c. */
  lemma PositionsAsTerms(n: Text, excluded: set<Text>, om: Options, on: Options)
    returns (ts: seq<TermEntry>, us: seq<TermEntry>)
    requires om.positions && |n| < 800 && n !in excluded && Short(excluded)
    ensures ReadsAcross(n, ts, us, excluded, om, on)
  {
    hide L, B, TermBytes, Less, ValidEntry, End, LastOf, Stream, PositionsBytes, StartOf, ValidPositions, EndsIn;
    hide ValidTermList;
    var size := 32000;
    var s := StartOf(om, on, size);
    StartOpens(om, on, size);
    var x, y, term := Front(excluded, om, s, on, size);
    var bm, bn, h, inner := Endings(om, on);
    EndsShort(om, bm, on, bn, h, inner);
    var front := s.w + PositionsBytes(y, om);
    var c, t := Reach(n, front, h, inner, size);
    ReachBytes(front, c, t, h, End(om, bm), End(on, bn), inner);
    var p := x + s.z + y;
    ts := [Entry(n, |p|, p), Entry(c, 1, LastOf(om, bm))];
    us := [Entry(term, s.freq, s.p), Entry(t, 1, LastOf(on, bn))];
    EntryValid(n, |p|, p, excluded, om);
    EntryValid(term, s.freq, s.p, excluded, on);
    LastEntry(c, om, bm, excluded);
    LastEntry(t, on, bn, excluded);
    ZerosLess(|term|, t);
    TwoTerms(ts[0], ts[1], excluded, om);
    TwoTerms(us[0], us[1], excluded, on);
    AcrossBytes(n, x, s, y, term, c, t, bm, bn, om, on);
  }

  lemma AcrossBytes(
    n: Text, x: seq<Position>, s: Start, y: seq<Position>, term: Text, c: Text, t: Text, bm: Text, bn: Text,
    om: Options, on: Options)
    requires om.positions && Opens(s, om, on, |t|)
    requires term == PositionsBytes(x, om) + s.head && |term| == |x + s.z + y|
    requires s.w + PositionsBytes(y, om) + (B(c) + End(om, bm)) == t + End(on, bn)
    ensures Stream([Entry(n, |x + s.z + y|, x + s.z + y), Entry(c, 1, LastOf(om, bm))], om, false)
         == B(n) + Stream([Entry(term, s.freq, s.p), Entry(t, 1, LastOf(on, bn))], on, false)
  {
    hide L, TermBytes, End, LastOf, Stream, PositionsBytes, Opens, B;
    var p := x + s.z + y;
    TwoStream(Entry(n, |p|, p), Entry(c, 1, LastOf(om, bm)), om);
    TwoStream(Entry(term, s.freq, s.p), Entry(t, 1, LastOf(on, bn)), on);
    LastBytes(c, om, bm);
    LastBytes(t, on, bn);
    NameBytes(n, x, s, y, term, t, B(c) + End(om, bm), End(on, bn), om, on);
  }

  lemma EndsShort(om: Options, bm: Text, on: Options, bn: Text, h: Text, inner: bool)
    requires EndsIn(om, bm, on, bn, h, inner)
    ensures |bm| <= 100 && |bn| <= 100 && |h| <= 100
    ensures if inner then End(om, bm) == h + End(on, bn) else End(on, bn) == h + End(om, bm)
  {
  }

  /** The bytes of n and what stands behind it, read in the two ways. */
  lemma NameBytes(
    n: Text, x: seq<Position>, s: Start, y: seq<Position>, term: Text, t: Text, tail: Text, end: Text,
    om: Options, on: Options)
    requires om.positions && Opens(s, om, on, |t|)
    requires term == PositionsBytes(x, om) + s.head && |term| == |x + s.z + y|
    requires s.w + PositionsBytes(y, om) + tail == t + end
    ensures (TermBytes(Entry(n, |x + s.z + y|, x + s.z + y), om, false) + tail) ==
            (B(n) + (TermBytes(Entry(term, s.freq, s.p), on, false) + (B(t) + end)))
  {
    hide L, TermBytes, PositionsBytes, Fits, B;
    var p := x + s.z + y;
    EntryBytes(n, |p|, p, om);
    EntryBytes(term, s.freq, s.p, on);
    PositionsBytesAppend(x + s.z, y, om);
    PositionsBytesAppend(x, s.z, om);
    ReadPositions(s, om, on, |t|);
    var mid := L(s.freq) + PositionsBytes(s.p, on);
    AcrossCut(n, PositionsBytes(x, om), s.head, mid, s.w, PositionsBytes(y, om), t, tail, end);
  }

  lemma ReadPositions(s: Start, om: Options, on: Options, t: nat)
    requires Fits(s, om, on, t)
    ensures (if on.positions then PositionsBytes(s.p, on) else []) == PositionsBytes(s.p, on)
  {
  }

  lemma Shift4(a: Text, b: Text, h: Text, e: Text)
    ensures a + (b + (h + e)) == a + (b + h) + e && a + ((b + h) + e) == a + b + (h + e)
  {
  }

  lemma AcrossCut(n: Text, xb: Text, head: Text, mid: Text, w: Text, yb: Text, t: Text, tail: Text, en: Text)
    requires w + yb + tail == t + en
    ensures ((B(n) + (L(|xb + head|) + (xb + (head + (mid + (L(|t|) + w))) + yb))) + tail) ==
            (B(n) + ((B(xb + head) + mid) + (B(t) + en)))
  {
    hide L;
    var lt := L(|t|);
    assert xb + (head + (mid + (lt + w))) + yb == (xb + head) + (mid + (lt + (w + yb)));
    assert B(t) + en == lt + (w + yb + tail);
    var bt := B(xb + head);
    assert L(|xb + head|) + ((xb + head) + (mid + (lt + (w + yb)))) == bt + (mid + (lt + (w + yb)));
    Regrouped(B(n), bt, mid, lt, w + yb, tail);
  }

  lemma Regrouped(n: Text, bt: Text, mid: Text, lt: Text, a: Text, tail: Text)
    ensures n + (bt + (mid + (lt + a))) + tail == n + ((bt + mid) + (lt + (a + tail)))
  {
  }

  /** Whatever two fields record, a name that may be a term of the one can be read both ways. */
  lemma NameAsTerms(n: Text, excluded: set<Text>, om: Options, on: Options)
    returns (ts: seq<TermEntry>, us: seq<TermEntry>)
    requires |n| < 800 && n !in excluded && Short(excluded)
    ensures ReadsAcross(n, ts, us, excluded, om, on)
  {
    hide ReadsAcross;
    if om.positions {
      ts, us := PositionsAsTerms(n, excluded, om, on);
    } else {
      ts, us := FrequencyAsLength(n, excluded, om, on);
    }
  }

  // ---------------------------------------------------------------------------
  // A term that swallows the next field
  // ---------------------------------------------------------------------------

  /** Two fields n, where the first may end with the term `name` and the second has the term s,
      or the first ends before it and the second has the terms us. */
  ghost predicate Swallows(
    n: Text, name: TermEntry, s: TermEntry, us: seq<TermEntry>, excluded: set<Text>, o: Options)
  {
    && ValidEntry(name, excluded, o) && name.term == n && ValidEntry(s, excluded, o) && ValidTermList(us, excluded, o)
    && TermBytes(name, o, false) + (B(n) + TermBytes(s, o, false)) == B(n) + Stream(us, o, false)
  }

  /** Without positions: the frequency of n is the length of a term that holds the next field. */
  lemma SwallowByFrequency(n: Text, excluded: set<Text>, o: Options)
    returns (name: TermEntry, s: TermEntry, us: seq<TermEntry>)
    requires !o.positions && |n| < 800 && n !in excluded && Short(excluded)
    ensures Swallows(n, name, s, us, excluded, o)
  {
    hide L, TermBytes, ValidEntry, Stream;
    var k := Longer(excluded);
    var t := B(n) + B(Zeros(k));
    name, s, us := Entry(n, |t|, []), Entry(Zeros(k), 1, []), [Entry(t, 1, [])];
    EntryValid(n, |t|, [], excluded, o);
    EntryValid(Zeros(k), 1, [], excluded, o);
    EntryValid(t, 1, [], excluded, o);
    EntryStream(us[0], o);
    EntryBytes(n, |t|, [], o);
    EntryBytes(Zeros(k), 1, [], o);
    EntryBytes(t, 1, [], o);
    SwallowCut(B(n), L(|t|), B(Zeros(k)), L(1) + []);
  }

  lemma SwallowCut(n: Text, length: Text, s: Text, end: Text)
    ensures (n + (length + [])) + (n + (s + end)) == n + ((length + (n + s)) + end)
  {
  }

  lemma SwallowTail(a: Text, n: Text, s: Text, end: Text)
    ensures a + (n + (s + end)) == (a + (n + s)) + end
  {
  }

  /** With positions: those of n are read as a term and its positions, then the start of a term
      that reaches to the end of s. */
  lemma SwallowByPositions(n: Text, excluded: set<Text>, o: Options)
    returns (name: TermEntry, s: TermEntry, us: seq<TermEntry>)
    requires o.positions && |n| < 800 && n !in excluded && Short(excluded)
    ensures Swallows(n, name, s, us, excluded, o)
  {
    hide L, TermBytes, Less, ValidEntry, End, LastOf, Stream, PositionsBytes, StartOf, ValidPositions;
    var size := 32000;
    var start := StartOf(o, o, size);
    StartOpens(o, o, size);
    var x, y, term := Front(excluded, o, start, o, size);
    var yb := PositionsBytes(y, o);
    var zeros := Zeros(size - |start.w| - |yb| - 16 - |n|);
    var t := start.w + yb + (B(n) + B(zeros));
    assert |t| == size;
    var p := x + start.z + y;
    name, s := Entry(n, |p|, p), Entry(zeros, 1, LastOf(o, []));
    var first, other := Entry(term, start.freq, start.p), Entry(t, 1, LastOf(o, []));
    us := [first, other];
    EntryValid(n, |p|, p, excluded, o);
    EntryValid(term, start.freq, start.p, excluded, o);
    LastEntry(zeros, o, [], excluded);
    LastEntry(t, o, [], excluded);
    ZerosLess(|term|, t);
    TwoTerms(first, other, excluded, o);
    TwoStream(first, other, o);
    LastBytes(zeros, o, []);
    LastBytes(t, o, []);
    SwallowTail(start.w + yb, B(n), B(zeros), End(o, []));
    NameBytes(n, x, start, y, term, t, B(n) + (B(zeros) + End(o, [])), End(o, []), o, o);
  }

  lemma SwallowNext(n: Text, excluded: set<Text>, o: Options)
    returns (name: TermEntry, s: TermEntry, us: seq<TermEntry>)
    requires |n| < 800 && n !in excluded && Short(excluded)
    ensures Swallows(n, name, s, us, excluded, o)
  {
    hide Swallows;
    if o.positions {
      name, s, us := SwallowByPositions(n, excluded, o);
    } else {
      name, s, us := SwallowByFrequency(n, excluded, o);
    }
  }
}
