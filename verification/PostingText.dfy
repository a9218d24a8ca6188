/** How `describe` in fixtures/bwc/BwcMergeCheck.java writes one posting as text:
    the rank in ten digits, the frequency, and for every position the position, its
    offsets and its payload in hex (`-` for none). Texts are ASCII codes. */
module PostingText {
  import opened Common
  import opened VarInt
  import opened TextOrder
  import opened PostingsStream

  /** A posting without its document number. */
  datatype Content = Content(freq: int, positions: seq<Position>)

  const COMMA: Byte := 44
  const MINUS: Byte := 45
  const SLASH: Byte := 47
  const COLON: Byte := 58

  function DecimalNat(n: nat): (t: Text)
    ensures |t| >= 1
  {
    if n < 10 then [48 + n] else DecimalNat(n / 10) + [48 + n % 10]
  }

  function Decimal(n: int): (t: Text) {
    if n >= 0 then DecimalNat(n) else [MINUS] + DecimalNat(-n)
  }

  /** Exactly `width` digits. */
  function Padded(n: nat, width: nat): (t: Text)
    ensures |t| == width
  {
    if width == 0 then [] else Padded(n / 10, width - 1) + [48 + n % 10]
  }

  function Pow10(k: nat): (p: nat)
    ensures p >= 1
  {
    if k == 0 then 1 else 10 * Pow10(k - 1)
  }

  /** `%010d` of a non-negative `int`, which never needs more than ten digits. */
  function RankText(rank: nat): Text {
    Padded(rank, 10)
  }

  function HexDigit(n: nat): (b: Byte)
    requires n < 16
  {
    if n < 10 then 48 + n else 87 + n
  }

  function Hex(b: seq<Byte>): (t: Text) {
    if b == [] then [] else [HexDigit(b[0] / 16), HexDigit(b[0] % 16)] + Hex(b[1..])
  }

  function PayloadText(p: Option<seq<Byte>>): Text {
    match p
    case None => [MINUS]
    case Some(b) => Hex(b)
  }

  function PositionText(p: Position): Text {
    Decimal(p.pos) + [SLASH] + Decimal(p.start) + [SLASH] + Decimal(p.end) + [SLASH] + PayloadText(p.payload)
  }

  function PositionsText(ps: seq<Position>): (t: Text) {
    if ps == [] then [] else [COMMA] + PositionText(ps[0]) + PositionsText(ps[1..])
  }

  function ContentText(c: Content, positions: bool): Text {
    Decimal(c.freq) + (if positions then PositionsText(c.positions) else [])
  }

  function Render(rank: nat, c: Content, positions: bool): Text {
    RankText(rank) + [COLON] + ContentText(c, positions)
  }

  // ---------------------------------------------------------------------------
  // Ranks: text order is number order
  // ---------------------------------------------------------------------------

  lemma {:induction false} PaddedAscends(a: nat, b: nat, width: nat)
    requires a < b < Pow10(width)
    ensures Less(Padded(a, width), Padded(b, width))
    decreases width
  {
    if width > 0 {
      var x, y := Padded(a / 10, width - 1), Padded(b / 10, width - 1);
      if a / 10 < b / 10 {
        PaddedAscends(a / 10, b / 10, width - 1);
        LessByPrefix(x, y, [48 + a % 10], [48 + b % 10]);
      } else {
        assert a / 10 == b / 10 && a % 10 < b % 10;
        LessAfterPrefix(x, [48 + a % 10], [48 + b % 10]);
      }
    }
  }

  lemma IntFitsTenDigits()
    ensures Pow10(10) == 10_000_000_000
  {
    assert Pow10(5) == 100_000;
  }

  /** The rendered texts of ascending ranks ascend. */
  lemma RenderAscends(a: nat, b: nat, c: Content, d: Content, positions: bool)
    requires a < b < 0x8000_0000
    ensures Less(Render(a, c, positions), Render(b, d, positions))
  {
    hide Padded, ContentText;
    IntFitsTenDigits();
    PaddedAscends(a, b, 10);
    var x, y := [COLON] + ContentText(c, positions), [COLON] + ContentText(d, positions);
    LessByPrefix(RankText(a), RankText(b), x, y);
    assert Render(a, c, positions) == RankText(a) + x && Render(b, d, positions) == RankText(b) + y;
  }

  lemma RenderTellsRank(a: nat, b: nat, c: Content, d: Content, positions: bool)
    requires a < 0x8000_0000 && b < 0x8000_0000
    requires Render(a, c, positions) == Render(b, d, positions)
    ensures a == b
  {
    hide Render;
    if a < b {
      RenderAscends(a, b, c, d, positions);
      LessIrreflexive(Render(a, c, positions));
    } else if b < a {
      RenderAscends(b, a, d, c, positions);
      LessIrreflexive(Render(a, c, positions));
    }
  }

  // ---------------------------------------------------------------------------
  // Contents: the text determines them
  // ---------------------------------------------------------------------------

  /** What follows a token: nothing, or the given separator. */
  ghost predicate Follows(x: Text, sep: Byte) {
    x == [] || x[0] == sep
  }

  /** A token ends at the first separator. */
  lemma {:induction false} CutToken(a: Text, b: Text, sep: Byte, x: Text, y: Text)
    requires sep !in a && sep !in b && Follows(x, sep) && Follows(y, sep)
    requires a + x == b + y
    ensures a == b && x == y
    decreases |a|
  {
    var s := a + x;
    assert a != [] ==> s[0] == a[0] && a[0] in a;
    assert b != [] ==> s[0] == b[0] && b[0] in b;
    if a != [] && b != [] {
      assert s[1..] == a[1..] + x == b[1..] + y;
      CutToken(a[1..], b[1..], sep, x, y);
      assert a == [a[0]] + a[1..] && b == [b[0]] + b[1..];
    } else {
      assert a == [] ==> s == x;
      assert b == [] ==> s == y;
    }
  }

  lemma {:induction false} DecimalNatChars(n: nat)
    ensures forall k :: 0 <= k < |DecimalNat(n)| ==> 48 <= DecimalNat(n)[k] < 58
    decreases n
  {
    if n >= 10 {
      DecimalNatChars(n / 10);
    }
  }

  lemma {:induction false} DecimalNatInjective(a: nat, b: nat)
    requires DecimalNat(a) == DecimalNat(b)
    ensures a == b
    decreases a
  {
    var x, y := DecimalNat(a), DecimalNat(b);
    assert x[|x| - 1] == 48 + a % 10 && y[|y| - 1] == 48 + b % 10;
    assert (a >= 10 <==> |x| >= 2) && (b >= 10 <==> |y| >= 2);
    if a >= 10 && b >= 10 {
      assert x[..|x| - 1] == DecimalNat(a / 10) && y[..|y| - 1] == DecimalNat(b / 10);
      DecimalNatInjective(a / 10, b / 10);
    }
  }

  lemma DecimalInjective(a: int, b: int)
    requires Decimal(a) == Decimal(b)
    ensures a == b
  {
    hide DecimalNat;
    var x, y := Decimal(a), Decimal(b);
    assert a >= 0 ==> x == DecimalNat(a);
    assert b >= 0 ==> y == DecimalNat(b);
    if a >= 0 {
      DecimalNatChars(a);
    } else {
      assert x[0] == MINUS && x[1..] == DecimalNat(-a);
    }
    if b >= 0 {
      DecimalNatChars(b);
    } else {
      assert y[0] == MINUS && y[1..] == DecimalNat(-b);
    }
    if a >= 0 && b >= 0 {
      DecimalNatInjective(a, b);
    } else if a < 0 && b < 0 {
      DecimalNatInjective(-a, -b);
    }
  }

  lemma DecimalChars(n: int)
    ensures COMMA !in Decimal(n) && SLASH !in Decimal(n)
  {
    hide DecimalNat;
    DecimalNatChars(if n >= 0 then n else -n);
  }

  lemma {:induction false} HexChars(b: seq<Byte>)
    ensures forall k :: 0 <= k < |Hex(b)| ==> 48 <= Hex(b)[k]
    ensures COMMA !in Hex(b) && MINUS !in Hex(b) && SLASH !in Hex(b)
    decreases |b|
  {
    if b != [] {
      HexChars(b[1..]);
    }
  }

  lemma {:induction false} HexInjective(a: seq<Byte>, b: seq<Byte>)
    requires Hex(a) == Hex(b)
    ensures a == b
    decreases |a|
  {
    var x, y := Hex(a), Hex(b);
    if a != [] && b != [] {
      assert x[0] == HexDigit(a[0] / 16) && x[1] == HexDigit(a[0] % 16) && x[2..] == Hex(a[1..]);
      assert y[0] == HexDigit(b[0] / 16) && y[1] == HexDigit(b[0] % 16) && y[2..] == Hex(b[1..]);
      assert a[0] / 16 == b[0] / 16 && a[0] % 16 == b[0] % 16;
      HexInjective(a[1..], b[1..]);
      assert a == [a[0]] + a[1..] && b == [b[0]] + b[1..];
    }
  }

  lemma PayloadInjective(p: Option<seq<Byte>>, q: Option<seq<Byte>>)
    requires PayloadText(p) == PayloadText(q)
    ensures p == q
  {
    hide Hex;
    if p.Some? {
      HexChars(p.value);
    }
    if q.Some? {
      HexChars(q.value);
    }
    if p.Some? && q.Some? {
      HexInjective(p.value, q.value);
    }
    assert [MINUS][0] == MINUS && MINUS in [MINUS];
  }

  /** A number up to its slash. */
  lemma CutNumber(a: int, b: int, x: Text, y: Text)
    requires Decimal(a) + [SLASH] + x == Decimal(b) + [SLASH] + y
    ensures a == b && x == y
  {
    hide Decimal;
    DecimalChars(a);
    DecimalChars(b);
    assert Decimal(a) + [SLASH] + x == Decimal(a) + ([SLASH] + x);
    assert Decimal(b) + [SLASH] + y == Decimal(b) + ([SLASH] + y);
    CutToken(Decimal(a), Decimal(b), SLASH, [SLASH] + x, [SLASH] + y);
    DecimalInjective(a, b);
    assert ([SLASH] + x)[1..] == x && ([SLASH] + y)[1..] == y;
  }

  lemma CutPositionText(p: Position, q: Position, x: Text, y: Text)
    requires Follows(x, COMMA) && Follows(y, COMMA)
    requires PositionText(p) + x == PositionText(q) + y
    ensures p == q && x == y
  {
    hide Decimal, PayloadText, Follows;
    var p1, q1 := PayloadText(p.payload) + x, PayloadText(q.payload) + y;
    var p2, q2 := Decimal(p.end) + [SLASH] + p1, Decimal(q.end) + [SLASH] + q1;
    var p3, q3 := Decimal(p.start) + [SLASH] + p2, Decimal(q.start) + [SLASH] + q2;
    assert PositionText(p) + x == Decimal(p.pos) + [SLASH] + p3;
    assert PositionText(q) + y == Decimal(q.pos) + [SLASH] + q3;
    CutNumber(p.pos, q.pos, p3, q3);
    CutNumber(p.start, q.start, p2, q2);
    CutNumber(p.end, q.end, p1, q1);
    PayloadChars(p.payload);
    PayloadChars(q.payload);
    CutToken(PayloadText(p.payload), PayloadText(q.payload), COMMA, x, y);
    PayloadInjective(p.payload, q.payload);
  }

  lemma PayloadChars(p: Option<seq<Byte>>)
    ensures COMMA !in PayloadText(p)
  {
    if p.Some? {
      HexChars(p.value);
    }
  }

  lemma {:induction false} PositionsTextInjective(ps: seq<Position>, qs: seq<Position>)
    requires PositionsText(ps) == PositionsText(qs)
    ensures ps == qs
    decreases |ps|
  {
    hide PositionText;
    var x, y := PositionsText(ps), PositionsText(qs);
    if ps != [] && qs != [] {
      var x', y' := PositionsText(ps[1..]), PositionsText(qs[1..]);
      assert x[1..] == PositionText(ps[0]) + x' && y[1..] == PositionText(qs[0]) + y';
      CutPositionText(ps[0], qs[0], x', y');
      PositionsTextInjective(ps[1..], qs[1..]);
      assert ps == [ps[0]] + ps[1..] && qs == [qs[0]] + qs[1..];
    }
  }

  /** What a posting can hold and the description keeps of it. */
  ghost predicate Kept(c: Content, positions: bool) {
    && IsFrequency(c.freq)
    && if positions then
         && c.freq == |c.positions| && InOrder(c.positions)
         && (NoOffsets(c.positions) || OffsetsInOrder(c.positions))
       else c.positions == []
  }

  lemma ContentTextInjective(c: Content, d: Content, positions: bool)
    requires Kept(c, positions) && Kept(d, positions)
    requires ContentText(c, positions) == ContentText(d, positions)
    ensures c == d
  {
    hide Decimal, PositionsText;
    DecimalChars(c.freq);
    DecimalChars(d.freq);
    var x := if positions then PositionsText(c.positions) else [];
    var y := if positions then PositionsText(d.positions) else [];
    PositionsStart(c.positions);
    PositionsStart(d.positions);
    CutToken(Decimal(c.freq), Decimal(d.freq), COMMA, x, y);
    DecimalInjective(c.freq, d.freq);
    if positions {
      PositionsTextInjective(c.positions, d.positions);
    }
  }

  lemma PositionsStart(ps: seq<Position>)
    ensures Follows(PositionsText(ps), COMMA)
  {
  }

  /** The text of a posting determines its rank and everything the field records of it. */
  lemma RenderInjective(a: nat, b: nat, c: Content, d: Content, positions: bool)
    requires a < 0x8000_0000 && b < 0x8000_0000
    requires Kept(c, positions) && Kept(d, positions)
    requires Render(a, c, positions) == Render(b, d, positions)
    ensures a == b && c == d
  {
    hide ContentText, RankText;
    RenderTellsRank(a, b, c, d, positions);
    var n := |RankText(a)| + 1;
    assert Render(a, c, positions)[n..] == ContentText(c, positions);
    assert Render(a, d, positions)[n..] == ContentText(d, positions);
    ContentTextInjective(c, d, positions);
  }

  // ---------------------------------------------------------------------------
  // The characters
  // ---------------------------------------------------------------------------

  /** One posting with two positions, character for character: `0000000007:2`, then
      `,3/-1/-1/-` and `,12/5/60/ab0c`. */
  lemma RenderExample()
    ensures Render(7, Content(2, [Position(3, -1, -1, None), Position(12, 5, 60, Some([0xAB, 0x0C]))]), true) ==
            [48, 48, 48, 48, 48, 48, 48, 48, 48, 55] + [58] + ([50] + ([44] + [51, 47, 45, 49, 47, 45, 49, 47, 45]
            + ([44] + [49, 50, 47, 53, 47, 54, 48, 47, 97, 98, 48, 99])))
  {
    hide PositionText, Padded;
    RankExample();
    PlainExample();
    PayloadExample();
    var p, q := Position(3, -1, -1, None), Position(12, 5, 60, Some([0xAB, 0x0C]));
    PositionsStep(q, []);
    PositionsStep(p, [q]);
    assert [p] + [q] == [p, q] && [q] + [] == [q];
    assert [44] + PositionText(q) + [] == [44] + PositionText(q);
  }

  lemma PositionsStep(p: Position, rest: seq<Position>)
    ensures PositionsText([p] + rest) == [44] + PositionText(p) + PositionsText(rest) && PositionsText([]) == []
  {
    hide PositionText;
    assert ([p] + rest)[1..] == rest;
  }

  lemma PlainExample()
    ensures PositionText(Position(3, -1, -1, None)) == [51, 47, 45, 49, 47, 45, 49, 47, 45]
  {
    assert Decimal(-1) == [45, 49];
  }

  lemma PayloadExample()
    ensures PositionText(Position(12, 5, 60, Some([0xAB, 0x0C]))) == [49, 50, 47, 53, 47, 54, 48, 47, 97, 98, 48, 99]
  {
    HexExample();
    hide Hex;
    assert DecimalNat(12) == DecimalNat(1) + [50] == [49, 50] && DecimalNat(60) == DecimalNat(6) + [48] == [54, 48];
  }

  lemma HexExample()
    ensures Hex([0xAB, 0x0C]) == [97, 98, 48, 99]
  {
    assert [0x0C][1..] == [] && [0xAB, 0x0C][1..] == [0x0C];
    assert Hex([0x0C]) == [48, 99] + Hex([]);
    assert Hex([0xAB, 0x0C]) == [97, 98] + Hex([0x0C]);
  }

  lemma RankExample()
    ensures RankText(7) == [48, 48, 48, 48, 48, 48, 48, 48, 48, 55]
  {
    PaddedStep(0, 0);
    PaddedStep(0, 1);
    PaddedStep(0, 2);
    PaddedStep(0, 3);
    PaddedStep(0, 4);
    PaddedStep(0, 5);
    PaddedStep(0, 6);
    PaddedStep(0, 7);
    PaddedStep(0, 8);
    PaddedStep(7, 9);
    hide Padded;
  }

  lemma PaddedStep(n: nat, width: nat)
    ensures Padded(n, width + 1) == Padded(n / 10, width) + [48 + n % 10] && Padded(n, 0) == []
  {
  }
}
