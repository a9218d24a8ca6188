/** The escapes of the analysis fixtures: `esc` in fixtures/src/AnalysisRows.java, its twin
    in fixtures/src/GenAnalysisCommon.java, and `unesc` in
    fixtures/src/GenAnalysisFactories.java. Java strings are sequences of UTF-16 units, lone
    surrogates included. */
module Escape {
  import opened Common

  type Unit = c: int | 0 <= c < 0x1_0000

  type Text = seq<Unit>

  const TAB: Unit := 9
  const LF: Unit := 10
  const CR: Unit := 13
  const BACKSLASH: Unit := 92
  const LOWER_N: Unit := 110
  const LOWER_R: Unit := 114
  const LOWER_T: Unit := 116
  const LOWER_U: Unit := 117

  predicate High(c: Unit) {
    0xD800 <= c <= 0xDBFF
  }

  predicate Low(c: Unit) {
    0xDC00 <= c <= 0xDFFF
  }

  /** Well-formed UTF-16 (section 2 of RFC 2781): surrogates only as high-low pairs. */
  predicate WellFormed(t: Text) {
    if t == [] then true
    else if High(t[0]) then |t| >= 2 && Low(t[1]) && WellFormed(t[2..])
    else !Low(t[0]) && WellFormed(t[1..])
  }

  // ---------------------------------------------------------------------------
  // Escaping
  // ---------------------------------------------------------------------------

  function HexUnit(n: nat): (u: Unit)
    requires n < 16
  {
    if n < 10 then 48 + n else 55 + n
  }

  /** `%04X` */
  function Hex4(c: Unit): (t: Text)
    ensures |t| == 4
  {
    [HexUnit(c / 16 / 16 / 16), HexUnit(c / 16 / 16 % 16), HexUnit(c / 16 % 16), HexUnit(c % 16)]
  }

  /** A surrogate without its partner, as AnalysisRows says it. */
  predicate Lone(s: Text, i: nat)
    requires i < |s|
  {
    && (High(s[i]) || Low(s[i]))
    && !(High(s[i]) && i + 1 < |s| && Low(s[i + 1]))
    && !(Low(s[i]) && i > 0 && High(s[i - 1]))
  }

  /** And as GenAnalysisCommon says it. */
  predicate LoneCommon(s: Text, i: nat)
    requires i < |s|
  {
    || (High(s[i]) && (i + 1 >= |s| || !Low(s[i + 1])))
    || (Low(s[i]) && (i == 0 || !High(s[i - 1])))
  }

  /** What stands for unit i. */
  function EscapeAt(s: Text, i: nat): (t: Text)
    requires i < |s|
  {
    var c := s[i];
    if c == BACKSLASH then [BACKSLASH, BACKSLASH]
    else if c == TAB then [BACKSLASH, LOWER_T]
    else if c == LF then [BACKSLASH, LOWER_N]
    else if c == CR then [BACKSLASH, LOWER_R]
    else if c < 0x20 || Lone(s, i) then [BACKSLASH, LOWER_U] + Hex4(c)
    else [c]
  }

  function EscapeFrom(s: Text, i: nat): (t: Text)
    requires i <= |s|
    decreases |s| - i
  {
    if i == |s| then [] else EscapeAt(s, i) + EscapeFrom(s, i + 1)
  }

  function Escaped(s: Text): Text {
    EscapeFrom(s, 0)
  }

  /** The body of the loop of `AnalysisRows.esc`. */
  method EscUnit(s: Text, i: nat) returns (piece: Text)
    requires i < |s|
    ensures piece == EscapeAt(s, i)
  {
    hide Hex4;
    var c := s[i];
    if c == BACKSLASH { return [BACKSLASH, BACKSLASH]; }
    if c == TAB { return [BACKSLASH, LOWER_T]; }
    if c == LF { return [BACKSLASH, LOWER_N]; }
    if c == CR { return [BACKSLASH, LOWER_R]; }
    var lone := (High(c) || Low(c))
      && !(High(c) && i + 1 < |s| && Low(s[i + 1]))
      && !(Low(c) && i > 0 && High(s[i - 1]));
    if c < 0x20 || lone {
      return [BACKSLASH, LOWER_U] + Hex4(c);
    }
    return [c];
  }

  /** `AnalysisRows.esc` */
  method Esc(s: Text) returns (b: Text)
    ensures b == Escaped(s)
  {
    hide EscapeAt;
    b := [];
    for i := 0 to |s|
      invariant b + EscapeFrom(s, i) == Escaped(s)
    {
      ghost var before, rest := b, EscapeFrom(s, i + 1);
      var piece := EscUnit(s, i);
      b := b + piece;
      assert b + rest == before + (piece + rest);
    }
    assert b + [] == b;
  }

  /** The body of the loop of `GenAnalysisCommon.esc`, which looks for lone surrogates first. */
  method EscCommonUnit(s: Text, i: nat) returns (piece: Text)
    requires i < |s|
    ensures piece == EscapeAt(s, i)
  {
    hide Hex4;
    var c := s[i];
    var lone := LoneCommon(s, i);
    SameLone(s, i);
    if c == BACKSLASH { return [BACKSLASH, BACKSLASH]; }
    if c == TAB { return [BACKSLASH, LOWER_T]; }
    if c == LF { return [BACKSLASH, LOWER_N]; }
    if c == CR { return [BACKSLASH, LOWER_R]; }
    if c < 0x20 || lone {
      return [BACKSLASH, LOWER_U] + Hex4(c);
    }
    return [c];
  }

  /** `GenAnalysisCommon.esc` */
  method EscCommon(s: Text) returns (b: Text)
    ensures b == Escaped(s)
  {
    hide EscapeAt;
    b := [];
    for i := 0 to |s|
      invariant b + EscapeFrom(s, i) == Escaped(s)
    {
      ghost var before, rest := b, EscapeFrom(s, i + 1);
      var piece := EscCommonUnit(s, i);
      b := b + piece;
      assert b + rest == before + (piece + rest);
    }
    assert b + [] == b;
  }

  lemma SameLone(s: Text, i: nat)
    requires i < |s|
    ensures Lone(s, i) <==> LoneCommon(s, i)
  {
  }

  // ---------------------------------------------------------------------------
  // Unescaping
  // ---------------------------------------------------------------------------

  function DigitValue(u: Unit): (v: int)
    ensures v < 16
  {
    if 48 <= u <= 57 then u - 48
    else if 65 <= u <= 70 then u - 55
    else if 97 <= u <= 102 then u - 87
    else -1
  }

  function HexValue(t: Text): (v: Option<nat>) {
    if t == [] then Some(0)
    else
      var init :- HexValue(t[..|t| - 1]);
      var digit := DigitValue(t[|t| - 1]);
      if digit < 0 then None else Some(16 * init + digit)
  }

  /** `(char) Integer.parseInt(t, 16)` of four units: a sign is allowed, and a negative
      number keeps its low sixteen bits. */
  function ParseHex4(t: Text): (u: Option<Unit>)
    requires |t| == 4
  {
    if t[0] == 45 then
      var v :- HexValue(t[1..]);
      Some((0x1_0000 - v % 0x1_0000) % 0x1_0000)
    else if t[0] == 43 then
      var v :- HexValue(t[1..]);
      Some(v % 0x1_0000)
    else
      var v :- HexValue(t);
      Some(v % 0x1_0000)
  }

  /** What `unesc` makes of the rest of a string; None for its exceptions. */
  function Unescaped(t: Text): (s: Option<Text>) {
    if t == [] then Some([])
    else if t[0] != BACKSLASH || |t| == 1 then
      var rest :- Unescaped(t[1..]);
      Some([t[0]] + rest)
    else if t[1] == LOWER_U then
      if |t| < 6 then None
      else
        var c :- ParseHex4(t[2..6]);
        var rest :- Unescaped(t[6..]);
        Some([c] + rest)
    else
      var rest :- Unescaped(t[2..]);
      Some([Simple(t[1])] + rest)
  }

  /** The unit a one-letter escape stands for. */
  function Simple(n: Unit): Unit {
    if n == LOWER_T then TAB else if n == LOWER_N then LF else if n == LOWER_R then CR else n
  }

  /** Puts what has been read in front of what the rest gives. */
  function Prefixed(b: Text, rest: Option<Text>): Option<Text> {
    var r :- rest;
    Some(b + r)
  }

  /** `unesc`: the loop moves its own index. */
  method Unesc(s: Text) returns (r: Option<Text>)
    ensures r == Unescaped(s)
  {
    var b: Text := [];
    var i := 0;
    assert s[0..] == s;
    NothingYet(Unescaped(s));
    while i < |s|
      invariant 0 <= i <= |s|
      invariant Unescaped(s) == Prefixed(b, Unescaped(s[i..]))
    {
      ghost var rest := s[i..];
      var c := s[i];
      if c != BACKSLASH || i + 1 == |s| {
        assert rest[1..] == s[i + 1..];
        Pushed(b, c, Unescaped(s[i + 1..]));
        b := b + [c];
        i := i + 1;
      } else {
        var n := s[i + 1];
        if n == LOWER_U {
          if i + 6 > |s| {
            return None;
          }
          assert rest[2..6] == s[i + 2..i + 6] && rest[6..] == s[i + 6..];
          var v := ParseHex4(s[i + 2..i + 6]);
          if v.None? {
            return None;
          }
          Pushed(b, v.value, Unescaped(s[i + 6..]));
          b := b + [v.value];
          i := i + 6;
        } else {
          assert rest[2..] == s[i + 2..];
          Pushed(b, Simple(n), Unescaped(s[i + 2..]));
          b := b + [Simple(n)];
          i := i + 2;
        }
      }
    }
    assert b + [] == b;
    return Some(b);
  }

  lemma NothingYet(rest: Option<Text>)
    ensures Prefixed([], rest) == rest
  {
    if rest.Some? {
      assert [] + rest.value == rest.value;
    }
  }

  lemma Pushed(b: Text, c: Unit, rest: Option<Text>)
    ensures Prefixed(b, Prefixed([c], rest)) == Prefixed(b + [c], rest)
  {
    if rest.Some? {
      assert b + ([c] + rest.value) == b + [c] + rest.value;
    }
  }

  // ---------------------------------------------------------------------------
  // Round trip
  // ---------------------------------------------------------------------------

  lemma HexDigits(a: nat, b: nat, c: nat, d: nat)
    requires a < 16 && b < 16 && c < 16 && d < 16
    ensures HexValue([HexUnit(a), HexUnit(b), HexUnit(c), HexUnit(d)]) == Some(16 * (16 * (16 * a + b) + c) + d)
  {
    var t := [HexUnit(a), HexUnit(b), HexUnit(c), HexUnit(d)];
    assert t[..3] == [t[0], t[1], t[2]] && t[..3][..2] == [t[0], t[1]] && t[..3][..2][..1] == [t[0]];
    assert [t[0]][..0] == [];
    assert HexValue([t[0]]) == Some(a);
    assert HexValue([t[0], t[1]]) == Some(16 * a + b);
    assert HexValue([t[0], t[1], t[2]]) == Some(16 * (16 * a + b) + c);
  }

  lemma ParseHex4OfHex4(c: Unit)
    ensures ParseHex4(Hex4(c)) == Some(c)
  {
    hide HexValue;
    var q1 := c / 16;
    var q2 := q1 / 16;
    var q3 := q2 / 16;
    HexDigits(q3, q2 % 16, q1 % 16, c % 16);
    assert q2 == 16 * q3 + q2 % 16 && q1 == 16 * q2 + q1 % 16 && c == 16 * q1 + c % 16;
    assert Hex4(c)[0] != 43 && Hex4(c)[0] != 45;
  }

  lemma Hex4Plain(c: Unit)
    ensures forall k :: 0 <= k < 4 ==> 0x20 <= Hex4(c)[k] < 0x80
  {
  }

  lemma UnescapeNothing()
    ensures Unescaped([]) == Some([])
  {
  }

  lemma {:induction false} UnescapeFrom(s: Text, i: nat)
    requires i <= |s|
    ensures Unescaped(EscapeFrom(s, i)) == Some(s[i..])
    decreases |s| - i
  {
    hide EscapeAt, Unescaped;
    if i == |s| {
      assert s[i..] == [] && Unescaped([]) == Some([]) by { UnescapeNothing(); }
    } else {
      UnescapeFrom(s, i + 1);
      var rest := EscapeFrom(s, i + 1);
      UnescapeOne(s, i, rest);
      assert s[i..] == [s[i]] + s[i + 1..];
    }
  }

  lemma UnescapeOne(s: Text, i: nat, rest: Text)
    requires i < |s| && Unescaped(rest).Some?
    ensures Unescaped(EscapeAt(s, i) + rest) == Some([s[i]] + Unescaped(rest).value)
  {
    hide Hex4, ParseHex4;
    var e := EscapeAt(s, i);
    var t := e + rest;
    if |e| == 1 {
      assert t[1..] == rest;
    } else if |e| == 2 {
      assert t[2..] == rest;
    } else {
      assert t[2..6] == Hex4(s[i]) && t[6..] == rest;
      ParseHex4OfHex4(s[i]);
    }
  }

  /** `unesc` undoes `esc` on every string, lone and misordered surrogates included. */
  lemma UnescapeEscape(s: Text)
    ensures Unescaped(Escaped(s)) == Some(s)
  {
    UnescapeFrom(s, 0);
    assert s[0..] == s;
  }

  // ---------------------------------------------------------------------------
  // What escaped text looks like
  // ---------------------------------------------------------------------------

  /** No control characters: in particular no tab and no line end. */
  lemma {:induction false} EscapedPrintable(s: Text, i: nat)
    requires i <= |s|
    ensures forall k :: 0 <= k < |EscapeFrom(s, i)| ==> EscapeFrom(s, i)[k] >= 0x20
    decreases |s| - i
  {
    hide Hex4;
    if i < |s| {
      EscapedPrintable(s, i + 1);
      Hex4Plain(s[i]);
      assert forall k :: 0 <= k < |EscapeAt(s, i)| ==> EscapeAt(s, i)[k] >= 0x20;
    }
  }

  /** What an escape contributes to well-formedness. */
  lemma EscapeAtKind(s: Text, i: nat)
    requires i < |s|
    ensures Lone(s, i) || (!High(s[i]) && !Low(s[i])) ==>
              forall k :: 0 <= k < |EscapeAt(s, i)| ==> !High(EscapeAt(s, i)[k]) && !Low(EscapeAt(s, i)[k])
    ensures !Lone(s, i) && (High(s[i]) || Low(s[i])) ==> EscapeAt(s, i) == [s[i]]
  {
    hide Hex4;
    Hex4Plain(s[i]);
  }

  /** From a unit that is not the second half of a pair, the escaped text is well-formed. */
  lemma {:induction false} EscapedWellFormed(s: Text, i: nat)
    requires i <= |s| && (i == |s| || !Low(s[i]) || i == 0 || !High(s[i - 1]))
    ensures WellFormed(EscapeFrom(s, i))
    decreases |s| - i
  {
    hide EscapeAt, EscapeFrom, WellFormed;
    EscapeSteps(s, i);
    if i < |s| {
      EscapeAtKind(s, i);
      if High(s[i]) && i + 1 < |s| && Low(s[i + 1]) {
        EscapeAtKind(s, i + 1);
        EscapeSteps(s, i + 1);
        EscapedWellFormed(s, i + 2);
        PairPrefix(s[i], s[i + 1], EscapeFrom(s, i + 2));
      } else {
        EscapedWellFormed(s, i + 1);
        PlainPrefix(EscapeAt(s, i), EscapeFrom(s, i + 1));
      }
    }
  }

  lemma EscapeSteps(s: Text, i: nat)
    requires i <= |s|
    ensures i < |s| ==> EscapeFrom(s, i) == EscapeAt(s, i) + EscapeFrom(s, i + 1)
    ensures i == |s| ==> WellFormed(EscapeFrom(s, i))
  {
    hide EscapeAt;
  }

  lemma PairPrefix(h: Unit, l: Unit, rest: Text)
    requires High(h) && Low(l) && WellFormed(rest)
    ensures WellFormed([h] + ([l] + rest))
  {
    assert ([h] + ([l] + rest))[2..] == rest;
  }

  lemma {:induction false} PlainPrefix(a: Text, rest: Text)
    requires WellFormed(rest) && forall k :: 0 <= k < |a| ==> !High(a[k]) && !Low(a[k])
    ensures WellFormed(a + rest)
    decreases |a|
  {
    if a == [] {
      assert a + rest == rest;
    } else {
      PlainPrefix(a[1..], rest);
      assert (a + rest)[0] == a[0] && (a + rest)[1..] == a[1..] + rest;
    }
  }

  /** No surrogate without its other half. */
  ghost predicate Paired(s: Text, i: nat)
    requires i < |s|
  {
    && (0xD800 <= s[i] <= 0xDBFF ==> i + 1 < |s| && 0xDC00 <= s[i + 1] <= 0xDFFF)
    && (0xDC00 <= s[i] <= 0xDFFF ==> i > 0 && 0xD800 <= s[i - 1] <= 0xDBFF)
  }

  /** Well-formed text has both halves of every pair. */
  lemma {:induction false} WellFormedPairs(t: Text)
    requires WellFormed(t)
    ensures forall k :: 0 <= k < |t| ==> Paired(t, k)
    decreases |t|
  {
    if t != [] {
      var n := if High(t[0]) then 2 else 1;
      var rest := t[n..];
      WellFormedPairs(rest);
      hide WellFormed;
      assert forall k :: n <= k < |t| ==> t[k] == rest[k - n];
      forall k | 0 <= k < |t|
        ensures Paired(t, k)
      {
        assert k >= n ==> Paired(rest, k - n);
      }
    }
  }

  /** The text `esc` writes can go into a UTF-8 file of tab-separated lines and come back. */
  lemma EscapedIsSafe(s: Text)
    ensures WellFormed(Escaped(s))
    ensures forall k :: 0 <= k < |Escaped(s)| ==> Paired(Escaped(s), k)
    ensures forall k :: 0 <= k < |Escaped(s)| ==> Escaped(s)[k] >= 0x20
    ensures Unescaped(Escaped(s)) == Some(s)
  {
    EscapedWellFormed(s, 0);
    EscapedPrintable(s, 0);
    UnescapeEscape(s);
    WellFormedPairs(Escaped(s));
  }

  // ---------------------------------------------------------------------------
  // What is escaped, and how
  // ---------------------------------------------------------------------------

  /** A unit that needs no escape. */
  ghost predicate Stays(s: Text, i: nat)
    requires i < |s|
  {
    s[i] >= 32 && s[i] != 92 && Paired(s, i)
  }

  /** Text of such units is its own escape, and nothing else is. */
  lemma EscapedStays(s: Text)
    ensures Escaped(s) == s ==> forall i :: 0 <= i < |s| ==> s[i] >= 32 && s[i] != 92 && Paired(s, i)
    ensures (forall i :: 0 <= i < |s| ==> s[i] >= 32 && s[i] != 92 && Paired(s, i)) ==> Escaped(s) == s
  {
    StaysFrom(s, 0);
    assert s[0..] == s;
    if Escaped(s) == s {
      forall i | 0 <= i < |s|
        ensures s[i] >= 32 && s[i] != 92 && Paired(s, i)
      {
        assert Stays(s, i);
      }
    }
    if forall i :: 0 <= i < |s| ==> s[i] >= 32 && s[i] != 92 && Paired(s, i) {
      forall i | 0 <= i < |s|
        ensures Stays(s, i)
      {
      }
    }
  }

  lemma {:induction false} StaysFrom(s: Text, i: nat)
    requires i <= |s|
    ensures |EscapeFrom(s, i)| >= |s| - i
    ensures |EscapeFrom(s, i)| == |s| - i ==> EscapeFrom(s, i) == s[i..]
    ensures |EscapeFrom(s, i)| == |s| - i <==> forall k :: i <= k < |s| ==> Stays(s, k)
    decreases |s| - i
  {
    hide Hex4, EscapeAt, Stays;
    if i < |s| {
      StaysFrom(s, i + 1);
      var piece := EscapePiece(s, i);
      StaysLength(s, i, piece);
      assert s[i..] == [s[i]] + s[i + 1..];
    }
  }

  lemma StaysLength(s: Text, i: nat, piece: Text)
    requires i < |s| && piece == EscapeAt(s, i)
    ensures |piece| >= 1 && (|piece| == 1 <==> Stays(s, i)) && (Stays(s, i) ==> piece == [s[i]])
  {
    hide Hex4;
  }

  /** What every unit becomes: itself, a letter behind a backslash, or four hexadecimal digits in
      upper case whose value it is. */
  lemma EscapePiece(s: Text, i: nat) returns (piece: Text)
    requires i < |s|
    ensures piece == EscapeAt(s, i) && EscapeFrom(s, i) == piece + EscapeFrom(s, i + 1)
    ensures s[i] == 9 ==> piece == [92, 116]
    ensures s[i] == 10 ==> piece == [92, 110]
    ensures s[i] == 13 ==> piece == [92, 114]
    ensures s[i] == 92 ==> piece == [92, 92]
    ensures Stays(s, i) ==> piece == [s[i]]
    ensures !Stays(s, i) && s[i] != 9 && s[i] != 10 && s[i] != 13 && s[i] != 92 ==>
              && |piece| == 6 && piece[..2] == [92, 117]
              && (forall k :: 2 <= k < 6 ==> 48 <= piece[k] <= 57 || 65 <= piece[k] <= 70)
              && s[i] == 4096 * Digit(piece[2]) + 256 * Digit(piece[3]) + 16 * Digit(piece[4]) + Digit(piece[5])
  {
    piece := EscapeAt(s, i);
    Hex4Digits(s[i]);
    hide Hex4, Digit;
    if |piece| == 6 {
      assert piece[2..] == Hex4(s[i]);
    }
  }

  /** A decimal digit or an upper-case letter. */
  function Digit(u: Unit): int {
    if u <= 57 then u - 48 else u - 65 + 10
  }

  lemma Hex4Digits(c: Unit)
    ensures forall k :: 0 <= k < 4 ==> 48 <= Hex4(c)[k] <= 57 || 65 <= Hex4(c)[k] <= 70
    ensures c == 4096 * Digit(Hex4(c)[0]) + 256 * Digit(Hex4(c)[1]) + 16 * Digit(Hex4(c)[2]) + Digit(Hex4(c)[3])
  {
    var q1 := c / 16;
    var q2 := q1 / 16;
    var q3 := q2 / 16;
    assert q2 == 16 * q3 + q2 % 16 && q1 == 16 * q2 + q1 % 16 && c == 16 * q1 + c % 16;
  }

  // ---------------------------------------------------------------------------
  // What is read back
  // ---------------------------------------------------------------------------

  /** `unesc` step by step: a unit alone, a letter behind a backslash, or four units behind `u`. */
  lemma UnescapeStep(t: Text)
    requires t != []
    ensures t[0] != 92 || |t| == 1 ==> Unescaped(t) == Prefixed([t[0]], Unescaped(t[1..]))
    ensures t[0] == 92 && |t| > 1 && t[1] != 117 ==>
              var c := if t[1] == 116 then 9 else if t[1] == 110 then 10 else if t[1] == 114 then 13 else t[1];
              Unescaped(t) == Prefixed([c], Unescaped(t[2..]))
    ensures t[0] == 92 && 1 < |t| < 6 && t[1] == 117 ==> Unescaped(t) == None
    ensures t[0] == 92 && |t| >= 6 && t[1] == 117 ==>
              Unescaped(t) == if ParseHex4(t[2..6]).None? then None
                              else Prefixed([ParseHex4(t[2..6]).value], Unescaped(t[6..]))
  {
    hide ParseHex4;
  }

  /** The sixteen digits, in either case. */
  lemma DigitExact(u: Unit)
    ensures forall d :: 0 <= d < 16 ==>
              (DigitValue(u) == d <==> u == "0123456789abcdef"[d] as int || u == "0123456789ABCDEF"[d] as int)
    ensures DigitValue(u) >= 0 <==> 48 <= u <= 57 || 65 <= u <= 70 || 97 <= u <= 102
  {
  }

  lemma {:induction false} HexValueExact(t: Text)
    ensures HexValue(t).Some? <==> forall k :: 0 <= k < |t| ==> DigitValue(t[k]) >= 0
    decreases |t|
  {
    hide DigitValue;
    if t != [] {
      HexValueExact(t[..|t| - 1]);
    }
  }

  /** Four digits, or a sign and three; a number below zero keeps its low sixteen bits. */
  lemma ParseHex4Exact(t: Text)
    requires |t| == 4
    ensures ParseHex4(t).Some? <==>
            && (DigitValue(t[0]) >= 0 || t[0] == 43 || t[0] == 45)
            && DigitValue(t[1]) >= 0 && DigitValue(t[2]) >= 0 && DigitValue(t[3]) >= 0
    ensures ParseHex4(t).Some? ==>
              var tail := 256 * DigitValue(t[1]) + 16 * DigitValue(t[2]) + DigitValue(t[3]);
              if t[0] == 45 then (ParseHex4(t).value + tail) % 0x1_0000 == 0
              else ParseHex4(t).value == if t[0] == 43 then tail else 4096 * DigitValue(t[0]) + tail
  {
    HexValueExact(t);
    HexValueExact(t[1..]);
    ThreeDigits(t[1], t[2], t[3]);
    assert t[1..] == [t[1], t[2], t[3]];
    FourDigits(t[0], t[1], t[2], t[3]);
    assert t == [t[0], t[1], t[2], t[3]];
    SignIsNoDigit(t[0]);
    hide DigitValue, HexValue;
    ParsedDigits(t);
  }

  lemma SignIsNoDigit(u: Unit)
    ensures u == 43 || u == 45 ==> DigitValue(u) < 0
  {
  }

  lemma ParsedDigits(t: Text)
    requires |t| == 4
    ensures ParseHex4(t).Some? <==> HexValue(if t[0] == 43 || t[0] == 45 then t[1..] else t).Some?
    ensures ParseHex4(t).Some? ==>
              var v := HexValue(if t[0] == 43 || t[0] == 45 then t[1..] else t).value;
              if t[0] == 45 then (ParseHex4(t).value + v) % 0x1_0000 == 0 else ParseHex4(t).value == v % 0x1_0000
  {
    hide HexValue;
  }

  lemma HexStep(t: Text, u: Unit)
    ensures HexValue([]) == Some(0)
    ensures HexValue(t + [u]) == if HexValue(t).None? || DigitValue(u) < 0 then None
                                 else Some(16 * HexValue(t).value + DigitValue(u))
  {
    assert (t + [u])[..|t|] == t;
  }

  lemma ThreeDigits(a: Unit, b: Unit, c: Unit)
    ensures HexValue([a, b, c]).Some? ==>
              HexValue([a, b, c]).value == 256 * DigitValue(a) + 16 * DigitValue(b) + DigitValue(c)
  {
    hide DigitValue, HexValue;
    HexStep([], a);
    HexStep([a], b);
    HexStep([a, b], c);
    assert [] + [a] == [a] && [a] + [b] == [a, b] && [a, b] + [c] == [a, b, c];
  }

  lemma FourDigits(a: Unit, b: Unit, c: Unit, d: Unit)
    ensures HexValue([a, b, c, d]).Some? ==>
              HexValue([a, b, c, d]).value ==
              4096 * DigitValue(a) + 256 * DigitValue(b) + 16 * DigitValue(c) + DigitValue(d)
  {
    hide DigitValue, HexValue;
    ThreeDigits(a, b, c);
    HexStep([a, b, c], d);
    assert [a, b, c] + [d] == [a, b, c, d];
  }
}
