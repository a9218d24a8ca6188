/** Python's `str.split` and `str.join` with the separators of scripts/check-licences.py. */
module LicenceText {

  /** A keyword between two spaces, such as " OR ". */
  ghost predicate Separator(sep: string, key: string) {
    sep == " " + key + " " && key != "" && forall i :: 0 <= i < |key| ==> key[i] in "ANDOR"
  }

  function JoinOn(ps: seq<string>, sep: string): (s: string) {
    if ps == [] then "" else if |ps| == 1 then ps[0] else ps[0] + sep + JoinOn(ps[1..], sep)
  }

  /** `s.split(sep)` */
  function SplitOn(s: string, sep: string): (ps: seq<string>)
    requires sep != ""
    ensures |ps| >= 1
    decreases |s|
  {
    if |s| < |sep| then [s]
    else if s[..|sep|] == sep then [""] + SplitOn(s[|sep|..], sep)
    else
      var r := SplitOn(s[1..], sep);
      [[s[0]] + r[0]] + r[1..]
  }

  ghost predicate Occurs(s: string, sep: string) {
    exists i: nat :: OccursAt(s, sep, i)
  }

  predicate OccursAt(s: string, sep: string, i: nat) {
    i + |sep| <= |s| && s[i..i + |sep|] == sep
  }

  /** The keyword is no word of the text. */
  ghost predicate Free(p: string, sep: string) {
    !Occurs(" " + p + " ", sep)
  }

  // ---------------------------------------------------------------------------
  // Splitting a join
  // ---------------------------------------------------------------------------

  /** Enough of freedom that every tail keeps. */
  ghost predicate Quiet(p: string, sep: string) {
    !Occurs(p + " ", sep)
  }

  lemma SliceOfTail(s: string, at: nat, i: nat, j: nat)
    requires i <= j && at + j <= |s|
    ensures s[at..][i..j] == s[at + i..at + j]
  {
  }

  lemma FreeIsQuiet(p: string, sep: string)
    requires Free(p, sep)
    ensures Quiet(p, sep)
  {
    forall i: nat
      ensures !OccursAt(p + " ", sep, i)
    {
      var padded := " " + p + " ";
      assert padded[1..] == p + " ";
      assert !OccursAt(padded, sep, i + 1);
      if i + |sep| <= |p + " "| {
        SliceOfTail(padded, 1, i, i + |sep|);
      }
    }
  }

  lemma QuietTail(p: string, sep: string)
    requires p != "" && Quiet(p, sep)
    ensures Quiet(p[1..], sep)
  {
    forall i: nat
      ensures !OccursAt(p[1..] + " ", sep, i)
    {
      assert !OccursAt(p + " ", sep, i + 1);
      assert (p + " ")[1..] == p[1..] + " ";
      if i + |sep| <= |p| {
        SliceOfTail(p + " ", 1, i, i + |sep|);
      }
    }
  }

  /** A quiet text does not begin with the separator, alone or in front of one. */
  lemma NotAtFront(p: string, sep: string, key: string, rest: string)
    requires Separator(sep, key) && p != "" && Quiet(p, sep)
    ensures |p| >= |sep| ==> p[..|sep|] != sep
    ensures (p + (sep + rest))[..|sep|] != sep
  {
    var k, s := |p|, p + (sep + rest);
    assert !OccursAt(p + " ", sep, 0);
    assert k < |sep| - 1 ==> sep[k] == key[k - 1];
    assert k < |sep| ==> s[..|sep|][k] == ' ';
    assert k == |sep| - 1 ==> (p + " ")[..|sep|] == s[..|sep|];
    if k >= |sep| {
      assert (p + " ")[..|sep|] == p[..|sep|] == s[..|sep|];
    }
  }

  lemma {:induction false} SplitQuiet(p: string, sep: string, key: string)
    requires Separator(sep, key) && Quiet(p, sep)
    ensures SplitOn(p, sep) == [p]
    decreases |p|
  {
    if |p| >= |sep| {
      NotAtFront(p, sep, key, "");
      QuietTail(p, sep);
      SplitQuiet(p[1..], sep, key);
      assert [p[0]] + p[1..] == p;
    }
  }

  lemma {:induction false} SplitPiece(p: string, sep: string, key: string, rest: string)
    requires Separator(sep, key) && Quiet(p, sep) && sep != ""
    ensures SplitOn(p + (sep + rest), sep) == [p] + SplitOn(rest, sep)
    decreases |p|
  {
    hide SplitOn, Separator, Quiet;
    var s := p + (sep + rest);
    if p == "" {
      assert s == sep + rest;
      SplitHere(sep, rest);
    } else {
      NotAtFront(p, sep, key, rest);
      QuietTail(p, sep);
      SplitPiece(p[1..], sep, key, rest);
      SplitLater(s, sep);
      assert s[1..] == p[1..] + (sep + rest) && [s[0]] + p[1..] == p;
    }
  }

  lemma SplitHere(sep: string, rest: string)
    requires sep != ""
    ensures SplitOn(sep + rest, sep) == [""] + SplitOn(rest, sep)
  {
    assert (sep + rest)[..|sep|] == sep && (sep + rest)[|sep|..] == rest;
  }

  lemma SplitLater(s: string, sep: string)
    requires |s| >= |sep| > 0 && s[..|sep|] != sep
    ensures var r := SplitOn(s[1..], sep); SplitOn(s, sep) == [[s[0]] + r[0]] + r[1..]
  {
  }

  /** Splitting undoes joining pieces that do not hold the keyword. */
  lemma {:induction false} SplitJoin(ps: seq<string>, sep: string, key: string)
    requires Separator(sep, key) && ps != [] && forall i :: 0 <= i < |ps| ==> Free(ps[i], sep)
    ensures SplitOn(JoinOn(ps, sep), sep) == ps
    decreases |ps|
  {
    hide SplitOn, Free;
    FreeIsQuiet(ps[0], sep);
    if |ps| == 1 {
      SplitQuiet(ps[0], sep, key);
    } else {
      SplitJoin(ps[1..], sep, key);
      SplitPiece(ps[0], sep, key, JoinOn(ps[1..], sep));
      assert ps[0] + (sep + JoinOn(ps[1..], sep)) == JoinOn(ps, sep);
      assert ps == [ps[0]] + ps[1..];
    }
  }

  // ---------------------------------------------------------------------------
  // What joining and parentheses keep free
  // ---------------------------------------------------------------------------

  lemma OccursIsWord(s: string, sep: string, key: string, i: nat)
    requires Separator(sep, key) && OccursAt(s, sep, i)
    ensures s[i] == ' ' && s[i + 1..i + 1 + |key|] == key && s[i + 1 + |key|] == ' '
    ensures forall j :: i < j <= i + |key| ==> s[j] != ' ' && s[j] != '(' && s[j] != ')'
  {
    var t := s[i..i + |sep|];
    assert forall j :: 0 <= j < |sep| ==> s[i + j] == t[j];
    assert s[i + 1..i + 1 + |key|] == t[1..1 + |key|] == key;
    forall j | i < j <= i + |key|
      ensures s[j] != ' ' && s[j] != '(' && s[j] != ')'
    {
      assert s[j] == key[j - i - 1];
    }
  }

  lemma OccursWithin(s: string, t: string, at: nat, sep: string, i: nat)
    requires at + |t| <= |s| && s[at..at + |t|] == t
    requires OccursAt(s, sep, i) && at <= i && i + |sep| <= at + |t|
    ensures Occurs(t, sep)
  {
    assert s[at..][..|t|] == t;
    assert t[i - at..i - at + |sep|] == s[at..][i - at..i - at + |sep|];
    SliceOfTail(s, at, i - at, i - at + |sep|);
    assert OccursAt(t, sep, i - at);
  }

  /** A keyword between two texts, one of another kind, is in one of them. */
  lemma OccursInOne(x: string, y: string, sep: string, key: string, con: string, other: string, i: nat)
    requires Separator(sep, key) && Separator(con, other) && key != other
    requires OccursAt(" " + (x + con + y) + " ", sep, i)
    ensures Occurs(" " + x + " ", sep) || Occurs(" " + y + " ", sep)
  {
    var s := " " + (x + con + y) + " ";
    var a, b := 1 + |x|, 2 + |x| + |other|;
    assert s == " " + x + " " + other + " " + y + " ";
    assert s[..a + 1] == " " + x + " " && s[b..] == " " + y + " ";
    hide Occurs, OccursAt, Separator;
    BesideOther(s, a, b, sep, key, other, i);
    if i < a {
      OccursWithin(s, " " + x + " ", 0, sep, i);
    } else {
      OccursWithin(s, " " + y + " ", b, sep, i);
    }
  }

  /** A keyword stands in front of another one or behind it. */
  lemma BesideOther(s: string, a: nat, b: nat, sep: string, key: string, other: string, i: nat)
    requires Separator(sep, key) && Separator(" " + other + " ", other) && key != other && OccursAt(s, sep, i)
    requires a + 1 + |other| == b < |s| && s[a] == ' ' && s[b] == ' ' && s[a + 1..b] == other
    ensures i + |sep| <= |s| && (i >= b || (i < a && i + |sep| <= a + 1))
  {
    OccursIsWord(s, sep, key, i);
    assert forall m :: a < m < b ==> s[m] == s[a + 1..b][m - a - 1] == other[m - a - 1];
  }

  lemma FreeTwo(x: string, y: string, sep: string, key: string, con: string, other: string)
    requires Separator(sep, key) && Separator(con, other) && key != other && Free(x, sep) && Free(y, sep)
    ensures Free(x + con + y, sep)
  {
    hide OccursAt, Separator;
    forall i: nat
      ensures !OccursAt(" " + (x + con + y) + " ", sep, i)
    {
      if OccursAt(" " + (x + con + y) + " ", sep, i) {
        OccursInOne(x, y, sep, key, con, other, i);
      }
    }
  }

  lemma OccursOpened(x: string, sep: string, key: string, i: nat)
    requires Separator(sep, key) && OccursAt(" " + ("(" + x) + " ", sep, i)
    ensures i >= 1 && OccursAt(" " + x + " ", sep, i - 1)
  {
    var s, t := " " + ("(" + x) + " ", " " + x + " ";
    assert s[2..] == x + " " == t[1..];
    OccursIsWord(s, sep, key, i);
    assert s[1] == '(' && i >= 2;
    assert t[i - 1..i - 1 + |sep|] == s[i..i + |sep|];
  }

  lemma OccursClosed(x: string, sep: string, key: string, i: nat)
    requires Separator(sep, key) && OccursAt(" " + (x + ")") + " ", sep, i)
    ensures OccursAt(" " + x + " ", sep, i)
  {
    var s, t := " " + (x + ")") + " ", " " + x + " ";
    OccursIsWord(s, sep, key, i);
    assert s[|x| + 1] == ')';
    assert i + 1 + |key| <= |x|;
    assert t[i..i + |sep|] == s[i..i + |sep|];
  }

  /** A parenthesis in front or behind leaves a text free. */
  lemma FreeParenthesised(x: string, sep: string, key: string)
    requires Separator(sep, key) && Free(x, sep)
    ensures Free("(" + x, sep) && Free(x + ")", sep)
  {
    hide OccursAt, Separator;
    forall i: nat
      ensures !OccursAt(" " + ("(" + x) + " ", sep, i)
    {
      if OccursAt(" " + ("(" + x) + " ", sep, i) {
        OccursOpened(x, sep, key, i);
      }
    }
    forall i: nat
      ensures !OccursAt(" " + (x + ")") + " ", sep, i)
    {
      if OccursAt(" " + (x + ")") + " ", sep, i) {
        OccursClosed(x, sep, key, i);
      }
    }
  }

  lemma {:induction false} FreeJoin(ps: seq<string>, sep: string, key: string, con: string, other: string)
    requires Separator(sep, key) && Separator(con, other) && key != other && ps != []
    requires forall i :: 0 <= i < |ps| ==> Free(ps[i], sep)
    ensures Free(JoinOn(ps, con), sep)
    decreases |ps|
  {
    hide Free;
    if |ps| > 1 {
      FreeJoin(ps[1..], sep, key, con, other);
      FreeTwo(ps[0], JoinOn(ps[1..], con), sep, key, con, other);
    }
  }

  // ---------------------------------------------------------------------------
  // Joins in parts
  // ---------------------------------------------------------------------------

  /** Every text with the separator behind it. */
  function Ended(ps: seq<string>, sep: string): string {
    if ps == [] then "" else ps[0] + sep + Ended(ps[1..], sep)
  }

  /** Every text with the separator in front of it. */
  function Led(ps: seq<string>, sep: string): string {
    if ps == [] then "" else sep + ps[0] + Led(ps[1..], sep)
  }

  lemma JoinStep(ps: seq<string>, sep: string)
    requires |ps| >= 2
    ensures JoinOn(ps, sep) == ps[0] + sep + JoinOn(ps[1..], sep)
  {
  }

  lemma {:induction false} JoinLed(p: string, ps: seq<string>, sep: string)
    ensures JoinOn([p] + ps, sep) == p + Led(ps, sep)
    decreases |ps|
  {
    assert ([p] + ps)[1..] == ps;
    if ps != [] {
      JoinLed(ps[0], ps[1..], sep);
      assert ps == [ps[0]] + ps[1..];
      assert p + sep + (ps[0] + Led(ps[1..], sep)) == p + (sep + ps[0] + Led(ps[1..], sep));
    } else {
      assert [p] + ps == [p] && p + Led(ps, sep) == p;
    }
  }

  lemma {:induction false} JoinEnded(ps: seq<string>, qs: seq<string>, sep: string)
    requires qs != []
    ensures JoinOn(ps + qs, sep) == Ended(ps, sep) + JoinOn(qs, sep)
    decreases |ps|
  {
    if ps == [] {
      assert ps + qs == qs && Ended(ps, sep) + JoinOn(qs, sep) == JoinOn(qs, sep);
    } else {
      JoinEnded(ps[1..], qs, sep);
      assert (ps + qs)[1..] == ps[1..] + qs;
      JoinStep(ps + qs, sep);
      hide JoinOn;
      var head, e, j := ps[0] + sep, Ended(ps[1..], sep), JoinOn(qs, sep);
      assert head + (e + j) == (head + e) + j;
    }
  }

  lemma {:induction false} LedAppend(ps: seq<string>, qs: seq<string>, sep: string)
    ensures Led(ps + qs, sep) == Led(ps, sep) + Led(qs, sep)
    decreases |ps|
  {
    if ps == [] {
      assert ps + qs == qs && Led(ps, sep) + Led(qs, sep) == Led(qs, sep);
    } else {
      LedAppend(ps[1..], qs, sep);
      assert (ps + qs)[1..] == ps[1..] + qs;
    }
  }

  lemma JoinAround(ps: seq<string>, ms: seq<string>, qs: seq<string>, sep: string)
    requires ms != []
    ensures JoinOn(ps + ms + qs, sep) == Ended(ps, sep) + JoinOn(ms, sep) + Led(qs, sep)
  {
    hide JoinOn, Led, Ended;
    assert ps + ms + qs == ps + (ms + qs);
    JoinEnded(ps, ms + qs, sep);
    var m, rest := ms[0], ms[1..];
    assert ms == [m] + rest && ms + qs == [m] + (rest + qs);
    JoinLed(m, rest + qs, sep);
    JoinLed(m, rest, sep);
    LedAppend(rest, qs, sep);
    assert Ended(ps, sep) + (m + (Led(rest, sep) + Led(qs, sep)))
        == Ended(ps, sep) + (m + Led(rest, sep)) + Led(qs, sep);
  }

  lemma {:induction false} EndedIsJoin(ps: seq<string>, sep: string)
    requires ps != []
    ensures Ended(ps, sep) == JoinOn(ps, sep) + sep
    decreases |ps|
  {
    if |ps| > 1 {
      EndedIsJoin(ps[1..], sep);
    } else {
      assert Ended(ps[1..], sep) == "";
    }
  }

  lemma LedIsJoin(ps: seq<string>, sep: string)
    requires ps != []
    ensures Led(ps, sep) == sep + JoinOn(ps, sep)
  {
    JoinLed(ps[0], ps[1..], sep);
    assert ps == [ps[0]] + ps[1..];
  }

  /** A join of several pieces holds its separator. */
  lemma JoinNotFree(ps: seq<string>, sep: string)
    requires |ps| >= 2
    ensures !Free(JoinOn(ps, sep), sep)
  {
    var rest := JoinOn(ps[1..], sep);
    var s := " " + JoinOn(ps, sep) + " ";
    assert s == (" " + ps[0]) + sep + (rest + " ");
    assert OccursAt(s, sep, 1 + |ps[0]|);
  }

  /** A single word is free unless it is the keyword. */
  lemma WordFree(l: string, sep: string, key: string)
    requires Separator(sep, key) && ' ' !in l && l != key
    ensures Free(l, sep)
  {
    var s := " " + l + " ";
    assert s[1..1 + |l|] == l;
    assert forall i :: 0 < i < |s| - 1 ==> s[i] == l[i - 1] && s[i] in l;
    forall i: nat
      ensures !OccursAt(s, sep, i)
    {
      if OccursAt(s, sep, i) {
        OccursIsWord(s, sep, key, i);
      }
    }
  }
}
