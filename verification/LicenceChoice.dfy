/** `alternatives` and `chosen` of scripts/check-licences.py on the text they read: what the
    two patterns and the two splits make of the text of an expression. */
module LicenceChoice {
  import opened PythonText
  import opened LicenceText
  import opened LicenceGate

  const OR: string := " OR "
  const AND: string := " AND "

  lemma Separators()
    ensures Separator(OR, "OR") && Separator(AND, "AND")
  {
  }

  // ---------------------------------------------------------------------------
  // The text of an expression
  // ---------------------------------------------------------------------------

  /** A licence name: no parenthesis, slash or line end, no space at its ends, and neither
      keyword as a word. */
  ghost predicate ValidLicence(l: string) {
    && l != "" && !IsSpace(l[0]) && !IsSpace(l[|l| - 1])
    && '(' !in l && ')' !in l && '/' !in l && '\n' !in l
    && Free(l, OR) && Free(l, AND)
  }

  ghost predicate ValidNames(a: Alternative) {
    forall k :: 0 <= k < |a| ==> ValidLicence(a[k])
  }

  ghost predicate AllValid(alts: seq<Alternative>) {
    forall k :: 0 <= k < |alts| ==> alts[k] != [] && ValidNames(alts[k])
  }

  ghost predicate Printable(e: Expr) {
    && ValidExpr(e)
    && match e
       case Flat(alts) => AllValid(alts)
       case Grouped(before, left, group, right, after) =>
         AllValid(before) && ValidNames(left) && AllValid(group) && ValidNames(right) && AllValid(after)
  }

  function PrintAlternative(a: Alternative): string {
    JoinOn(a, AND)
  }

  function PrintEach(alts: seq<Alternative>): (ts: seq<string>)
    ensures |ts| == |alts| && forall k :: 0 <= k < |ts| ==> ts[k] == PrintAlternative(alts[k])
  {
    seq(|alts|, k requires 0 <= k < |alts| => PrintAlternative(alts[k]))
  }

  /** The text in front of the group, and behind it. */
  function Front(e: Expr): string
    requires e.Grouped?
  {
    Ended(PrintEach(e.before), OR) + Ended(e.left, AND)
  }

  function Back(e: Expr): string
    requires e.Grouped?
  {
    Led(e.right, AND) + Led(PrintEach(e.after), OR)
  }

  function Inside(e: Expr): string
    requires e.Grouped?
  {
    JoinOn(PrintEach(e.group), OR)
  }

  function Print(e: Expr): string {
    match e
    case Flat(alts) => JoinOn(PrintEach(alts), OR)
    case Grouped(_, _, _, _, _) => Front(e) + "(" + Inside(e) + ")" + Back(e)
  }

  // ---------------------------------------------------------------------------
  // `alternatives`
  // ---------------------------------------------------------------------------

  /** `expr.replace("/", " OR ")` */
  function Slashes(s: string): string {
    if s == "" then "" else (if s[0] == '/' then OR else [s[0]]) + Slashes(s[1..])
  }

  ghost predicate Spaces(w: string) {
    w != "" && forall i :: 0 <= i < |w| ==> IsSpace(w[i])
  }

  ghost predicate Dots(g: string) {
    g != "" && '\n' !in g
  }

  /** `\((.+)\)\s+AND\s+(.+)` matches all of s with these groups. */
  ghost predicate GroupThenAnd(s: string, g1: string, g2: string) {
    exists w1, w2 :: Spaces(w1) && Spaces(w2) && Dots(g1) && Dots(g2) && s == "(" + g1 + ")" + w1 + "AND" + w2 + g2
  }

  /** `(.+?)\s+AND\s+\((.+)\)` matches all of s with these groups. */
  ghost predicate AndThenGroup(s: string, g1: string, g2: string) {
    exists w1, w2 :: Spaces(w1) && Spaces(w2) && Dots(g1) && Dots(g2) && s == g1 + w1 + "AND" + w2 + "(" + g2 + ")"
  }

  /** The patterns match across any white space, and groups take any characters but line ends. */
  lemma MatchAcross(g1: string, w1: string, w2: string, g2: string)
    requires g1 != "" && g2 != "" && '\n' !in g1 && '\n' !in g2 && w1 != "" && w2 != ""
    requires forall c :: c in w1 || c in w2 ==> IsSpace(c)
    ensures GroupThenAnd("(" + g1 + ")" + w1 + "AND" + w2 + g2, g1, g2)
    ensures AndThenGroup(g1 + w1 + "AND" + w2 + "(" + g2 + ")", g1, g2)
  {
    hide IsSpace;
    assert Spaces(w1) && Spaces(w2) && Dots(g1) && Dots(g2);
  }

  /** And nothing else. */
  lemma MatchedAcross(s: string, g1: string, g2: string) returns (w1: string, w2: string)
    requires GroupThenAnd(s, g1, g2) || AndThenGroup(s, g1, g2)
    ensures g1 != "" && g2 != "" && '\n' !in g1 && '\n' !in g2 && w1 != "" && w2 != ""
    ensures forall c :: c in w1 || c in w2 ==> IsSpace(c)
    ensures GroupThenAnd(s, g1, g2) ==> s == "(" + g1 + ")" + w1 + "AND" + w2 + g2
    ensures !GroupThenAnd(s, g1, g2) ==> s == g1 + w1 + "AND" + w2 + "(" + g2 + ")"
  {
    hide IsSpace;
    if GroupThenAnd(s, g1, g2) {
      w1, w2 :| Spaces(w1) && Spaces(w2) && Dots(g1) && Dots(g2) && s == "(" + g1 + ")" + w1 + "AND" + w2 + g2;
    } else {
      w1, w2 :| Spaces(w1) && Spaces(w2) && Dots(g1) && Dots(g2) && s == g1 + w1 + "AND" + w2 + "(" + g2 + ")";
    }
  }

  function StripEach(ps: seq<string>): (qs: seq<string>)
    ensures |qs| == |ps| && forall k :: 0 <= k < |qs| ==> qs[k] == Strip(ps[k])
  {
    seq(|ps|, k requires 0 <= k < |ps| => Strip(ps[k]))
  }

  /** Every alternative of a group, with what stands outside it. */
  function WithOutside(alts: seq<string>, outside: string, first: bool): (r: seq<seq<string>>)
    ensures |r| == |alts|
    ensures forall k :: 0 <= k < |r| ==>
              r[k] == if first then [Strip(alts[k]), Strip(outside)] else [Strip(outside), Strip(alts[k])]
  {
    seq(|alts|, k requires 0 <= k < |alts| =>
      if first then [Strip(alts[k]), Strip(outside)] else [Strip(outside), Strip(alts[k])])
  }

  function CutAll(ps: seq<string>): (r: seq<seq<string>>)
    ensures |r| == |ps| && forall k :: 0 <= k < |r| ==> r[k] == StripEach(SplitOn(ps[k], AND))
  {
    seq(|ps|, k requires 0 <= k < |ps| => StripEach(SplitOn(ps[k], AND)))
  }

  /** What `alternatives` can return, whichever match the patterns find. */
  ghost predicate IsAlternatives(text: string, r: seq<seq<string>>) {
    var s := Slashes(text);
    if exists g1, g2 :: GroupThenAnd(Strip(s), g1, g2) then
      exists g1, g2 :: GroupThenAnd(Strip(s), g1, g2) && r == WithOutside(SplitOn(g1, OR), g2, true)
    else if exists g1, g2 :: AndThenGroup(Strip(s), g1, g2) then
      exists g1, g2 :: AndThenGroup(Strip(s), g1, g2) && r == WithOutside(SplitOn(g2, OR), g1, false)
    else
      r == CutAll(SplitOn(s, OR))
  }

  /** `chosen`, on the alternatives: the first with allowed parts only. */
  method Chosen(alts: seq<seq<string>>, allowed: set<string>) returns (pick: int)
    ensures -1 <= pick < |alts|
    ensures pick >= 0 ==> AllAllowed(alts[pick], allowed)
    ensures forall k :: 0 <= k < (if pick >= 0 then pick else |alts|) ==> !AllAllowed(alts[k], allowed)
  {
    for k := 0 to |alts|
      invariant forall j :: 0 <= j < k ==> !AllAllowed(alts[j], allowed)
    {
      if AllAllowed(alts[k], allowed) {
        return k;
      }
    }
    return -1;
  }

  predicate AllAllowed(alt: seq<string>, allowed: set<string>) {
    forall k :: 0 <= k < |alt| ==> alt[k] in allowed
  }

  // ---------------------------------------------------------------------------
  // What the text is made of
  // ---------------------------------------------------------------------------

  /** Text without parentheses, slashes and line ends, and with no space at its ends. */
  ghost predicate Smooth(s: string) {
    && s != "" && !IsSpace(s[0]) && !IsSpace(s[|s| - 1])
    && '(' !in s && ')' !in s && '/' !in s && '\n' !in s
  }

  lemma {:induction false} JoinSmooth(ps: seq<string>, sep: string)
    requires (sep == OR || sep == AND) && ps != [] && forall k :: 0 <= k < |ps| ==> Smooth(ps[k])
    ensures Smooth(JoinOn(ps, sep))
    decreases |ps|
  {
    if |ps| > 1 {
      JoinSmooth(ps[1..], sep);
      var a, b := ps[0], JoinOn(ps[1..], sep);
      var s := a + sep + b;
      assert s[0] == a[0] && s[|s| - 1] == b[|b| - 1];
    }
  }

  lemma AlternativeText(a: Alternative)
    requires a != [] && ValidNames(a)
    ensures Smooth(PrintAlternative(a)) && Free(PrintAlternative(a), OR)
    ensures SplitOn(PrintAlternative(a), AND) == a
  {
    hide Free, SplitOn, JoinOn;
    Separators();
    assert forall k :: 0 <= k < |a| ==> ValidLicence(a[k]);
    JoinSmooth(a, AND);
    FreeJoin(a, OR, "OR", AND, "AND");
    SplitJoin(a, AND, "AND");
  }

  lemma AlternativesText(alts: seq<Alternative>)
    requires alts != [] && AllValid(alts)
    ensures Smooth(JoinOn(PrintEach(alts), OR)) && SplitOn(JoinOn(PrintEach(alts), OR), OR) == PrintEach(alts)
  {
    hide Free, SplitOn, JoinOn, PrintAlternative;
    Separators();
    var ts := PrintEach(alts);
    forall k | 0 <= k < |ts|
      ensures Smooth(ts[k]) && Free(ts[k], OR)
    {
      AlternativeText(alts[k]);
    }
    JoinSmooth(ts, OR);
    SplitJoin(ts, OR, "OR");
  }

  lemma {:induction false} StripSmooth(s: string)
    requires s != "" && !IsSpace(s[0]) && !IsSpace(s[|s| - 1])
    ensures Strip(s) == s
  {
  }

  lemma {:induction false} NoSlashes(s: string)
    requires '/' !in s
    ensures Slashes(s) == s
    decreases |s|
  {
    if s != "" {
      NoSlashes(s[1..]);
      assert s == [s[0]] + s[1..];
    }
  }

  /** The old form `A/B` is read as `A OR B`. */
  lemma {:induction false} SlashIsOr(ps: seq<string>)
    requires ps != [] && forall k :: 0 <= k < |ps| ==> '/' !in ps[k]
    ensures Slashes(JoinOn(ps, "/")) == JoinOn(ps, OR)
    decreases |ps|
  {
    OneSlash();
    hide Slashes;
    NoSlashes(ps[0]);
    if |ps| > 1 {
      SlashIsOr(ps[1..]);
      var rest := JoinOn(ps[1..], "/");
      SlashesAppend(ps[0], "/" + rest);
      SlashesAppend("/", rest);
      assert ps[0] + ("/" + rest) == JoinOn(ps, "/");
      assert ps[0] + (OR + Slashes(rest)) == ps[0] + OR + Slashes(rest);
    }
  }

  lemma OneSlash()
    ensures Slashes("/") == OR
  {
    assert "/"[1..] == "";
  }

  lemma {:induction false} SlashesAppend(a: string, b: string)
    ensures Slashes(a + b) == Slashes(a) + Slashes(b)
    decreases |a|
  {
    if a == "" {
      assert a + b == b;
    } else {
      SlashesAppend(a[1..], b);
      assert (a + b)[0] == a[0] && (a + b)[1..] == a[1..] + b;
      var c, x, y := if a[0] == '/' then OR else [a[0]], Slashes(a[1..]), Slashes(b);
      assert c + (x + y) == c + x + y;
    }
  }

  // ---------------------------------------------------------------------------
  // Around the group
  // ---------------------------------------------------------------------------

  /** What the patterns take for the part outside the group. */
  function TextBefore(e: Expr): string
    requires e.Grouped?
  {
    JoinOn(PrintEach(e.before) + [PrintAlternative(e.left)], OR)
  }

  function TextAfter(e: Expr): string
    requires e.Grouped?
  {
    JoinOn([PrintAlternative(e.right)] + PrintEach(e.after), OR)
  }

  lemma EachSmooth(alts: seq<Alternative>)
    requires AllValid(alts)
    ensures forall k :: 0 <= k < |alts| ==> Smooth(PrintEach(alts)[k]) && Free(PrintEach(alts)[k], OR)
  {
    hide Free, PrintAlternative, Smooth;
    forall k | 0 <= k < |alts|
      ensures Smooth(PrintEach(alts)[k]) && Free(PrintEach(alts)[k], OR)
    {
      AlternativeText(alts[k]);
    }
  }

  /** The text in front of the group ends in the keyword before it. */
  lemma FrontText(e: Expr)
    requires Printable(e) && e.Grouped?
    ensures e.left != [] ==> Front(e) == TextBefore(e) + AND && Smooth(TextBefore(e))
    ensures e.left == [] && e.before != [] ==>
              Front(e) == JoinOn(PrintEach(e.before), OR) + OR && Smooth(JoinOn(PrintEach(e.before), OR))
    ensures e.left == [] && e.before == [] ==> Front(e) == ""
  {
    hide Free, JoinOn, Smooth, ValidNames, AllValid, Ended;
    var texts := PrintEach(e.before);
    EachSmooth(e.before);
    if e.left != [] {
      AlternativeText(e.left);
      EndedIsJoin(e.left, AND);
      JoinEnded(texts, [PrintAlternative(e.left)], OR);
      JoinOne(PrintAlternative(e.left), OR);
      JoinSmooth(texts + [PrintAlternative(e.left)], OR);
    } else {
      NothingAround(OR);
      NothingAround(AND);
      if e.before != [] {
        EndedIsJoin(texts, OR);
        JoinSmooth(texts, OR);
      }
    }
  }

  lemma JoinOne(p: string, sep: string)
    ensures JoinOn([p], sep) == p
  {
  }

  lemma NothingAround(sep: string)
    ensures Ended([], sep) == "" && Led([], sep) == ""
  {
  }

  lemma BackText(e: Expr)
    requires Printable(e) && e.Grouped?
    ensures e.right != [] ==> Back(e) == AND + TextAfter(e) && Smooth(TextAfter(e))
    ensures e.right == [] && e.after != [] ==>
              Back(e) == OR + JoinOn(PrintEach(e.after), OR) && Smooth(JoinOn(PrintEach(e.after), OR))
    ensures e.right == [] && e.after == [] ==> Back(e) == ""
  {
    hide Free, JoinOn, Smooth, ValidNames, AllValid, Led;
    var texts := PrintEach(e.after);
    EachSmooth(e.after);
    if e.right != [] {
      AlternativeText(e.right);
      LedIsJoin(e.right, AND);
      JoinLed(PrintAlternative(e.right), texts, OR);
      JoinSmooth([PrintAlternative(e.right)] + texts, OR);
    } else {
      NothingAround(OR);
      NothingAround(AND);
      if e.after != [] {
        LedIsJoin(texts, OR);
        JoinSmooth(texts, OR);
      }
    }
  }

  /** No parenthesis, slash or line end. */
  ghost predicate Bare(s: string) {
    '(' !in s && ')' !in s && '/' !in s && '\n' !in s
  }

  lemma AroundBare(e: Expr)
    requires Printable(e) && e.Grouped?
    ensures Bare(Front(e)) && Bare(Back(e)) && Smooth(Inside(e))
    ensures Front(e) != "" ==> !IsSpace(Front(e)[0])
    ensures Back(e) != "" ==> !IsSpace(Back(e)[|Back(e)| - 1])
  {
    hide Front, Back, TextBefore, TextAfter, JoinOn;
    FrontText(e);
    BackText(e);
    AlternativesText(e.group);
  }

  // ---------------------------------------------------------------------------
  // The two patterns
  // ---------------------------------------------------------------------------

  lemma UniqueChar(a: string, c: char, b: string, a': string, b': string)
    requires a + [c] + b == a' + [c] + b' && c !in a && c !in b
    ensures a == a' && b == b'
  {
    var s, t := a + [c] + b, a' + [c] + b';
    assert s[|a|] == c && t[|a'|] == c;
    assert forall i :: 0 <= i < |a| ==> s[i] == a[i];
    assert forall i :: |a| < i < |s| ==> s[i] == b[i - |a| - 1];
    assert |a| == |a'|;
    assert s[..|a|] == a && t[..|a|] == a' && s[|a| + 1..] == b && t[|a| + 1..] == b';
  }

  /** Single spaces around a keyword leave no choice to `\s+`. */
  lemma SpacesAhead(back: string, w1: string, w2: string, g: string, key: string, rest: string)
    requires Spaces(w1) && Spaces(w2) && back == w1 + "AND" + w2 + g && back == " " + key + " " + rest
    requires key == "AND" || key == "OR"
    requires rest != "" && !IsSpace(rest[0])
    ensures key == "AND" && g == rest
  {
    assert back[0] == ' ' && back[1] == key[0] && back[|key| + 1] == ' ' && back[|key| + 2] == rest[0];
    assert !IsSpace('A') && !IsSpace('O');
    assert forall i :: 0 <= i < |w1| ==> back[i] == w1[i];
    assert |w1| == 1;
    assert back[1] == 'A' && key == "AND";
    assert forall i :: 0 <= i < |w2| ==> back[i + 4] == w2[i];
    assert |w2| == 1;
    assert back[5..] == g && back[5..] == rest;
  }

  lemma SpacesBehind(front: string, w1: string, w2: string, g: string, key: string, rest: string)
    requires Spaces(w1) && Spaces(w2) && front == g + w1 + "AND" + w2 && front == rest + " " + key + " "
    requires key == "AND" || key == "OR"
    requires rest != "" && !IsSpace(rest[|rest| - 1])
    ensures key == "AND" && g == rest
  {
    var n := |front|;
    assert front[n - 2] == key[|key| - 1] && front[n - 2 - |key|] == ' ' && front[n - 3 - |key|] == rest[|rest| - 1];
    assert !IsSpace('D') && !IsSpace('R');
    assert forall i :: 0 <= i < |w2| ==> front[n - |w2| + i] == w2[i];
    assert |w2| == 1;
    assert front[n - 2] == 'D' && key == "AND";
    assert forall i :: 0 <= i < |w1| ==> front[n - 4 - |w1| + i] == w1[i];
    assert |w1| == 1;
    assert front[..n - 5] == g && front[..n - 5] == rest;
  }

  lemma FirstPattern(e: Expr, g1: string, g2: string)
    requires Printable(e) && GroupThenAnd(Print(e), g1, g2)
    ensures GroupFirst(e) && g1 == Inside(e) && g2 == TextAfter(e)
  {
    hide Front, Back, Inside, TextAfter, TextBefore, JoinOn, AllValid;
    var s := Print(e);
    var w1, w2 :| Spaces(w1) && Spaces(w2) && Dots(g1) && Dots(g2) && s == "(" + g1 + ")" + w1 + "AND" + w2 + g2;
    assert s[0] == '(';
    if e.Flat? {
      AlternativesText(e.alternatives);
    } else {
      AroundBare(e);
      var rest := w1 + "AND" + w2 + g2;
      assert Front(e) == "";
      assert s[1..] == Inside(e) + [')'] + Back(e) && s[1..] == g1 + [')'] + rest;
      UniqueChar(Inside(e), ')', Back(e), g1, rest);
      hide Print;
      BehindGroup(e, w1, w2, g2);
    }
  }

  /** With nothing in front of the group, AND behind it is that of the expression. */
  lemma BehindGroup(e: Expr, w1: string, w2: string, g: string)
    requires Printable(e) && e.Grouped? && Front(e) == "" && Back(e) == w1 + "AND" + w2 + g
    requires Spaces(w1) && Spaces(w2)
    ensures GroupFirst(e) && g == TextAfter(e)
  {
    hide Front, Back, TextAfter, TextBefore, JoinOn, AllValid;
    FrontText(e);
    BackText(e);
    if e.right != [] {
      SpacesAhead(Back(e), w1, w2, g, "AND", TextAfter(e));
    } else if e.after != [] {
      SpacesAhead(Back(e), w1, w2, g, "OR", JoinOn(PrintEach(e.after), OR));
    }
  }

  lemma SecondPattern(e: Expr, g1: string, g2: string)
    requires Printable(e) && AndThenGroup(Print(e), g1, g2)
    ensures e.Grouped? && e.after == [] && e.right == [] && e.left != []
    ensures g1 == TextBefore(e) && g2 == Inside(e)
  {
    hide Front, Back, Inside, TextAfter, TextBefore, JoinOn, AllValid;
    var s := Print(e);
    var w1, w2 :| Spaces(w1) && Spaces(w2) && Dots(g1) && Dots(g2) && s == g1 + w1 + "AND" + w2 + "(" + g2 + ")";
    var front := g1 + w1 + "AND" + w2;
    assert s == front + ['('] + (g2 + ")") && s[|s| - 1] == ')';
    if e.Flat? {
      AlternativesText(e.alternatives);
    } else {
      AroundBare(e);
      FrontText(e);
      BackText(e);
      assert Back(e) == "";
      assert s == Front(e) + ['('] + (Inside(e) + ")");
      UniqueChar(Front(e), '(', Inside(e) + ")", front, g2 + ")");
      assert Inside(e) == (Inside(e) + ")")[..|Inside(e)|] && g2 == (g2 + ")")[..|g2|];
      if e.left != [] {
        SpacesBehind(front, w1, w2, g1, "AND", TextBefore(e));
      } else if e.before != [] {
        SpacesBehind(front, w1, w2, g1, "OR", JoinOn(PrintEach(e.before), OR));
      }
    }
  }

  lemma PatternsMatch(e: Expr)
    requires Printable(e)
    ensures GroupFirst(e) ==> GroupThenAnd(Print(e), Inside(e), TextAfter(e))
    ensures GroupLast(e) ==> AndThenGroup(Print(e), TextBefore(e), Inside(e))
  {
    hide Front, Back, Inside, TextAfter, TextBefore, JoinOn, AllValid;
    if e.Grouped? {
      AroundBare(e);
      FrontText(e);
      BackText(e);
      var one := " ";
      assert Spaces(one);
      if GroupFirst(e) {
        assert Print(e) == "(" + Inside(e) + ")" + one + "AND" + one + TextAfter(e);
      } else if GroupLast(e) {
        assert Print(e) == TextBefore(e) + one + "AND" + one + "(" + Inside(e) + ")";
      }
    }
  }

  lemma PrintEnds(e: Expr)
    requires Printable(e)
    ensures Slashes(Print(e)) == Print(e) && Strip(Print(e)) == Print(e)
  {
    hide Front, Back, Inside, JoinOn, AllValid;
    var s := Print(e);
    assert !IsSpace('(') && !IsSpace(')');
    if e.Flat? {
      AlternativesText(e.alternatives);
    } else {
      AroundBare(e);
      var f, b := Front(e), Back(e);
      assert s[0] == if f == "" then '(' else f[0];
      assert s[|s| - 1] == if b == "" then ')' else b[|b| - 1];
    }
    NoSlashes(s);
    StripSmooth(s);
  }

  // ---------------------------------------------------------------------------
  // The cut
  // ---------------------------------------------------------------------------

  function WordText(w: Word): string {
    (if w.open then "(" else "") + w.licence + (if w.close then ")" else "")
  }

  function WordTexts(p: Piece): (ts: seq<string>)
    ensures |ts| == |p| && forall k :: 0 <= k < |ts| ==> ts[k] == WordText(p[k])
  {
    seq(|p|, k requires 0 <= k < |p| => WordText(p[k]))
  }

  function PieceTexts(ps: seq<Piece>): (ts: seq<string>)
    ensures |ts| == |ps| && forall k :: 0 <= k < |ts| ==> ts[k] == JoinOn(WordTexts(ps[k]), AND)
  {
    seq(|ps|, k requires 0 <= k < |ps| => JoinOn(WordTexts(ps[k]), AND))
  }

  lemma PlainTexts(a: Alternative)
    ensures WordTexts(Plain(a)) == a
  {
    assert forall k :: 0 <= k < |a| ==> WordText(Plain(a)[k]) == a[k];
  }

  lemma PlainAllTexts(alts: seq<Alternative>)
    ensures PieceTexts(PlainAll(alts)) == PrintEach(alts)
  {
    hide JoinOn;
    forall k | 0 <= k < |alts|
      ensures PieceTexts(PlainAll(alts))[k] == PrintEach(alts)[k]
    {
      PlainTexts(alts[k]);
    }
  }

  lemma OpenedWords(a: Alternative)
    requires a != []
    ensures WordTexts(Opened(a)) == ["(" + a[0]] + a[1..]
  {
    var p, texts := Opened(a), WordTexts(Opened(a));
    assert texts[0] == "(" + a[0];
    forall k | 0 < k < |a|
      ensures texts[k] == a[k]
    {
      assert p[k] == Plain(a[1..])[k - 1];
    }
  }

  lemma OpenedText(a: Alternative)
    requires a != []
    ensures JoinOn(WordTexts(Opened(a)), AND) == "(" + PrintAlternative(a)
  {
    hide JoinOn, WordTexts, Opened, Led;
    OpenedWords(a);
    JoinLed("(" + a[0], a[1..], AND);
    JoinLed(a[0], a[1..], AND);
    assert a == [a[0]] + a[1..];
    assert ("(" + a[0]) + Led(a[1..], AND) == "(" + (a[0] + Led(a[1..], AND));
  }

  /** Closing the last word closes the text. */
  lemma ClosedText(p: Piece)
    requires p != [] && !p[|p| - 1].close
    ensures JoinOn(WordTexts(Closed(p)), AND) == JoinOn(WordTexts(p), AND) + ")"
  {
    hide JoinOn;
    var init, last := p[..|p| - 1], p[|p| - 1];
    var texts := WordTexts(init);
    assert WordText(last.(close := true)) == WordText(last) + ")";
    assert WordTexts(Closed(p)) == texts + [WordText(last) + ")"];
    assert WordTexts(p) == texts + [WordText(last)];
    JoinEnded(texts, [WordText(last) + ")"], AND);
    JoinEnded(texts, [WordText(last)], AND);
    JoinOne(WordText(last), AND);
    JoinOne(WordText(last) + ")", AND);
    assert Ended(texts, AND) + (WordText(last) + ")") == Ended(texts, AND) + WordText(last) + ")";
  }

  lemma WordTextsAppend(p: Piece, q: Piece)
    ensures WordTexts(p + q) == WordTexts(p) + WordTexts(q)
  {
  }

  /** The words of a piece with plain ones around it. */
  lemma AroundText(left: Alternative, p: Piece, right: Alternative)
    requires p != []
    ensures JoinOn(WordTexts(Plain(left) + p + Plain(right)), AND) ==
            Ended(left, AND) + JoinOn(WordTexts(p), AND) + Led(right, AND)
  {
    hide JoinOn, Ended, Led, WordTexts;
    WordTextsAppend(Plain(left) + p, Plain(right));
    WordTextsAppend(Plain(left), p);
    PlainTexts(left);
    PlainTexts(right);
    WordCount(p);
    JoinAround(left, WordTexts(p), right, AND);
  }

  lemma WordCount(p: Piece)
    ensures |WordTexts(p)| == |p|
  {
  }

  /** The pieces that hold a parenthesis, and those between them. */
  function Middle(e: Expr): (ps: seq<Piece>)
    requires ValidExpr(e) && e.Grouped?
    ensures ps != [] && Pieces(e) == PlainAll(e.before) + ps + PlainAll(e.after)
  {
    var n := |e.group|;
    if n == 1 then [Plain(e.left) + Closed(Opened(e.group[0])) + Plain(e.right)]
    else
      [Plain(e.left) + Opened(e.group[0])] + PlainAll(e.group[1..n - 1])
      + [Closed(Plain(e.group[n - 1])) + Plain(e.right)]
  }

  lemma SingleMiddle(e: Expr)
    requires ValidExpr(e) && e.Grouped? && |e.group| == 1
    ensures JoinOn(PieceTexts(Middle(e)), OR) == Ended(e.left, AND) + "(" + Inside(e) + ")" + Led(e.right, AND)
  {
    hide JoinOn, Ended, Led, WordTexts, Opened;
    var g := e.group[0];
    AroundText(e.left, Closed(Opened(g)), e.right);
    OpenedOpen(g);
    ClosedText(Opened(g));
    OpenedText(g);
    JoinOne(PieceTexts(Middle(e))[0], OR);
    JoinOne(PrintAlternative(g), OR);
    assert PieceTexts(Middle(e)) == [PieceTexts(Middle(e))[0]] && PrintEach(e.group) == [PrintAlternative(g)];
    assert Ended(e.left, AND) + ("(" + Inside(e) + ")") + Led(e.right, AND)
        == Ended(e.left, AND) + "(" + Inside(e) + ")" + Led(e.right, AND);
  }

  lemma OpenedOpen(a: Alternative)
    requires a != []
    ensures Opened(a) != [] && !Opened(a)[|a| - 1].close
  {
  }

  lemma SeveralMiddle(e: Expr)
    requires ValidExpr(e) && e.Grouped? && |e.group| >= 2
    ensures JoinOn(PieceTexts(Middle(e)), OR) == Ended(e.left, AND) + "(" + Inside(e) + ")" + Led(e.right, AND)
  {
    hide JoinOn, Ended, Led, WordTexts, Opened, Closed;
    var n := |e.group|;
    var g, h, inner := e.group[0], e.group[n - 1], e.group[1..n - 1];
    var first, last := Plain(e.left) + Opened(g), Closed(Plain(h)) + Plain(e.right);
    FirstLast(e.left, g, h, e.right);
    PlainAllTexts(inner);
    var f, z, mid := JoinOn(WordTexts(first), AND), JoinOn(WordTexts(last), AND), PrintEach(inner);
    assert PieceTexts(Middle(e)) == [f] + mid + [z];
    assert PrintEach(e.group) == [PrintAlternative(g)] + mid + [PrintAlternative(h)];
    EndsOfJoin(f, mid, z, OR);
    EndsOfJoin(PrintAlternative(g), mid, PrintAlternative(h), OR);
    Regroup(Ended(e.left, AND), PrintAlternative(g), Led(mid, OR), PrintAlternative(h), Led(e.right, AND));
  }

  lemma Regroup(l: string, g: string, mid: string, h: string, r: string)
    ensures (l + ("(" + g)) + mid + OR + ((h + ")") + r) == l + "(" + (g + mid + OR + h) + ")" + r
  {
  }

  lemma EndsOfJoin(f: string, mid: seq<string>, z: string, sep: string)
    ensures JoinOn([f] + mid + [z], sep) == f + Led(mid, sep) + sep + z
  {
    hide JoinOn;
    assert [f] + mid + [z] == [f] + (mid + [z]);
    JoinLed(f, mid + [z], sep);
    LedAppend(mid, [z], sep);
    assert Led([z], sep) == sep + z + Led([z][1..], sep);
  }

  lemma FirstLast(left: Alternative, g: Alternative, h: Alternative, right: Alternative)
    requires g != [] && h != []
    ensures JoinOn(WordTexts(Plain(left) + Opened(g)), AND) == Ended(left, AND) + ("(" + PrintAlternative(g))
    ensures JoinOn(WordTexts(Closed(Plain(h)) + Plain(right)), AND) == (PrintAlternative(h) + ")") + Led(right, AND)
  {
    hide JoinOn, WordTexts, Opened, Closed;
    NothingAround(AND);
    AroundText(left, Opened(g), []);
    assert Plain(left) + Opened(g) + Plain([]) == Plain(left) + Opened(g);
    OpenedText(g);
    AroundText([], Closed(Plain(h)), right);
    assert Plain([]) + Closed(Plain(h)) + Plain(right) == Closed(Plain(h)) + Plain(right);
    ClosedText(Plain(h));
    PlainTexts(h);
  }

  lemma PieceTextsAppend(ps: seq<Piece>, qs: seq<Piece>)
    ensures PieceTexts(ps + qs) == PieceTexts(ps) + PieceTexts(qs)
  {
    hide JoinOn;
  }

  /** The text of an expression is that of its pieces with ORs between them. */
  lemma PrintIsPieces(e: Expr)
    requires ValidExpr(e)
    ensures Print(e) == JoinOn(PieceTexts(Pieces(e)), OR)
  {
    hide JoinOn, Pieces, Ended, Led, Middle;
    if e.Flat? {
      assert Pieces(e) == PlainAll(e.alternatives) by { FlatPieces(e); }
      PlainAllTexts(e.alternatives);
    } else {
      var b, m, a := PlainAll(e.before), Middle(e), PlainAll(e.after);
      PieceTextsAppend(b + m, a);
      PieceTextsAppend(b, m);
      PlainAllTexts(e.before);
      PlainAllTexts(e.after);
      JoinAround(PrintEach(e.before), PieceTexts(m), PrintEach(e.after), OR);
      if |e.group| == 1 {
        SingleMiddle(e);
      } else {
        SeveralMiddle(e);
      }
      var front, back := Ended(PrintEach(e.before), OR), Led(PrintEach(e.after), OR);
      Around(front, Ended(e.left, AND), Inside(e), Led(e.right, AND), back);
    }
  }

  lemma Around(b: string, l: string, g: string, r: string, a: string)
    ensures b + (l + "(" + g + ")" + r) + a == (b + l) + "(" + g + ")" + (r + a)
  {
  }

  lemma FlatPieces(e: Expr)
    requires ValidExpr(e) && e.Flat?
    ensures Pieces(e) == PlainAll(e.alternatives)
  {
  }

  // ---------------------------------------------------------------------------
  // `alternatives` of the text of an expression
  // ---------------------------------------------------------------------------

  ghost predicate ValidPiece(p: Piece) {
    p != [] && ValidWords(p)
  }

  ghost predicate ValidWords(p: Piece) {
    forall j :: 0 <= j < |p| ==> ValidLicence(p[j].licence)
  }

  lemma WordsValid(a: Alternative)
    requires ValidNames(a)
    ensures ValidWords(Plain(a))
    ensures a != [] ==> ValidWords(Opened(a)) && ValidWords(Closed(Plain(a))) && ValidWords(Closed(Opened(a)))
  {
    hide ValidLicence;
  }

  lemma PlainAllValid(alts: seq<Alternative>)
    requires AllValid(alts)
    ensures forall k :: 0 <= k < |alts| ==> ValidPiece(PlainAll(alts)[k])
  {
    hide ValidWords, ValidNames;
    forall k | 0 <= k < |alts|
      ensures ValidPiece(PlainAll(alts)[k])
    {
      WordsValid(alts[k]);
    }
  }

  lemma MiddleValid(e: Expr)
    requires Printable(e) && e.Grouped?
    ensures forall k :: 0 <= k < |Middle(e)| ==> ValidPiece(Middle(e)[k])
  {
    hide ValidLicence, ValidNames, Pieces, Opened, Closed;
    var n := |e.group|;
    assert ValidNames(e.group[0]) && ValidNames(e.group[n - 1]);
    WordsValid(e.left);
    WordsValid(e.right);
    WordsValid(e.group[0]);
    WordsValid(e.group[n - 1]);
    if n > 1 {
      PlainAllValid(e.group[1..n - 1]);
    }
  }

  lemma PiecesValid(e: Expr)
    requires Printable(e)
    ensures forall k :: 0 <= k < |Pieces(e)| ==> ValidPiece(Pieces(e)[k])
  {
    hide ValidPiece, AllValid, ValidNames, Pieces, Middle;
    if e.Flat? {
      FlatPieces(e);
      PlainAllValid(e.alternatives);
    } else {
      PlainAllValid(e.before);
      PlainAllValid(e.after);
      MiddleValid(e);
      assert Pieces(e) == PlainAll(e.before) + Middle(e) + PlainAll(e.after);
    }
  }

  lemma WordFacts(w: Word)
    requires ValidLicence(w.licence)
    ensures Free(WordText(w), OR) && Free(WordText(w), AND) && Strip(WordText(w)) == WordText(w)
  {
    hide Free;
    Separators();
    var l := w.licence;
    FreeParenthesised(l, OR, "OR");
    FreeParenthesised(l, AND, "AND");
    FreeParenthesised("(" + l, OR, "OR");
    FreeParenthesised("(" + l, AND, "AND");
    var s := WordText(w);
    assert s == if w.open then if w.close then "(" + l + ")" else "(" + l else if w.close then l + ")" else l;
    assert !IsSpace('(') && !IsSpace(')');
    assert s[0] == if w.open then '(' else l[0];
    assert s[|s| - 1] == if w.close then ')' else l[|l| - 1];
    StripSmooth(s);
  }

  lemma PieceFacts(p: Piece)
    requires ValidPiece(p)
    ensures Free(JoinOn(WordTexts(p), AND), OR)
    ensures StripEach(SplitOn(JoinOn(WordTexts(p), AND), AND)) == WordTexts(p)
  {
    hide Free, JoinOn, SplitOn, Strip, WordText;
    Separators();
    var ts := WordTexts(p);
    forall k | 0 <= k < |ts|
      ensures Free(ts[k], OR) && Free(ts[k], AND) && Strip(ts[k]) == ts[k]
    {
      WordFacts(p[k]);
    }
    FreeJoin(ts, OR, "OR", AND, "AND");
    SplitJoin(ts, AND, "AND");
  }

  function EachWordTexts(ps: seq<Piece>): (r: seq<seq<string>>)
    ensures |r| == |ps| && forall k :: 0 <= k < |r| ==> r[k] == WordTexts(ps[k])
  {
    seq(|ps|, k requires 0 <= k < |ps| => WordTexts(ps[k]))
  }

  /** The alternatives as the structure of the expression gives them. */
  function AlternativeTexts(e: Expr): (r: seq<seq<string>>)
    requires ValidExpr(e)
  {
    if GroupFirst(e) then seq(|e.group|, k requires 0 <= k < |e.group| => [PrintAlternative(e.group[k]), TextAfter(e)])
    else if GroupLast(e) then
      seq(|e.group|, k requires 0 <= k < |e.group| => [TextBefore(e), PrintAlternative(e.group[k])])
    else EachWordTexts(Pieces(e))
  }

  lemma CutText(e: Expr)
    requires Printable(e)
    ensures CutAll(SplitOn(Print(e), OR)) == EachWordTexts(Pieces(e))
  {
    hide Free, JoinOn, SplitOn, Print, ValidPiece, Pieces, WordTexts;
    var ps := Pieces(e);
    var ts := PieceTexts(ps);
    PrintIsPieces(e);
    PiecesValid(e);
    SomePiece(e);
    forall k | 0 <= k < |ps|
      ensures Free(ts[k], OR) && StripEach(SplitOn(ts[k], AND)) == WordTexts(ps[k])
    {
      PieceFacts(ps[k]);
    }
    Separators();
    SplitJoin(ts, OR, "OR");
  }

  lemma SomePiece(e: Expr)
    requires ValidExpr(e)
    ensures Pieces(e) != []
  {
  }

  lemma GroupTexts(e: Expr, outside: string, first: bool)
    requires Printable(e) && e.Grouped? && Strip(outside) == outside
    ensures var r := WithOutside(SplitOn(Inside(e), OR), outside, first);
            && |r| == |e.group|
            && forall k :: 0 <= k < |r| ==>
                 var text := PrintAlternative(e.group[k]);
                 r[k] == if first then [text, outside] else [outside, text]
  {
    hide JoinOn, SplitOn, Free, Strip, PrintAlternative;
    AlternativesText(e.group);
    forall k | 0 <= k < |e.group|
      ensures Strip(PrintEach(e.group)[k]) == PrintAlternative(e.group[k])
    {
      AlternativeText(e.group[k]);
      StripSmooth(PrintAlternative(e.group[k]));
    }
  }

  lemma OutsideText(e: Expr)
    requires Printable(e) && e.Grouped?
    ensures e.right != [] ==> Strip(TextAfter(e)) == TextAfter(e)
    ensures e.left != [] ==> Strip(TextBefore(e)) == TextBefore(e)
  {
    hide TextAfter, TextBefore, Front, Back, JoinOn, Strip;
    FrontText(e);
    BackText(e);
    if e.right != [] {
      StripSmooth(TextAfter(e));
    }
    if e.left != [] {
      StripSmooth(TextBefore(e));
    }
  }

  /** `alternatives` of the text of an expression is what its structure gives, whichever
      match the patterns find. */
  lemma AlternativesOfText(e: Expr, r: seq<seq<string>>)
    requires Printable(e)
    ensures IsAlternatives(Print(e), r) <==> r == AlternativeTexts(e)
  {
    hide Print, GroupThenAnd, AndThenGroup, TextAfter, TextBefore, Inside, SplitOn, Strip, PrintAlternative, Pieces;
    hide Printable, EachWordTexts, CutAll, WithOutside;
    var s := Print(e);
    PrintEnds(e);
    PatternsMatch(e);
    PrintableValid(e);
    forall g1, g2 | GroupThenAnd(s, g1, g2)
      ensures GroupFirst(e) && g1 == Inside(e) && g2 == TextAfter(e)
    {
      FirstPattern(e, g1, g2);
    }
    if GroupFirst(e) {
      OutsideText(e);
      GroupTexts(e, TextAfter(e), true);
      assert WithOutside(SplitOn(Inside(e), OR), TextAfter(e), true) == AlternativeTexts(e);
    } else {
      forall g1, g2 | AndThenGroup(s, g1, g2)
        ensures GroupLast(e) && g1 == TextBefore(e) && g2 == Inside(e)
      {
        SecondPattern(e, g1, g2);
      }
      if GroupLast(e) {
        OutsideText(e);
        GroupTexts(e, TextBefore(e), false);
        assert WithOutside(SplitOn(Inside(e), OR), TextBefore(e), false) == AlternativeTexts(e);
      } else {
        CutText(e);
      }
    }
  }

  lemma PrintableValid(e: Expr)
    requires Printable(e)
    ensures ValidExpr(e)
  {
  }

  // ---------------------------------------------------------------------------
  // What the choice means
  // ---------------------------------------------------------------------------

  ghost predicate ValidAllowed(allowed: set<string>) {
    forall l :: l in allowed ==> ValidLicence(l)
  }

  lemma TogetherText(a: Alternative, allowed: set<string>)
    requires ValidAllowed(allowed) && a != []
    ensures PrintAlternative(a) in allowed <==> Together(a, allowed)
  {
    hide Free, JoinOn;
    if |a| == 1 {
      assert a == [a[0]];
      JoinOne(a[0], AND);
    } else {
      JoinNotFree(a, AND);
    }
  }

  lemma OutsideInAllowed(texts: seq<string>, a: Alternative, allowed: set<string>)
    requires ValidAllowed(allowed) && a != []
    ensures JoinOn(texts + [PrintAlternative(a)], OR) in allowed <==> texts == [] && Together(a, allowed)
    ensures JoinOn([PrintAlternative(a)] + texts, OR) in allowed <==> texts == [] && Together(a, allowed)
  {
    hide Free, JoinOn, Together, PrintAlternative;
    if texts == [] {
      assert texts + [PrintAlternative(a)] == [PrintAlternative(a)] == [PrintAlternative(a)] + texts;
      JoinOne(PrintAlternative(a), OR);
      TogetherText(a, allowed);
    } else {
      JoinNotFree(texts + [PrintAlternative(a)], OR);
      JoinNotFree([PrintAlternative(a)] + texts, OR);
    }
  }

  lemma WordInAllowed(w: Word, allowed: set<string>)
    requires ValidAllowed(allowed)
    ensures WordText(w) in allowed <==> PartAllowed([w], allowed)
  {
    hide Free;
    var s := WordText(w);
    if w.open {
      assert s[0] == '(';
    }
    if w.close {
      assert s[|s| - 1] == ')';
    }
    assert !w.open && !w.close ==> s == w.licence;
  }

  ghost predicate SomeAllowed(alts: seq<seq<string>>, allowed: set<string>) {
    exists k :: 0 <= k < |alts| && AllAllowed(alts[k], allowed)
  }

  /** `chosen` picks an alternative of the text exactly when the structural reading passes. */
  lemma ChosenOfText(e: Expr, allowed: set<string>)
    requires Printable(e) && ValidAllowed(allowed)
    ensures SomeAllowed(AlternativeTexts(e), allowed) <==> Passes(e, allowed)
  {
    hide Together, PrintAlternative, Pieces, ValidAllowed, WordTexts, PieceAllowed;
    var alts := AlternativeTexts(e);
    if GroupFirst(e) || GroupLast(e) {
      var sides, context := if GroupFirst(e) then e.after else e.before, if GroupFirst(e) then e.right else e.left;
      OutsideInAllowed(PrintEach(sides), context, allowed);
      forall k | 0 <= k < |alts|
        ensures AllAllowed(alts[k], allowed) <==>
                Together(e.group[k], allowed) && OutsideAllowed(sides, context, allowed)
      {
        TogetherText(e.group[k], allowed);
        PairAllowed(alts[k], allowed);
      }
    } else {
      forall k | 0 <= k < |alts|
        ensures AllAllowed(alts[k], allowed) <==> PieceAllowed(Pieces(e)[k], allowed)
      {
        PieceInAllowed(Pieces(e)[k], allowed);
      }
    }
  }

  lemma PairAllowed(alt: seq<string>, allowed: set<string>)
    requires |alt| == 2
    ensures AllAllowed(alt, allowed) <==> alt[0] in allowed && alt[1] in allowed
  {
  }

  lemma PieceInAllowed(p: Piece, allowed: set<string>)
    requires ValidAllowed(allowed)
    ensures AllAllowed(WordTexts(p), allowed) <==> PieceAllowed(p, allowed)
  {
    hide ValidAllowed, WordText;
    forall j | 0 <= j < |p|
      ensures WordTexts(p)[j] in allowed <==> PartAllowed([p[j]], allowed)
    {
      WordInAllowed(p[j], allowed);
    }
  }

  /** Read from its text, an expression that is not met never passes, whatever valid licences
      are allowed, exactly when it cannot be misread. */
  lemma TextSoundIff(e: Expr)
    requires Printable(e)
    ensures (forall r, allowed ::
               (IsAlternatives(Print(e), r) && ValidAllowed(allowed) && SomeAllowed(r, allowed)) ==> Met(e, allowed))
            <==> !Misread(e)
  {
    hide IsAlternatives, SomeAllowed, AlternativeTexts, Print, Printable, Passes, Met, ValidAllowed, ValidExpr;
    PrintableValid(e);
    SoundIffNotMisread(e);
    AlternativesOfText(e, AlternativeTexts(e));
    if Misread(e) {
      var allowed := MisreadAllowed(e);
      ChosenOfText(e, allowed);
    } else {
      forall r, allowed | IsAlternatives(Print(e), r) && ValidAllowed(allowed) && SomeAllowed(r, allowed)
        ensures Met(e, allowed)
      {
        AlternativesOfText(e, r);
        ChosenOfText(e, allowed);
      }
    }
  }

  lemma MisreadAllowed(e: Expr) returns (allowed: set<string>)
    requires Printable(e) && Misread(e)
    ensures ValidAllowed(allowed) && Passes(e, allowed) && !Met(e, allowed)
  {
    hide ValidLicence, Passes, Holds;
    var j :| 0 < j < |e.group| - 1 && ReadAlone(e, j);
    allowed := LicencesOf(e.group[j]);
    OwnLicences(e.group[j], allowed);
    assert ValidNames(e.group[j]);
    CutPasses(e, allowed);
    assert MiddleHolds(e, allowed);
  }

  /** And one that is met always passes, exactly when it is read in full. */
  lemma TextCompleteIff(e: Expr)
    requires Printable(e)
    ensures (forall r, allowed ::
               (IsAlternatives(Print(e), r) && ValidAllowed(allowed) && Met(e, allowed)) ==> SomeAllowed(r, allowed))
            <==> ReadInFull(e)
  {
    hide IsAlternatives, SomeAllowed, AlternativeTexts, Print, Printable, Passes, Met, ValidAllowed, ValidExpr;
    hide ReadInFull;
    PrintableValid(e);
    CompleteIffReadInFull(e);
    AlternativesOfText(e, AlternativeTexts(e));
    if ReadInFull(e) {
      forall r, allowed | IsAlternatives(Print(e), r) && ValidAllowed(allowed) && Met(e, allowed)
        ensures SomeAllowed(r, allowed)
      {
        AlternativesOfText(e, r);
        ChosenOfText(e, allowed);
      }
    } else {
      var allowed :| Met(e, allowed) && !Passes(e, allowed);
      var valid := NamesIn(e, allowed);
      ChosenOfText(e, valid);
    }
  }

  ghost function AllNames(alts: seq<Alternative>): set<string> {
    set i, j | 0 <= i < |alts| && 0 <= j < |alts[i]| :: alts[i][j]
  }

  ghost function NamesOf(e: Expr): set<string> {
    match e
    case Flat(alts) => AllNames(alts)
    case Grouped(before, left, group, right, after) =>
      AllNames(before) + AllNames([left]) + AllNames(group) + AllNames([right]) + AllNames(after)
  }

  lemma HoldsNames(alts: seq<Alternative>, i: nat, allowed: set<string>, names: set<string>)
    requires i < |alts| && AllNames(alts) <= names
    ensures Holds(alts[i], allowed * names) <==> Holds(alts[i], allowed)
  {
    forall j | 0 <= j < |alts[i]|
      ensures alts[i][j] in names
    {
      assert alts[i][j] in AllNames(alts);
    }
  }

  lemma SomeHoldsNames(alts: seq<Alternative>, allowed: set<string>, names: set<string>)
    requires AllNames(alts) <= names
    ensures SomeHolds(alts, allowed * names) <==> SomeHolds(alts, allowed)
  {
    hide Holds, AllNames;
    forall i | 0 <= i < |alts|
      ensures Holds(alts[i], allowed * names) <==> Holds(alts[i], allowed)
    {
      HoldsNames(alts, i, allowed, names);
    }
  }

  /** Only the licences of the expression matter. */
  lemma NamesIn(e: Expr, allowed: set<string>) returns (valid: set<string>)
    requires Printable(e) && Met(e, allowed) && !Passes(e, allowed)
    ensures ValidAllowed(valid) && Met(e, valid) && !Passes(e, valid)
  {
    hide Holds, Passes, SomeHolds, AllNames;
    var names := NamesOf(e);
    valid := allowed * names;
    NamesValid(e);
    if Passes(e, valid) {
      PassesMore(e, valid, allowed);
    }
    match e
    case Flat(alts) =>
      SomeHoldsNames(alts, allowed, names);
    case Grouped(before, left, group, right, after) =>
      SomeHoldsNames(before, allowed, names);
      SomeHoldsNames(after, allowed, names);
      SomeHoldsNames(group, allowed, names);
      HoldsNames([left], 0, allowed, names);
      HoldsNames([right], 0, allowed, names);
  }

  lemma NamesValid(e: Expr)
    requires Printable(e)
    ensures ValidAllowed(NamesOf(e))
  {
    hide ValidLicence;
  }

  /** More allowed licences never pass less. */
  lemma PassesMore(e: Expr, small: set<string>, large: set<string>)
    requires ValidExpr(e) && small <= large && Passes(e, small)
    ensures Passes(e, large)
  {
    hide Pieces;
    if CutAsIs(e) {
      var k :| 0 <= k < |Pieces(e)| && PieceAllowed(Pieces(e)[k], small);
      assert forall j :: 0 <= j < |Pieces(e)[k]| ==> PartAllowed([Pieces(e)[k][j]], small);
      assert PieceAllowed(Pieces(e)[k], large);
    }
  }

  /** On its text, `GPL-3.0 AND (A OR MIT OR B) AND GPL-2.0` passes on MIT alone. */
  lemma MisreadText()
    ensures var e := Grouped([], ["GPL-3.0"], [["A"], ["MIT"], ["B"]], ["GPL-2.0"], []);
            && Print(e) == "GPL-3.0 AND (A OR MIT OR B) AND GPL-2.0" && Printable(e) && !Met(e, {"MIT"})
            && forall r :: IsAlternatives(Print(e), r) ==> SomeAllowed(r, {"MIT"})
  {
    var e := Grouped([], ["GPL-3.0"], [["A"], ["MIT"], ["B"]], ["GPL-2.0"], []);
    MisreadPrint();
    MisreadPrintable();
    MisreadExample();
    hide Print, Printable, IsAlternatives, SomeAllowed, AlternativeTexts, Passes, Met, ValidExpr;
    ChosenOfText(e, {"MIT"});
    forall r | IsAlternatives(Print(e), r)
      ensures SomeAllowed(r, {"MIT"})
    {
      AlternativesOfText(e, r);
    }
  }

  lemma SimpleLicence(l: string)
    requires l != "" && l != "OR" && l != "AND" && Bare(l) && forall i :: 0 <= i < |l| ==> !IsSpace(l[i])
    ensures ValidLicence(l)
  {
    Separators();
    assert IsSpace(' ');
    WordFree(l, OR, "OR");
    WordFree(l, AND, "AND");
  }

  lemma MisreadPrintable()
    ensures Printable(Grouped([], ["GPL-3.0"], [["A"], ["MIT"], ["B"]], ["GPL-2.0"], []))
    ensures ValidAllowed({"MIT"})
  {
    hide ValidLicence;
    SimpleLicence("GPL-3.0");
    SimpleLicence("GPL-2.0");
    SimpleLicence("A");
    SimpleLicence("MIT");
    SimpleLicence("B");
  }

  lemma MisreadPrint()
    ensures Print(Grouped([], ["GPL-3.0"], [["A"], ["MIT"], ["B"]], ["GPL-2.0"], [])) ==
            "GPL-3.0 AND (A OR MIT OR B) AND GPL-2.0"
  {
    PrintThree("GPL-3.0", "A", "MIT", "B", "GPL-2.0");
    hide Print;
    assert "A" + OR + ("MIT" + OR + "B") == "A OR MIT OR B";
    assert "GPL-3.0" + AND + "(" + "A OR MIT OR B" + ")" + (AND + "GPL-2.0")
        == "GPL-3.0 AND (A OR MIT OR B) AND GPL-2.0";
  }

  lemma PrintThree(l: string, a: string, b: string, c: string, r: string)
    ensures Print(Grouped([], [l], [[a], [b], [c]], [r], [])) ==
            l + AND + "(" + (a + OR + (b + OR + c)) + ")" + (AND + r)
  {
    var e := Grouped([], [l], [[a], [b], [c]], [r], []);
    EndedIsJoin([l], AND);
    LedIsJoin([r], AND);
    NothingAround(OR);
    JoinOne(l, AND);
    JoinOne(r, AND);
    assert PrintEach(e.group) == [a, b, c];
    assert [a, b, c][1..] == [b, c] && [b, c][1..] == [c];
    assert JoinOn([b, c], OR) == b + OR + JoinOn([c], OR);
    hide JoinOn, Ended, Led;
    assert "" + (l + AND) == l + AND && (AND + r) + "" == AND + r;
  }
}
