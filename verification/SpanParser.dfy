/** The S-expression of span queries and its recursive-descent parser in
    fixtures/src/AppendSpanExtentManifest.java:

      t(field,term)   n(slop,inOrder,child,..)   o(child,child,..)

    The parser accepts exactly the spellings of query trees, and stops exactly at the end
    of the expression whatever follows. */
module SpanParser {

  datatype Span =
    | Term(field: string, term: string)
    | Near(slop: nat, inOrder: bool, clauses: seq<Span>)
    | Or(clauses: seq<Span>)

  datatype Parsed<+T> = Got(value: T, at: nat) | Fail

  /** `Character.isLetterOrDigit`: any classification that has the ASCII letters and digits
      and none of the punctuation of the syntax. */
  type Letters = char -> bool

  ghost predicate Sane(letter: Letters) {
    && (forall c :: 'a' <= c <= 'z' || '0' <= c <= '9' ==> letter(c))
    && !letter('(') && !letter(')') && !letter(',')
  }

  predicate WordChar(c: char, letter: Letters) {
    letter(c) || c == '_'
  }

  predicate IsWord(w: string, letter: Letters) {
    w != "" && forall k :: 0 <= k < |w| ==> WordChar(w[k], letter)
  }

  // ---------------------------------------------------------------------------
  // Numbers and flags
  // ---------------------------------------------------------------------------

  predicate AllDigits(w: string) {
    forall k :: 0 <= k < |w| ==> '0' <= w[k] <= '9'
  }

  function DigitsValue(w: string): nat
    requires AllDigits(w)
  {
    if w == "" then 0 else 10 * DigitsValue(w[..|w| - 1]) + (w[|w| - 1] as int - '0' as int)
  }

  /** `Integer.parseInt` of a word (words have no sign); out of range is an error. */
  function ParseInt(w: string): Parsed<nat> {
    if w != "" && AllDigits(w) && DigitsValue(w) < 0x8000_0000 then Got(DigitsValue(w), |w|) else Fail
  }

  predicate SameLetter(c: char, lower: char)
    requires 'a' <= lower <= 'z'
  {
    c == lower || c as int == lower as int - 32
  }

  /** `Boolean.parseBoolean`: "true" in any case. */
  predicate ParseBool(w: string) {
    |w| == 4 && SameLetter(w[0], 't') && SameLetter(w[1], 'r') && SameLetter(w[2], 'u') && SameLetter(w[3], 'e')
  }

  /** The four letters, each in either case. */
  lemma ParseBoolExact(w: string)
    ensures ParseBool(w) <==> |w| == 4 && w[0] in "tT" && w[1] in "rR" && w[2] in "uU" && w[3] in "eE"
  {
  }

  /** A word is a number exactly when it is all digits and fits an int. */
  lemma ParseIntExact(w: string)
    ensures ParseInt(w).Got? ==> (forall k :: 0 <= k < |w| ==> w[k] in "0123456789") && ParseInt(w).value <= 2147483647
    ensures ParseInt(w).Fail? ==>
              || w == "" || (exists k :: 0 <= k < |w| && w[k] !in "0123456789")
              || (AllDigits(w) && DigitsValue(w) > 2147483647)
  {
  }

  // ---------------------------------------------------------------------------
  // The parser
  // ---------------------------------------------------------------------------

  function WordEnd(src: string, at: nat, letter: Letters): (end: nat)
    ensures at <= end && (at <= |src| ==> end <= |src|)
    decreases |src| - at
  {
    if at < |src| && WordChar(src[at], letter) then WordEnd(src, at + 1, letter) else at
  }

  function Word(src: string, at: nat, letter: Letters): (r: Parsed<string>)
    ensures r.Got? ==> at < r.at <= |src|
  {
    var end := WordEnd(src, at, letter);
    if end > at then Got(src[at..end], end) else Fail
  }

  /** `charAt(at) == c`; past the end is an error. */
  predicate Sees(src: string, at: nat, c: char) {
    at < |src| && src[at] == c
  }

  /** Two words and the comma between them. */
  function TwoWords(src: string, at: nat, letter: Letters): (r: Parsed<(string, string)>)
    ensures r.Got? ==> at < r.at <= |src|
  {
    var first := Word(src, at, letter);
    if first.Fail? || !Sees(src, first.at, ',') then Fail
    else
      var second := Word(src, first.at + 1, letter);
      if second.Fail? then Fail else Got((first.value, second.value), second.at)
  }

  function Expr(src: string, at: nat, letter: Letters): (r: Parsed<Span>)
    ensures r.Got? ==> at < r.at <= |src|
    decreases |src| - at, 1
  {
    if at >= |src| || !Sees(src, at + 1, '(') then Fail
    else
      var body := Body(src, at, letter);
      if body.Fail? || !Sees(src, body.at, ')') then Fail else Got(body.value, body.at + 1)
  }

  /** What stands between the parentheses. */
  function Body(src: string, at: nat, letter: Letters): (r: Parsed<Span>)
    requires at + 1 < |src|
    ensures r.Got? ==> at + 2 < r.at <= |src|
    decreases |src| - at, 0
  {
    if src[at] == 't' then
      var words := TwoWords(src, at + 2, letter);
      if words.Fail? then Fail else Got(Term(words.value.0, words.value.1), words.at)
    else if src[at] == 'n' then
      var words := TwoWords(src, at + 2, letter);
      if words.Fail? || ParseInt(words.value.0).Fail? then Fail
      else
        var clauses := Clauses(src, words.at, letter);
        if clauses.Fail? then Fail
        else Got(Near(ParseInt(words.value.0).value, ParseBool(words.value.1), clauses.value), clauses.at)
    else if src[at] == 'o' then
      var first := Expr(src, at + 2, letter);
      if first.Fail? then Fail
      else
        var clauses := Clauses(src, first.at, letter);
        if clauses.Fail? then Fail else Got(Or([first.value] + clauses.value), clauses.at)
    else Fail
  }

  /** `while (src.charAt(at) == ',')` */
  function Clauses(src: string, at: nat, letter: Letters): (r: Parsed<seq<Span>>)
    ensures r.Got? ==> at <= r.at <= |src|
    decreases |src| - at, 2
  {
    if at >= |src| then Fail
    else if src[at] != ',' then Got([], at)
    else
      var first := Expr(src, at + 1, letter);
      if first.Fail? then Fail
      else
        var rest := Clauses(src, first.at, letter);
        if rest.Fail? then Fail else Got([first.value] + rest.value, rest.at)
  }

  function Parse(src: string, letter: Letters): (r: Parsed<Span>) {
    var q := Expr(src, 0, letter);
    if q.Got? && q.at == |src| then q else Fail
  }

  /** The parser object: `at` moves forward; None stands for the exception. */
  class Parser {
    const src: string
    const letter: Letters
    var at: nat

    constructor (src: string, letter: Letters)
      ensures this.src == src && this.letter == letter && at == 0
    {
      this.src, this.letter, at := src, letter, 0;
    }

    method ReadWord() returns (r: Parsed<string>)
      modifies this
      ensures r == Word(src, old(at), letter) && (r.Got? ==> at == r.at)
      ensures r.Got? ==> r.value == src[old(at)..at]
      ensures r.Got? ==> forall k :: old(at) <= k < at ==> letter(src[k]) || src[k] == '_'
      ensures at < |src| ==> !letter(src[at]) && src[at] != '_'
      ensures r.Fail? ==> at == old(at)
    {
      var start := at;
      while at < |src| && WordChar(src[at], letter)
        invariant start <= at && WordEnd(src, at, letter) == WordEnd(src, start, letter)
        invariant start <= |src| ==> at <= |src|
        invariant forall k :: start <= k < at ==> k < |src| && WordChar(src[k], letter)
        decreases |src| - at
      {
        at := at + 1;
      }
      if at <= start {
        return Fail;
      }
      return Got(src[start..at], at);
    }

    method ReadTwoWords() returns (r: Parsed<(string, string)>)
      modifies this
      ensures r == TwoWords(src, old(at), letter) && (r.Got? ==> at == r.at)
    {
      var first := ReadWord();
      if first.Fail? || !Sees(src, at, ',') {
        return Fail;
      }
      at := at + 1;
      var second := ReadWord();
      if second.Fail? {
        return Fail;
      }
      return Got((first.value, second.value), at);
    }

    method ReadExpr() returns (r: Parsed<Span>)
      modifies this
      ensures r == Expr(src, old(at), letter) && (r.Got? ==> at == r.at)
      decreases |src| - at, 1
    {
      if at >= |src| || !Sees(src, at + 1, '(') {
        return Fail;
      }
      var result := ReadBody();
      if result.Fail? || !Sees(src, at, ')') {
        return Fail;
      }
      at := at + 1;
      return Got(result.value, at);
    }

    /** The part of `expr` between its opening and its closing parenthesis. */
    method ReadBody() returns (r: Parsed<Span>)
      requires at + 1 < |src|
      modifies this
      ensures r == Body(src, old(at), letter) && (r.Got? ==> at == r.at)
      decreases |src| - at, 0
    {
      hide TwoWords, ParseInt, ParseBool, Expr, Clauses;
      var kind := src[at];
      at := at + 2;
      if kind == 't' {
        var words := ReadTwoWords();
        if words.Fail? { return Fail; }
        return Got(Term(words.value.0, words.value.1), at);
      } else if kind == 'n' {
        var words := ReadTwoWords();
        if words.Fail? || ParseInt(words.value.0).Fail? { return Fail; }
        ghost var c := Clauses(src, at, letter);
        assert c.Got? ==> [] + c.value == c.value;
        var clauses := ReadClauses([]);
        if clauses.Fail? { return Fail; }
        return Got(Near(ParseInt(words.value.0).value, ParseBool(words.value.1), clauses.value), at);
      } else if kind == 'o' {
        var first := ReadExpr();
        if first.Fail? { return Fail; }
        var clauses := ReadClauses([first.value]);
        if clauses.Fail? { return Fail; }
        return Got(Or(clauses.value), at);
      } else {
        return Fail;
      }
    }

    /** The clause loop, adding to the list begun before it. */
    method ReadClauses(begun: seq<Span>) returns (r: Parsed<seq<Span>>)
      modifies this
      ensures var c := Clauses(src, old(at), letter);
              r == (if c.Fail? then Fail else Got(begun + c.value, c.at)) && (r.Got? ==> at == r.at)
      decreases |src| - at, 2
    {
      var clauses := begun;
      ghost var start := at;
      while Sees(src, at, ',')
        invariant start <= at
        invariant var c, whole := Clauses(src, at, letter), Clauses(src, start, letter);
                  if c.Fail? then whole.Fail?
                  else whole.Got? && begun + whole.value == clauses + c.value && whole.at == c.at
        decreases |src| - at
      {
        at := at + 1;
        var next := ReadExpr();
        if next.Fail? { return Fail; }
        ghost var c := Clauses(src, at, letter);
        assert c.Got? ==> clauses + ([next.value] + c.value) == clauses + [next.value] + c.value;
        clauses := clauses + [next.value];
      }
      if at >= |src| {
        return Fail;
      }
      assert clauses + [] == clauses;
      return Got(clauses, at);
    }

    method ReadAll() returns (r: Parsed<Span>)
      requires at == 0
      modifies this
      ensures r == Parse(src, letter)
    {
      var q := ReadExpr();
      if q.Fail? || at != |src| {
        return Fail;
      }
      return q;
    }
  }

  // ---------------------------------------------------------------------------
  // The language
  // ---------------------------------------------------------------------------

  /** s is a text of the tree: numbers with leading zeros and flags in any case included. */
  ghost predicate Spells(t: Span, s: string, letter: Letters)
    decreases t, 1
  {
    match t
    case Term(f, w) =>
      IsWord(f, letter) && IsWord(w, letter) && s == TermText(f, w)
    case Near(slop, inOrder, clauses) =>
      exists n, b, cs ::
        NearParts(slop, inOrder, n, b, letter) && s == NearText(n, b, cs) && SpellsAll(clauses, cs, letter)
    case Or(clauses) =>
      clauses != [] &&
      exists c0, cs :: s == OrText(c0, cs) && Spells(clauses[0], c0, letter) && SpellsAll(clauses[1..], cs, letter)
  }

  ghost predicate SpellsAll(clauses: seq<Span>, s: string, letter: Letters)
    decreases clauses, 0
  {
    if clauses == [] then s == ""
    else
      exists c0, cs ::
        s == ClauseText(c0, cs) && Spells(clauses[0], c0, letter) && SpellsAll(clauses[1..], cs, letter)
  }

  function TermText(f: string, w: string): string {
    "t(" + f + "," + w + ")"
  }

  function NearText(n: string, b: string, cs: string): string {
    "n(" + n + "," + b + cs + ")"
  }

  function OrText(c0: string, cs: string): string {
    "o(" + c0 + cs + ")"
  }

  function ClauseText(c0: string, cs: string): string {
    "," + c0 + cs
  }

  ghost predicate NearParts(slop: nat, inOrder: bool, n: string, b: string, letter: Letters) {
    && IsWord(n, letter) && ParseInt(n).Got? && ParseInt(n).value == slop
    && IsWord(b, letter) && ParseBool(b) == inOrder
  }

  /** `s` stands in `src` at `at`. */
  predicate At(src: string, at: nat, s: string) {
    at + |s| <= |src| && src[at..at + |s|] == s
  }

  lemma AtParts(src: string, at: nat, a: string, b: string)
    requires At(src, at, a + b)
    ensures At(src, at, a) && At(src, at + |a|, b)
  {
    var both := src[at..at + |a + b|];
    assert src[at..at + |a|] == both[..|a|] == a;
    assert src[at + |a|..at + |a| + |b|] == both[|a|..] == b;
  }

  lemma AtChar(src: string, at: nat, c: char)
    requires At(src, at, [c])
    ensures Sees(src, at, c)
  {
    assert src[at] == src[at..at + 1][0];
  }

  // --- every spelling is read

  lemma {:induction false} WordEndExact(src: string, at: nat, w: string, letter: Letters)
    requires At(src, at, w) && forall k :: 0 <= k < |w| ==> WordChar(w[k], letter)
    requires at + |w| < |src| && !WordChar(src[at + |w|], letter)
    ensures WordEnd(src, at, letter) == at + |w|
    decreases |w|
  {
    if w != "" {
      assert w == [w[0]] + w[1..];
      AtParts(src, at, [w[0]], w[1..]);
      AtChar(src, at, w[0]);
      WordEndExact(src, at + 1, w[1..], letter);
    }
  }

  lemma ReadsWord(src: string, at: nat, w: string, letter: Letters)
    requires At(src, at, w) && IsWord(w, letter)
    requires at + |w| < |src| && !WordChar(src[at + |w|], letter)
    ensures Word(src, at, letter) == Got(w, at + |w|)
  {
    WordEndExact(src, at, w, letter);
  }

  lemma ReadsTwoWords(src: string, at: nat, f: string, w: string, letter: Letters)
    requires Sane(letter) && At(src, at, f + "," + w) && IsWord(f, letter) && IsWord(w, letter)
    requires var end := at + |f| + 1 + |w|; end < |src| && !WordChar(src[end], letter)
    ensures TwoWords(src, at, letter) == Got((f, w), at + |f| + 1 + |w|)
  {
    hide At, IsWord, Word;
    AtParts(src, at, f + ",", w);
    AtParts(src, at, f, ",");
    AtChar(src, at + |f|, ',');
    ReadsWord(src, at, f, letter);
    ReadsWord(src, at + |f| + 1, w, letter);
  }

  lemma ExprNear(src: string, at: nat, n: string, b: string, p: nat, clauses: seq<Span>, e: nat, letter: Letters)
    requires Sees(src, at, 'n') && Sees(src, at + 1, '(') && Sees(src, e, ')')
    requires TwoWords(src, at + 2, letter) == Got((n, b), p) && ParseInt(n).Got?
    requires Clauses(src, p, letter) == Got(clauses, e)
    ensures Expr(src, at, letter) == Got(Near(ParseInt(n).value, ParseBool(b), clauses), e + 1)
  {
    hide TwoWords, ParseInt, ParseBool, Clauses;
  }

  lemma ExprOr(src: string, at: nat, first: Span, p: nat, clauses: seq<Span>, e: nat, letter: Letters)
    requires Sees(src, at, 'o') && Sees(src, at + 1, '(') && Sees(src, e, ')')
    requires Expr(src, at + 2, letter) == Got(first, p) && Clauses(src, p, letter) == Got(clauses, e)
    ensures Expr(src, at, letter) == Got(Or([first] + clauses), e + 1)
  {
    hide TwoWords, ParseInt, Clauses;
    assert Body(src, at, letter) == Got(Or([first] + clauses), e);
  }

  lemma ClausesNext(src: string, at: nat, first: Span, p: nat, rest: seq<Span>, e: nat, letter: Letters)
    requires Sees(src, at, ',')
    requires Expr(src, at + 1, letter) == Got(first, p) && Clauses(src, p, letter) == Got(rest, e)
    ensures Clauses(src, at, letter) == Got([first] + rest, e)
  {
    hide Expr;
  }

  /** Wherever a spelling of a tree stands, `expr` reads that tree and stops behind it. */
  lemma {:induction false} ReadsSpelling(src: string, at: nat, t: Span, s: string, letter: Letters)
    requires Sane(letter) && Spells(t, s, letter) && At(src, at, s)
    ensures Expr(src, at, letter) == Got(t, at + |s|)
    decreases t, 1
  {
    hide Expr, SpellsAll, IsWord, Sane, At;
    match t
    case Term(f, w) =>
      ReadsTerm(src, at, f, w, letter);
    case Near(slop, inOrder, clauses) =>
      ReadsNear(src, at, t, s, letter);
    case Or(clauses) =>
      ReadsOr(src, at, t, s, letter);
  }

  lemma {:induction false} ReadsNear(src: string, at: nat, t: Span, s: string, letter: Letters)
    requires Sane(letter) && t.Near? && Spells(t, s, letter) && At(src, at, s)
    ensures Expr(src, at, letter) == Got(t, at + |s|)
    decreases t, 0
  {
    hide Expr, Clauses, SpellsAll, TwoWords, ParseInt, ParseBool, IsWord, Sane, At;
    var n, b, cs :|
      NearParts(t.slop, t.inOrder, n, b, letter) && s == NearText(n, b, cs) && SpellsAll(t.clauses, cs, letter);
    NearHead(src, at, n, b, cs, t.clauses, letter);
    var p := at + 2 + |n| + 1 + |b|;
    ReadsClauses(src, p, t.clauses, cs, letter);
    ExprNear(src, at, n, b, p, t.clauses, p + |cs|, letter);
  }

  lemma {:induction false} ReadsOr(src: string, at: nat, t: Span, s: string, letter: Letters)
    requires Sane(letter) && t.Or? && Spells(t, s, letter) && At(src, at, s)
    ensures Expr(src, at, letter) == Got(t, at + |s|)
    decreases t, 0
  {
    hide Expr, Clauses, SpellsAll, IsWord, Sane, At;
    var c0, cs :| s == OrText(c0, cs) && Spells(t.clauses[0], c0, letter) && SpellsAll(t.clauses[1..], cs, letter);
    OrHead(src, at, c0, cs);
    ReadsSpelling(src, at + 2, t.clauses[0], c0, letter);
    ReadsClauses(src, at + 2 + |c0|, t.clauses[1..], cs, letter);
    ExprOr(src, at, t.clauses[0], at + 2 + |c0|, t.clauses[1..], at + 2 + |c0| + |cs|, letter);
    assert t.clauses == [t.clauses[0]] + t.clauses[1..];
  }

  lemma {:induction false} ReadsClauses(src: string, at: nat, clauses: seq<Span>, s: string, letter: Letters)
    requires Sane(letter) && SpellsAll(clauses, s, letter) && At(src, at, s)
    requires Sees(src, at + |s|, ')')
    ensures Clauses(src, at, letter) == Got(clauses, at + |s|)
    decreases clauses, 0
  {
    hide Expr, Sane, At, Spells;
    if clauses != [] {
      var c0, cs :| s == ClauseText(c0, cs) && Spells(clauses[0], c0, letter) && SpellsAll(clauses[1..], cs, letter);
      AtParts(src, at, "," + c0, cs);
      AtParts(src, at, ",", c0);
      AtChar(src, at, ',');
      ReadsSpelling(src, at + 1, clauses[0], c0, letter);
      ReadsClauses(src, at + 1 + |c0|, clauses[1..], cs, letter);
      ClausesNext(src, at, clauses[0], at + 1 + |c0|, clauses[1..], at + |s|, letter);
      assert clauses == [clauses[0]] + clauses[1..];
    }
  }

  lemma ReadsTerm(src: string, at: nat, f: string, w: string, letter: Letters)
    requires Sane(letter) && IsWord(f, letter) && IsWord(w, letter) && At(src, at, TermText(f, w))
    ensures Expr(src, at, letter) == Got(Term(f, w), at + |TermText(f, w)|)
  {
    hide At, IsWord, TwoWords;
    assert TermText(f, w) == "t" + ("(" + ((f + "," + w) + ")"));
    AtParts(src, at, "t", "(" + ((f + "," + w) + ")"));
    AtParts(src, at + 1, "(", (f + "," + w) + ")");
    AtParts(src, at + 2, f + "," + w, ")");
    AtChar(src, at, 't');
    AtChar(src, at + 1, '(');
    AtChar(src, at + 2 + |f| + 1 + |w|, ')');
    ReadsTwoWords(src, at + 2, f, w, letter);
  }

  lemma NearHead(src: string, at: nat, n: string, b: string, cs: string, clauses: seq<Span>, letter: Letters)
    requires Sane(letter) && IsWord(n, letter) && IsWord(b, letter) && At(src, at, NearText(n, b, cs))
    requires SpellsAll(clauses, cs, letter)
    ensures Sees(src, at, 'n') && Sees(src, at + 1, '(')
    ensures TwoWords(src, at + 2, letter) == Got((n, b), at + 2 + |n| + 1 + |b|)
    ensures At(src, at + 2 + |n| + 1 + |b|, cs) && Sees(src, at + 2 + |n| + 1 + |b| + |cs|, ')')
  {
    hide At, IsWord, TwoWords, Spells, SpellsAll;
    assert NearText(n, b, cs) == "n" + ("(" + ((n + "," + b) + (cs + ")")));
    AtParts(src, at, "n", "(" + ((n + "," + b) + (cs + ")")));
    AtParts(src, at + 1, "(", (n + "," + b) + (cs + ")"));
    AtParts(src, at + 2, n + "," + b, cs + ")");
    AtChar(src, at, 'n');
    AtChar(src, at + 1, '(');
    var p := at + 2 + |n| + 1 + |b|;
    AtParts(src, p, cs, ")");
    AtChar(src, p + |cs|, ')');
    ClausesStart(clauses, cs, letter);
    if cs != "" {
      assert cs == "," + cs[1..];
      AtParts(src, p, ",", cs[1..]);
      AtChar(src, p, ',');
    }
    ReadsTwoWords(src, at + 2, n, b, letter);
  }

  lemma ClausesStart(clauses: seq<Span>, cs: string, letter: Letters)
    requires SpellsAll(clauses, cs, letter)
    ensures cs == "" || cs[0] == ','
  {
    if clauses != [] {
      var c0, rest :|
        cs == ClauseText(c0, rest) && Spells(clauses[0], c0, letter) && SpellsAll(clauses[1..], rest, letter);
    }
  }

  lemma OrHead(src: string, at: nat, c0: string, cs: string)
    requires At(src, at, OrText(c0, cs))
    ensures Sees(src, at, 'o') && Sees(src, at + 1, '(')
    ensures At(src, at + 2, c0) && At(src, at + 2 + |c0|, cs) && Sees(src, at + 2 + |c0| + |cs|, ')')
  {
    hide At;
    assert OrText(c0, cs) == "o" + ("(" + (c0 + (cs + ")")));
    AtParts(src, at, "o", "(" + (c0 + (cs + ")")));
    AtParts(src, at + 1, "(", c0 + (cs + ")"));
    AtParts(src, at + 2, c0, cs + ")");
    AtParts(src, at + 2 + |c0|, cs, ")");
    AtChar(src, at, 'o');
    AtChar(src, at + 1, '(');
    AtChar(src, at + 2 + |c0| + |cs|, ')');
  }

  // --- only spellings are read

  lemma {:induction false} WordEndChars(src: string, at: nat, letter: Letters)
    requires at <= |src|
    ensures forall k :: at <= k < WordEnd(src, at, letter) ==> WordChar(src[k], letter)
    decreases |src| - at
  {
    if at < |src| && WordChar(src[at], letter) {
      WordEndChars(src, at + 1, letter);
    }
  }

  lemma WordIsWord(src: string, at: nat, letter: Letters)
    requires Word(src, at, letter).Got?
    ensures var w := Word(src, at, letter); IsWord(w.value, letter) && w.value == src[at..w.at]
  {
    WordEndChars(src, at, letter);
  }

  lemma TwoWordsSound(src: string, at: nat, letter: Letters)
    requires TwoWords(src, at, letter).Got?
    ensures var r := TwoWords(src, at, letter);
            && IsWord(r.value.0, letter) && IsWord(r.value.1, letter)
            && src[at..r.at] == r.value.0 + "," + r.value.1
  {
    hide IsWord;
    var first := Word(src, at, letter);
    WordIsWord(src, at, letter);
    WordIsWord(src, first.at + 1, letter);
    var second := Word(src, first.at + 1, letter);
    assert src[at..second.at] == src[at..first.at] + [src[first.at]] + src[first.at + 1..second.at];
  }

  /** An expression is its letter and its body in parentheses. */
  lemma Enclosed(src: string, at: nat, e: nat, kind: char)
    requires at + 2 <= e && Sees(src, at, kind) && Sees(src, at + 1, '(') && Sees(src, e, ')')
    ensures src[at..e + 1] == [kind] + "(" + src[at + 2..e] + ")"
  {
    assert src[at..e + 1] == [src[at]] + [src[at + 1]] + src[at + 2..e] + [src[e]];
  }

  /** What `expr` reads is a spelling of what it returns. */
  lemma {:induction false} ReadIsSpelling(src: string, at: nat, letter: Letters)
    requires Expr(src, at, letter).Got?
    ensures var r := Expr(src, at, letter); Spells(r.value, src[at..r.at], letter)
    decreases |src| - at, 1
  {
    hide TwoWords, ParseInt, ParseBool, IsWord, Clauses, Spells, SpellsAll;
    var r := Expr(src, at, letter);
    var e := r.at - 1;
    assert Body(src, at, letter) == Got(r.value, e);
    Enclosed(src, at, e, src[at]);
    if src[at] == 't' {
      TwoWordsSound(src, at + 2, letter);
      var words := TwoWords(src, at + 2, letter);
      SpellsTerm(words.value.0, words.value.1, src[at..r.at], letter);
    } else if src[at] == 'n' {
      TwoWordsSound(src, at + 2, letter);
      var words := TwoWords(src, at + 2, letter);
      ClausesAreSpelling(src, words.at, letter);
      assert src[at + 2..e] == src[at + 2..words.at] + src[words.at..e];
      SpellsNear(r.value, words.value.0, words.value.1, src[words.at..e], src[at..r.at], letter);
    } else {
      ReadIsSpelling(src, at + 2, letter);
      var first := Expr(src, at + 2, letter);
      ClausesAreSpelling(src, first.at, letter);
      assert src[at + 2..e] == src[at + 2..first.at] + src[first.at..e];
      var rest := Clauses(src, first.at, letter).value;
      SpellsOr(first.value, rest, src[at + 2..first.at], src[first.at..e], src[at..r.at], letter);
    }
  }

  lemma SpellsTerm(f: string, w: string, s: string, letter: Letters)
    requires IsWord(f, letter) && IsWord(w, letter) && s == "t" + "(" + (f + "," + w) + ")"
    ensures Spells(Term(f, w), s, letter)
  {
    hide IsWord;
    assert s == TermText(f, w);
  }

  lemma SpellsNear(t: Span, n: string, b: string, cs: string, s: string, letter: Letters)
    requires t.Near? && NearParts(t.slop, t.inOrder, n, b, letter)
    requires SpellsAll(t.clauses, cs, letter) && s == "n" + "(" + (n + "," + b + cs) + ")"
    ensures Spells(t, s, letter)
  {
    hide NearParts, SpellsAll;
    assert s == NearText(n, b, cs);
  }

  lemma SpellsOr(first: Span, rest: seq<Span>, c0: string, cs: string, s: string, letter: Letters)
    requires Spells(first, c0, letter) && SpellsAll(rest, cs, letter) && s == "o" + "(" + (c0 + cs) + ")"
    ensures Spells(Or([first] + rest), s, letter)
  {
    hide SpellsAll;
    assert s == OrText(c0, cs);
    assert ([first] + rest)[1..] == rest;
  }

  lemma {:induction false} ClausesAreSpelling(src: string, at: nat, letter: Letters)
    requires Clauses(src, at, letter).Got?
    ensures var r := Clauses(src, at, letter); SpellsAll(r.value, src[at..r.at], letter)
    decreases |src| - at, 2
  {
    hide Expr, Spells;
    var r := Clauses(src, at, letter);
    if src[at] == ',' {
      var first := Expr(src, at + 1, letter);
      ReadIsSpelling(src, at + 1, letter);
      ClausesAreSpelling(src, first.at, letter);
      var c0, cs := src[at + 1..first.at], src[first.at..r.at];
      assert src[at..r.at] == ClauseText(c0, cs);
      assert r.value[0] == first.value && r.value[1..] == Clauses(src, first.at, letter).value;
    }
  }

  /** `parse` succeeds with t exactly on the spellings of t. */
  lemma ParseIffSpells(src: string, t: Span, letter: Letters)
    requires Sane(letter)
    ensures Parse(src, letter) == Got(t, |src|) <==> Spells(t, src, letter)
  {
    hide Expr, Spells;
    assert src[0..|src|] == src;
    if Spells(t, src, letter) {
      ReadsSpelling(src, 0, t, src, letter);
    }
    if Parse(src, letter) == Got(t, |src|) {
      ReadIsSpelling(src, 0, letter);
    }
  }

  // ---------------------------------------------------------------------------
  // Printing
  // ---------------------------------------------------------------------------

  function Decimal(n: nat): (t: string)
    ensures |t| >= 1
  {
    if n < 10 then [('0' as int + n) as char] else Decimal(n / 10) + [('0' as int + n % 10) as char]
  }

  lemma {:induction false} DecimalValue(n: nat)
    ensures AllDigits(Decimal(n)) && DigitsValue(Decimal(n)) == n
    decreases n
  {
    var w := Decimal(n);
    if n < 10 {
      assert w[..0] == "";
      assert DigitsValue(w) == 10 * DigitsValue("") + n;
    } else {
      DecimalValue(n / 10);
      assert w[..|w| - 1] == Decimal(n / 10);
    }
  }

  /** A tree that can be written down. */
  ghost predicate Printable(t: Span, letter: Letters) {
    match t
    case Term(f, w) => IsWord(f, letter) && IsWord(w, letter)
    case Near(slop, _, clauses) => slop < 0x8000_0000 && forall c :: c in clauses ==> Printable(c, letter)
    case Or(clauses) => clauses != [] && forall c :: c in clauses ==> Printable(c, letter)
  }

  function Print(t: Span): string
    decreases t, 1
  {
    match t
    case Term(f, w) => TermText(f, w)
    case Near(slop, inOrder, clauses) => NearText(Decimal(slop), if inOrder then "true" else "false", PrintAll(clauses))
    case Or(clauses) => if clauses == [] then "" else OrText(Print(clauses[0]), PrintAll(clauses[1..]))
  }

  function PrintAll(clauses: seq<Span>): string
    decreases clauses, 0
  {
    if clauses == [] then "" else ClauseText(Print(clauses[0]), PrintAll(clauses[1..]))
  }

  lemma {:induction false} PrintSpells(t: Span, letter: Letters)
    requires Sane(letter) && Printable(t, letter)
    ensures Spells(t, Print(t), letter)
    decreases t, 1
  {
    hide IsWord, ParseInt, ParseBool;
    match t
    case Term(f, w) =>
    case Near(slop, inOrder, clauses) =>
      NearPrintable(slop, inOrder, letter);
      PrintAllSpells(clauses, letter);
    case Or(clauses) =>
      PrintSpells(clauses[0], letter);
      PrintAllSpells(clauses[1..], letter);
  }

  lemma {:induction false} PrintAllSpells(clauses: seq<Span>, letter: Letters)
    requires Sane(letter) && forall c :: c in clauses ==> Printable(c, letter)
    ensures SpellsAll(clauses, PrintAll(clauses), letter)
    decreases clauses, 0
  {
    hide Spells, Printable;
    if clauses != [] {
      PrintSpells(clauses[0], letter);
      PrintAllSpells(clauses[1..], letter);
    }
  }

  lemma NearPrintable(slop: nat, inOrder: bool, letter: Letters)
    requires Sane(letter) && slop < 0x8000_0000
    ensures NearParts(slop, inOrder, Decimal(slop), if inOrder then "true" else "false", letter)
  {
    DecimalValue(slop);
  }

  /** Parsing the printed form of any tree returns that tree. */
  lemma ParsePrint(t: Span, letter: Letters)
    requires Sane(letter) && Printable(t, letter)
    ensures Parse(Print(t), letter) == Got(t, |Print(t)|)
  {
    hide Parse, Print, Spells;
    PrintSpells(t, letter);
    ParseIffSpells(Print(t), t, letter);
  }

  /** And inside any text, `expr` stops exactly behind it. */
  lemma ExprStopsBehindPrint(before: string, t: Span, after: string, letter: Letters)
    requires Sane(letter) && Printable(t, letter)
    ensures Expr(before + Print(t) + after, |before|, letter) == Got(t, |before| + |Print(t)|)
  {
    hide Expr, Print, Spells;
    PrintSpells(t, letter);
    ReadsSpelling(before + Print(t) + after, |before|, t, Print(t), letter);
  }
}
