/** `is_array_type` in scripts/check-port-invariants.py: whether the text of a Rust type that
    starts at its bracket is an array `[T; N]` and not a slice `[T]`. */
module TypeShape {

  predicate Opening(c: char) {
    c in "[(<{"
  }

  predicate Closing(c: char) {
    c in "])>}"
  }

  predicate PlainChar(c: char) {
    !Opening(c) && !Closing(c) && c != ';'
  }

  /** The scanner on what is left of the text; `dash` tells whether the character before it is
      a `-`, so that the head of an arrow closes nothing. */
  function Scan(dash: bool, s: string, depth: int): bool
    decreases |s|
  {
    if s == "" then false
    else
      var c, rest := s[0], s[1..];
      if Opening(c) then Scan(c == '-', rest, depth + 1)
      else if Closing(c) && !(c == '>' && dash) then depth != 1 && Scan(c == '-', rest, depth - 1)
      else (c == ';' && depth == 1) || Scan(c == '-', rest, depth)
  }

  /** What each character does, with the characters themselves. */
  lemma ScanStep(dash: bool, c: char, rest: string, depth: int)
    ensures c == '[' || c == '(' || c == '<' || c == '{' ==>
              Scan(dash, [c] + rest, depth) == Scan(false, rest, depth + 1)
    ensures c == ']' || c == ')' || c == '}' || (c == '>' && !dash) ==>
              Scan(dash, [c] + rest, depth) == (depth != 1 && Scan(false, rest, depth - 1))
    ensures c == '>' && dash ==> Scan(dash, [c] + rest, depth) == Scan(false, rest, depth)
    ensures c == ';' ==> Scan(dash, [c] + rest, depth) == (depth == 1 || Scan(false, rest, depth))
    ensures c !in "[]()<>{};" ==> Scan(dash, [c] + rest, depth) == Scan(c == '-', rest, depth)
  {
    assert ([c] + rest)[0] == c && ([c] + rest)[1..] == rest;
  }

  /** The loop of `is_array_type`. */
  method IsArrayType(ty: string) returns (isArray: bool)
    ensures isArray == Scan(false, ty, 0)
  {
    hide Opening, Closing;
    var depth := 0;
    assert ty[0..] == ty;
    for k := 0 to |ty|
      invariant Scan(k > 0 && ty[k - 1] == '-', ty[k..], depth) == Scan(false, ty, 0)
    {
      var c := ty[k];
      assert ty[k..][0] == c && ty[k..][1..] == ty[k + 1..];
      if Opening(c) {
        depth := depth + 1;
      } else if Closing(c) && !(c == '>' && k > 0 && ty[k - 1] == '-') {
        depth := depth - 1;
        if depth == 0 {
          return false;
        }
      } else if c == ';' && depth == 1 {
        return true;
      }
    }
    return false;
  }

  // ---------------------------------------------------------------------------
  // Types and their text
  // ---------------------------------------------------------------------------

  /** The text of an array length: any expression whose brackets match, such as a number, a
      call or a block with statements. */
  datatype Code =
    | Chars(text: string)
    | Semicolon
    | Group(opening: char, body: seq<Code>, closing: char)

  datatype Type =
    | Path(name: string, args: seq<Type>)
    | Ref(lifetime: string, target: Type)
    | Slice(item: Type)
    | Array(item: Type, length: seq<Code>)
    | Tuple(parts: seq<Type>)
    | FnPtr(params: seq<Type>, result: Type)

  /** Names hold no bracket and no `;` and do not end in a dash, which would make an arrow of
      the bracket behind it; brackets of lengths match. */
  predicate Printable(t: Type) {
    match t
    case Path(name, args) => Plain(name) && name != "" && name[|name| - 1] != '-' && AllPrintable(args)
    case Ref(lifetime, target) => Plain(lifetime) && Printable(target)
    case Slice(item) => Printable(item)
    case Array(item, length) => Printable(item) && Matched(length)
    case Tuple(parts) => AllPrintable(parts)
    case FnPtr(params, result) => AllPrintable(params) && Printable(result)
  }

  predicate AllPrintable(ts: seq<Type>) {
    forall k :: 0 <= k < |ts| ==> Printable(ts[k])
  }

  predicate Matched(cs: seq<Code>) {
    forall k :: 0 <= k < |cs| ==> MatchedOne(cs[k])
  }

  /** A `>` closes a group unless a dash in front of it makes it an arrow. */
  predicate MatchedOne(c: Code) {
    match c
    case Chars(text) => Plain(text)
    case Semicolon => true
    case Group(opening, body, closing) =>
      && Opening(opening) && Closing(closing) && Matched(body)
      && (closing == '>' ==> var s := PrintCode(body); s == "" || s[|s| - 1] != '-')
  }

  function PrintCode(cs: seq<Code>): string {
    if cs == [] then "" else PrintOne(cs[0]) + PrintCode(cs[1..])
  }

  function PrintOne(c: Code): string {
    match c
    case Chars(text) => text
    case Semicolon => ";"
    case Group(opening, body, closing) => [opening] + (PrintCode(body) + [closing])
  }

  predicate Plain(s: string) {
    forall k :: 0 <= k < |s| ==> PlainChar(s[k])
  }

  function Print(t: Type): string
    decreases t, 2
  {
    match t
    case Path(name, args) => if args == [] then name else name + ("<" + (PrintList(t, args) + ">"))
    case Ref(lifetime, target) => "&" + (lifetime + (" " + Print(target)))
    case Slice(item) => "[" + (Print(item) + "]")
    case Array(item, length) => "[" + (Print(item) + ("; " + (PrintCode(length) + "]")))
    case Tuple(parts) => "(" + (PrintList(t, parts) + ")")
    case FnPtr(params, result) => "fn(" + (PrintList(t, params) + (") -> " + Print(result)))
  }

  /** The types in ts, which are children of t, with commas between them. */
  function PrintList(ghost t: Type, ts: seq<Type>): string
    requires forall k :: 0 <= k < |ts| ==> ts[k] < t
    decreases t, 1, |ts|
  {
    if ts == [] then ""
    else if |ts| == 1 then Print(ts[0])
    else Print(ts[0]) + (", " + PrintList(t, ts[1..]))
  }

  // ---------------------------------------------------------------------------
  // Scanning over printed text
  // ---------------------------------------------------------------------------

  /** Scanning s at a depth and then going on behind it at the same depth. */
  ghost predicate Passes(s: string, depth: int) {
    forall dash, rest ::
      Scan(dash, s + rest, depth) == Scan(if s == "" then dash else s[|s| - 1] == '-', rest, depth)
  }

  lemma PassesUse(s: string, depth: int, dash: bool, rest: string)
    requires Passes(s, depth)
    ensures Scan(dash, s + rest, depth) == Scan(if s == "" then dash else s[|s| - 1] == '-', rest, depth)
  {
    hide Scan;
  }

  /** Steps over the first character of a text. */
  lemma ScanHead(dash: bool, c: char, rest: string, depth: int)
    ensures Opening(c) ==> Scan(dash, [c] + rest, depth) == Scan(false, rest, depth + 1)
    ensures PlainChar(c) ==> Scan(dash, [c] + rest, depth) == Scan(c == '-', rest, depth)
    ensures Closing(c) && !(c == '>' && dash) && depth > 1 ==>
              Scan(dash, [c] + rest, depth) == Scan(false, rest, depth - 1)
    ensures c == '>' && dash ==> Scan(dash, [c] + rest, depth) == Scan(false, rest, depth)
    ensures c == ';' && depth != 1 ==> Scan(dash, [c] + rest, depth) == Scan(false, rest, depth)
    ensures c == ';' && depth == 1 ==> Scan(dash, [c] + rest, depth)
    ensures Closing(c) && !(c == '>' && dash) && depth == 1 ==> !Scan(dash, [c] + rest, depth)
  {
    assert ([c] + rest)[1..] == rest;
  }

  lemma PassesBoth(a: string, b: string, depth: int)
    requires Passes(a, depth) && Passes(b, depth)
    ensures Passes(a + b, depth)
  {
    hide Scan;
    forall dash, rest
      ensures Scan(dash, a + b + rest, depth) ==
              Scan(if a + b == "" then dash else (a + b)[|a + b| - 1] == '-', rest, depth)
    {
      assert a + b + rest == a + (b + rest);
      PassesUse(a, depth, dash, b + rest);
      PassesUse(b, depth, if a == "" then dash else a[|a| - 1] == '-', rest);
    }
  }

  lemma {:induction false} PlainPasses(s: string, depth: int)
    requires Plain(s)
    ensures Passes(s, depth)
    decreases |s|
  {
    hide Scan, PlainChar;
    if s == "" {
      forall dash, rest
        ensures Scan(dash, s + rest, depth) == Scan(dash, rest, depth)
      {
        assert s + rest == rest;
      }
    } else {
      var c, t := s[0], s[1..];
      PlainPasses(t, depth);
      forall dash, rest
        ensures Scan(dash, [c] + rest, depth) == Scan(c == '-', rest, depth)
      {
        ScanHead(dash, c, rest, depth);
      }
      assert Passes([c], depth);
      PassesBoth([c], t, depth);
      assert [c] + t == s;
    }
  }

  /** Brackets around text that passes one level deeper; the closing one must not complete an
      arrow. */
  lemma BracketsPass(open: char, s: string, close: char, depth: int)
    requires Opening(open) && Closing(close) && depth >= 1 && Passes(s, depth + 1)
    requires close == '>' ==> s == "" || s[|s| - 1] != '-'
    ensures Passes([open] + (s + [close]), depth)
  {
    hide Scan;
    var all := [open] + (s + [close]);
    forall dash, rest
      ensures Scan(dash, all + rest, depth) == Scan(false, rest, depth)
    {
      assert all + rest == [open] + (s + ([close] + rest));
      ScanHead(dash, open, s + ([close] + rest), depth);
      PassesUse(s, depth + 1, false, [close] + rest);
      ScanHead(if s == "" then false else s[|s| - 1] == '-', close, rest, depth + 1);
    }
    assert all[|all| - 1] == close;
  }

  lemma SemicolonPasses(depth: int)
    requires depth > 1
    ensures Passes("; ", depth)
  {
    hide Scan;
    forall dash, rest
      ensures Scan(dash, "; " + rest, depth) == Scan(false, rest, depth)
    {
      assert "; " + rest == [';'] + ([' '] + rest);
      ScanHead(dash, ';', [' '] + rest, depth);
      ScanHead(false, ' ', rest, depth);
    }
  }

  /** The head of an arrow closes nothing. */
  lemma ArrowPasses(depth: int)
    ensures Passes(" -> ", depth)
  {
    hide Scan;
    forall dash, rest
      ensures Scan(dash, " -> " + rest, depth) == Scan(false, rest, depth)
    {
      assert " -> " + rest == [' '] + (['-'] + (['>'] + ([' '] + rest)));
      ScanHead(dash, ' ', ['-'] + (['>'] + ([' '] + rest)), depth);
      ScanHead(false, '-', ['>'] + ([' '] + rest), depth);
      ScanHead(true, '>', [' '] + rest, depth);
      ScanHead(false, ' ', rest, depth);
    }
  }

  /** Below the outer bracket a `;` ends nothing, so any matched text passes. */
  lemma {:induction false} CodePasses(cs: seq<Code>, depth: int)
    requires Matched(cs) && depth > 1
    ensures Passes(PrintCode(cs), depth)
    decreases cs
  {
    hide Scan, Passes, PlainChar, Opening, Closing;
    if cs == [] {
      PlainPasses("", depth);
    } else {
      var c := cs[0];
      assert MatchedOne(c);
      match c {
        case Chars(text) =>
          PlainPasses(text, depth);
        case Semicolon =>
          OneSemicolon(depth);
        case Group(opening, body, closing) =>
          CodePasses(body, depth + 1);
          BracketsPass(opening, PrintCode(body), closing, depth);
      }
      CodePasses(cs[1..], depth);
      PassesBoth(PrintOne(c), PrintCode(cs[1..]), depth);
    }
  }

  lemma OneSemicolon(depth: int)
    requires depth > 1
    ensures Passes(";", depth)
  {
    hide Scan;
    forall dash, rest
      ensures Scan(dash, ";" + rest, depth) == Scan(false, rest, depth)
    {
      assert ";" + rest == [';'] + rest;
      ScanHead(dash, ';', rest, depth);
    }
  }

  ghost predicate EndsWell(s: string) {
    s != "" && s[|s| - 1] != '-'
  }

  /** The text of a type passes at every depth, nested arrays and arrows included. */
  lemma {:induction false} TypePasses(t: Type, depth: int)
    requires Printable(t) && depth >= 1
    ensures Passes(Print(t), depth) && EndsWell(Print(t))
    decreases t, 3
  {
    hide Scan, Passes, PlainChar, Plain;
    match t
    case Path(name, args) =>
      PlainPasses(name, depth);
      if args != [] {
        var inner := PrintList(t, args);
        ListPasses(t, args, depth + 1);
        BracketsPass('<', inner, '>', depth);
        assert ['<'] + (inner + ['>']) == "<" + (inner + ">");
        PassesBoth(name, "<" + (inner + ">"), depth);
      }
    case Ref(lifetime, target) =>
      TypePasses(target, depth);
      Words();
      PlainPasses("&", depth);
      PlainPasses(lifetime, depth);
      PlainPasses(" ", depth);
      PassesBoth(" ", Print(target), depth);
      PassesBoth(lifetime, " " + Print(target), depth);
      PassesBoth("&", lifetime + (" " + Print(target)), depth);
    case Slice(item) =>
      TypePasses(item, depth + 1);
      BracketsPass('[', Print(item), ']', depth);
    case Array(item, length) =>
      TypePasses(item, depth + 1);
      CodePasses(length, depth + 1);
      ArrayPasses(Print(item), PrintCode(length), depth);
    case Tuple(parts) =>
      ListPasses(t, parts, depth + 1);
      BracketsPass('(', PrintList(t, parts), ')', depth);
    case FnPtr(params, result) =>
      FnPasses(t, depth);
  }

  lemma ArrayPasses(item: string, length: string, depth: int)
    requires Passes(item, depth + 1) && Passes(length, depth + 1) && depth >= 1
    ensures Passes("[" + (item + ("; " + (length + "]"))), depth)
  {
    hide Scan, Passes;
    SemicolonPasses(depth + 1);
    PassesBoth("; ", length, depth + 1);
    PassesBoth(item, "; " + length, depth + 1);
    BracketsPass('[', item + ("; " + length), ']', depth);
    assert "[" + (item + ("; " + (length + "]"))) == ['['] + (item + ("; " + length) + [']']);
  }

  lemma FnPasses(t: Type, depth: int)
    requires Printable(t) && t.FnPtr? && depth >= 1
    ensures Passes(Print(t), depth) && EndsWell(Print(t))
    decreases t, 2
  {
    hide Scan, Passes, PlainChar, Plain, Printable;
    FnParts(t);
    var inner, result := PrintList(t, t.params), Print(t.result);
    ListPasses(t, t.params, depth + 1);
    TypePasses(t.result, depth);
    Words();
    PlainPasses("fn", depth);
    BracketsPass('(', inner, ')', depth);
    ArrowPasses(depth);
    var group := ['('] + (inner + [')']);
    PassesBoth(" -> ", result, depth);
    PassesBoth(group, " -> " + result, depth);
    PassesBoth("fn", group + (" -> " + result), depth);
    FnText(inner, result);
  }

  lemma FnText(inner: string, result: string)
    ensures "fn(" + (inner + (") -> " + result)) == "fn" + (['('] + (inner + [')']) + (" -> " + result))
  {
  }

  lemma FnParts(t: Type)
    requires Printable(t) && t.FnPtr?
    ensures AllPrintable(t.params) && Printable(t.result)
  {
  }

  lemma Words()
    ensures Plain("&") && Plain(" ") && Plain("fn") && Plain(", ")
  {
  }

  lemma {:induction false} ListPasses(t: Type, ts: seq<Type>, depth: int)
    requires forall k :: 0 <= k < |ts| ==> ts[k] < t
    requires AllPrintable(ts) && depth >= 1
    ensures Passes(PrintList(t, ts), depth)
    ensures ts != [] ==> EndsWell(PrintList(t, ts))
    decreases t, 1, |ts|
  {
    hide Scan, Passes, PlainChar, Plain, Printable;
    if ts == [] {
      assert Plain("") by { NothingPlain(); }
      PlainPasses("", depth);
    } else {
      TypePasses(ts[0], depth);
      if |ts| > 1 {
        ListPasses(t, ts[1..], depth);
        Words();
        PlainPasses(", ", depth);
        PassesBoth(", ", PrintList(t, ts[1..]), depth);
        PassesBoth(Print(ts[0]), ", " + PrintList(t, ts[1..]), depth);
      }
    }
  }

  lemma NothingPlain()
    ensures Plain("")
  {
  }

  /** On the text of a slice or array type, whatever follows it, the scanner answers whether the
      type is an array. */
  lemma ScanTellsArray(t: Type, rest: string)
    requires Printable(t) && (t.Slice? || t.Array?)
    ensures Scan(false, Print(t) + rest, 0) <==> t.Array?
  {
    hide Scan, Passes, PlainChar, Plain;
    TypePasses(t.item, 1);
    var item := Print(t.item);
    if t.Array? {
      ArrayText(item, PrintCode(t.length), rest);
      ScanBracketed(item, ';', " " + (PrintCode(t.length) + ("]" + rest)));
    } else {
      SliceText(item, rest);
      ScanBracketed(item, ']', rest);
    }
  }

  lemma ArrayText(item: string, length: string, rest: string)
    ensures "[" + (item + ("; " + (length + "]"))) + rest == ['['] + (item + ([';'] + (" " + (length + ("]" + rest)))))
  {
    assert "; " + (length + "]") + rest == [';'] + (" " + (length + ("]" + rest)));
    assert item + ("; " + (length + "]")) + rest == item + (("; " + (length + "]")) + rest);
  }

  lemma SliceText(item: string, rest: string)
    ensures "[" + (item + "]") + rest == ['['] + (item + ([']'] + rest))
  {
  }

  lemma ScanBracketed(item: string, c: char, behind: string)
    requires Passes(item, 1) && EndsWell(item) && (c == ';' || c == ']')
    ensures Scan(false, ['['] + (item + ([c] + behind)), 0) <==> c == ';'
  {
    hide Scan, Passes;
    ScanHead(false, '[', item + ([c] + behind), 0);
    PassesUse(item, 1, false, [c] + behind);
    ScanHead(false, c, behind, 1);
  }
}
