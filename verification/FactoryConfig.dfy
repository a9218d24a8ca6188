/** The configuration lines of fixtures/src/GenAnalysisFactories.java: a name and then the
    builder steps, tab-separated, each followed by its `key=value` arguments with escaped
    values. */
module FactoryConfig {
  import opened Common
  import opened Escape

  const COLON: Unit := 58
  const EQUALS: Unit := 61

  /** "endwhen" */
  const ENDWHEN: Text := [101, 110, 100, 119, 104, 101, 110]

  /** `endwhen` has no name. Arguments are kept as key-value pairs. */
  datatype Step = Step(kind: Text, name: Option<Text>, params: seq<(Text, Text)>)

  // ---------------------------------------------------------------------------
  // Parsing
  // ---------------------------------------------------------------------------

  /** `indexOf`; the length stands for "not found". */
  function IndexOf(t: Text, c: Unit): (i: nat)
    ensures i <= |t| && c !in t[..i] && (i < |t| ==> t[i] == c)
  {
    if t == [] || t[0] == c then 0 else 1 + IndexOf(t[1..], c)
  }

  /** One field on top of the steps before it; None for an exception. */
  function AddField(steps: seq<Step>, f: Text): (r: Option<seq<Step>>) {
    var colon, eq := IndexOf(f, COLON), IndexOf(f, EQUALS);
    if f == ENDWHEN then Some(steps + [Step(ENDWHEN, None, [])])
    else if 0 < colon < |f| && (eq == |f| || colon < eq) then
      var name :- Unescaped(f[colon + 1..]);
      Some(steps + [Step(f[..colon], Some(name), [])])
    else if steps == [] || eq == |f| then None
    else
      var value :- Unescaped(f[eq + 1..]);
      Some(WithParam(steps, f[..eq], value))
  }

  /** One field, with its characters: `endwhen`; a kind and a name around the first colon; a key
      and a value around the first equals sign; or an exception. */
  lemma AddFieldExact(steps: seq<Step>, f: Text, k: nat)
    ensures f == [101, 110, 100, 119, 104, 101, 110] ==> AddField(steps, f) == Some(steps + [Step(f, None, [])])
    ensures f != [101, 110, 100, 119, 104, 101, 110] && 0 < k < |f| && f[k] == 58 && 58 !in f[..k] && 61 !in f[..k] ==>
              AddField(steps, f) == if Unescaped(f[k + 1..]).None? then None
                                    else Some(steps + [Step(f[..k], Some(Unescaped(f[k + 1..]).value), [])])
    ensures f != [101, 110, 100, 119, 104, 101, 110] && k < |f| && f[k] == 61 && 61 !in f[..k] &&
            (58 !in f[..k] || f[0] == 58) ==>
              AddField(steps, f) == if steps == [] || Unescaped(f[k + 1..]).None? then None
                                    else Some(WithParam(steps, f[..k], Unescaped(f[k + 1..]).value))
    ensures f != [101, 110, 100, 119, 104, 101, 110] && 61 !in f && (58 !in f || f[0] == 58) ==>
              AddField(steps, f) == None
  {
    FirstIndex(f, 58, k);
    FirstIndex(f, 61, k);
    hide IndexOf, Unescaped, WithParam;
  }

  lemma FirstIndex(t: Text, c: Unit, k: nat)
    ensures k < |t| && t[k] == c && c !in t[..k] ==> k == IndexOf(t, c)
    ensures k < |t| && c !in t[..k] ==> k <= IndexOf(t, c)
    ensures IndexOf(t, c) == |t| <==> c !in t
    ensures t != [] && t[0] == c ==> IndexOf(t, c) == 0
  {
    hide IndexOf;
    var i := IndexOf(t, c);
    assert k < i && k < |t| ==> t[k] == t[..i][k];
    assert i < k < |t| ==> t[i] == t[..k][i];
    assert t[..|t|] == t;
  }

  /** `last.params.add(..)` twice. */
  function WithParam(steps: seq<Step>, key: Text, value: Text): (r: seq<Step>)
    requires steps != []
    ensures |r| == |steps|
  {
    var last := steps[|steps| - 1];
    steps[..|steps| - 1] + [last.(params := last.params + [(key, value)])]
  }

  function AddFields(steps: seq<Step>, fields: seq<Text>): (r: Option<seq<Step>>)
    decreases |fields|
  {
    if fields == [] then Some(steps)
    else
      var next :- AddField(steps, fields[0]);
      AddFields(next, fields[1..])
  }

  /** The body of the loop of `parse`. */
  method ParseField(steps: seq<Step>, f: Text) returns (r: Option<seq<Step>>)
    ensures r == AddField(steps, f)
  {
    hide Unescaped, IndexOf;
    var colon, eq := IndexOf(f, COLON), IndexOf(f, EQUALS);
    if f == ENDWHEN {
      return Some(steps + [Step(ENDWHEN, None, [])]);
    }
    if 0 < colon < |f| && (eq == |f| || colon < eq) {
      var name := Unesc(f[colon + 1..]);
      if name.None? { return None; }
      return Some(steps + [Step(f[..colon], Some(name.value), [])]);
    }
    if steps == [] || eq == |f| { return None; }
    var value := Unesc(f[eq + 1..]);
    if value.None? { return None; }
    var last := steps[|steps| - 1];
    return Some(steps[..|steps| - 1] + [last.(params := last.params + [(f[..eq], value.value)])]);
  }

  /** `parse`: the fields after the first. */
  method Parse(fields: seq<Text>) returns (r: Option<seq<Step>>)
    ensures r == if fields == [] then Some([]) else AddFields([], fields[1..])
  {
    hide AddField;
    var steps: seq<Step> := [];
    if fields == [] {
      return Some(steps);
    }
    for i := 1 to |fields|
      invariant AddFields([], fields[1..]) == AddFields(steps, fields[i..])
    {
      assert fields[i..][1..] == fields[i + 1..];
      var next := ParseField(steps, fields[i]);
      if next.None? { return None; }
      steps := next.value;
    }
    return Some(steps);
  }

  // ---------------------------------------------------------------------------
  // Lines
  // ---------------------------------------------------------------------------

  /** `split("\t", -1)` */
  function SplitTabs(s: Text): (pieces: seq<Text>)
    ensures |pieces| >= 1
  {
    if s == [] then [[]]
    else
      var rest := SplitTabs(s[1..]);
      if s[0] == TAB then [[]] + rest else [[s[0]] + rest[0]] + rest[1..]
  }

  function JoinTabs(pieces: seq<Text>): (s: Text) {
    if pieces == [] then []
    else if |pieces| == 1 then pieces[0]
    else pieces[0] + [TAB] + JoinTabs(pieces[1..])
  }

  lemma {:induction false} SplitFirst(p: Text, rest: Text)
    requires TAB !in p
    ensures SplitTabs(p + [TAB] + rest) == [p] + SplitTabs(rest)
    decreases |p|
  {
    var s := p + [TAB] + rest;
    if p == [] {
      assert s[1..] == rest;
    } else {
      assert s[1..] == p[1..] + [TAB] + rest;
      SplitFirst(p[1..], rest);
      assert p == [p[0]] + p[1..];
      assert s[0] == p[0] && p[0] in p;
    }
  }

  lemma {:induction false} SplitWhole(p: Text)
    requires TAB !in p
    ensures SplitTabs(p) == [p]
    decreases |p|
  {
    if p != [] {
      SplitWhole(p[1..]);
      assert p == [p[0]] + p[1..] && p[0] in p;
    }
  }

  lemma {:induction false} SplitJoin(pieces: seq<Text>)
    requires pieces != [] && forall k :: 0 <= k < |pieces| ==> TAB !in pieces[k]
    ensures SplitTabs(JoinTabs(pieces)) == pieces
    decreases |pieces|
  {
    if |pieces| == 1 {
      SplitWhole(pieces[0]);
    } else {
      SplitJoin(pieces[1..]);
      SplitFirst(pieces[0], JoinTabs(pieces[1..]));
      assert pieces == [pieces[0]] + pieces[1..];
    }
  }

  // ---------------------------------------------------------------------------
  // Writing steps
  // ---------------------------------------------------------------------------

  /** What can stand unescaped in front of a separator. */
  predicate Bare(t: Text) {
    COLON !in t && EQUALS !in t && TAB !in t
  }

  ghost predicate ValidStep(s: Step) {
    && (if s.name.None? then s.kind == ENDWHEN else s.kind != [] && Bare(s.kind))
    && forall k :: 0 <= k < |s.params| ==> Bare(s.params[k].0)
  }

  function ParamField(p: (Text, Text)): Text {
    p.0 + [EQUALS] + Escaped(p.1)
  }

  function ParamFields(params: seq<(Text, Text)>): (fields: seq<Text>) {
    if params == [] then [] else ParamFields(params[..|params| - 1]) + [ParamField(params[|params| - 1])]
  }

  function HeadField(s: Step): Text {
    match s.name
    case None => ENDWHEN
    case Some(name) => s.kind + [COLON] + Escaped(name)
  }

  function StepFields(steps: seq<Step>): (fields: seq<Text>) {
    if steps == [] then []
    else
      var s := steps[|steps| - 1];
      StepFields(steps[..|steps| - 1]) + ([HeadField(s)] + ParamFields(s.params))
  }

  /** The whole configuration line. */
  function Line(name: Text, steps: seq<Step>): Text {
    JoinTabs([name] + StepFields(steps))
  }

  // ---------------------------------------------------------------------------
  // Round trip
  // ---------------------------------------------------------------------------

  /** A separator is found right behind a text without it. */
  lemma {:induction false} FindsSeparator(a: Text, c: Unit, rest: Text)
    requires c !in a
    ensures IndexOf(a + [c] + rest, c) == |a|
    decreases |a|
  {
    var t := a + [c] + rest;
    if a != [] {
      assert t[1..] == a[1..] + [c] + rest;
      assert t[0] == a[0] && a[0] in a;
      FindsSeparator(a[1..], c, rest);
    }
  }

  lemma NotBefore(a: Text, c: Unit, d: Unit, rest: Text)
    requires c !in a && c != d
    ensures IndexOf(a + [d] + rest, c) > |a|
  {
    var t := a + [d] + rest;
    assert forall k :: 0 <= k < |a| ==> t[k] == a[k] && a[k] in a;
    assert t[|a|] == d;
  }

  lemma AddHead(steps: seq<Step>, s: Step)
    requires ValidStep(s)
    ensures AddField(steps, HeadField(s)) == Some(steps + [Step(s.kind, s.name, [])])
  {
    hide Escaped, IndexOf;
    if s.name.Some? {
      var e := Escaped(s.name.value);
      var f := HeadField(s);
      assert f == s.kind + [COLON] + e;
      FindsSeparator(s.kind, COLON, e);
      NotBefore(s.kind, EQUALS, COLON, e);
      UnescapeEscape(s.name.value);
      assert f[..|s.kind|] == s.kind && f[|s.kind| + 1..] == e;
      assert COLON in f && COLON !in ENDWHEN;
    }
  }

  lemma AddParam(steps: seq<Step>, p: (Text, Text))
    requires steps != [] && Bare(p.0)
    ensures AddField(steps, ParamField(p)) == Some(WithParam(steps, p.0, p.1))
  {
    hide Escaped, IndexOf;
    var e := Escaped(p.1);
    var f := ParamField(p);
    assert f == p.0 + [EQUALS] + e;
    FindsSeparator(p.0, EQUALS, e);
    NotBefore(p.0, COLON, EQUALS, e);
    UnescapeEscape(p.1);
    assert f[..|p.0|] == p.0 && f[|p.0| + 1..] == e;
    assert EQUALS in f && EQUALS !in ENDWHEN;
  }

  lemma {:induction false} AddFieldsAppend(steps: seq<Step>, a: seq<Text>, b: seq<Text>)
    ensures var mid := AddFields(steps, a);
            AddFields(steps, a + b) == if mid.None? then None else AddFields(mid.value, b)
    decreases |a|
  {
    hide AddField;
    if a == [] {
      assert a + b == b;
    } else {
      assert (a + b)[1..] == a[1..] + b;
      var next := AddField(steps, a[0]);
      if next.Some? {
        AddFieldsAppend(next.value, a[1..], b);
      }
    }
  }

  lemma AddFieldsOne(steps: seq<Step>, f: Text)
    ensures AddFields(steps, [f]) == AddField(steps, f)
  {
    hide AddField;
    var next := AddField(steps, f);
    if next.Some? {
      assert [f][1..] == [];
      assert AddFields(next.value, []) == Some(next.value);
    }
  }

  lemma {:induction false} AddParams(steps: seq<Step>, kind: Text, name: Option<Text>, params: seq<(Text, Text)>)
    requires forall k :: 0 <= k < |params| ==> Bare(params[k].0)
    ensures AddFields(steps + [Step(kind, name, [])], ParamFields(params)) == Some(steps + [Step(kind, name, params)])
    decreases |params|
  {
    hide AddField, Bare;
    if params != [] {
      var init, p := params[..|params| - 1], params[|params| - 1];
      var begun := steps + [Step(kind, name, [])];
      AddParams(steps, kind, name, init);
      AddFieldsAppend(begun, ParamFields(init), [ParamField(p)]);
      var mid := steps + [Step(kind, name, init)];
      AddFieldsOne(mid, ParamField(p));
      AddParam(mid, p);
      assert params == init + [p];
      assert WithParam(mid, p.0, p.1) == steps + [Step(kind, name, params)];
    }
  }

  lemma {:induction false} AddSteps(steps: seq<Step>)
    requires forall k :: 0 <= k < |steps| ==> ValidStep(steps[k])
    ensures AddFields([], StepFields(steps)) == Some(steps)
    decreases |steps|
  {
    hide AddField, AddFields, ParamFields, HeadField;
    if steps == [] {
      assert AddFields([], []) == Some([]) by { NoFields(); }
    } else {
      var init, s := steps[..|steps| - 1], steps[|steps| - 1];
      var head, params := [HeadField(s)], ParamFields(s.params);
      AddSteps(init);
      AddFieldsAppend([], StepFields(init), head + params);
      AddFieldsAppend(init, head, params);
      AddFieldsOne(init, HeadField(s));
      AddHead(init, s);
      AddParams(init, s.kind, s.name, s.params);
      assert steps == init + [s];
    }
  }

  lemma NoFields()
    ensures AddFields([], []) == Some([])
  {
  }

  lemma {:induction false} FieldsHaveNoTab(steps: seq<Step>)
    requires forall k :: 0 <= k < |steps| ==> ValidStep(steps[k])
    ensures forall k :: 0 <= k < |StepFields(steps)| ==> TAB !in StepFields(steps)[k]
    decreases |steps|
  {
    hide Escaped;
    if steps != [] {
      var s := steps[|steps| - 1];
      FieldsHaveNoTab(steps[..|steps| - 1]);
      ParamsHaveNoTab(s.params);
      if s.name.Some? {
        EscapedIsSafe(s.name.value);
      }
    }
  }

  lemma {:induction false} ParamsHaveNoTab(params: seq<(Text, Text)>)
    requires forall k :: 0 <= k < |params| ==> Bare(params[k].0)
    ensures forall k :: 0 <= k < |ParamFields(params)| ==> TAB !in ParamFields(params)[k]
    decreases |params|
  {
    hide Escaped;
    if params != [] {
      ParamsHaveNoTab(params[..|params| - 1]);
      EscapedIsSafe(params[|params| - 1].1);
    }
  }

  /** A configuration line split on its tabs parses back to its steps, whatever characters
      the names and values hold. */
  lemma ParseLine(name: Text, steps: seq<Step>)
    requires TAB !in name && forall k :: 0 <= k < |steps| ==> ValidStep(steps[k])
    ensures var fields := SplitTabs(Line(name, steps));
            fields[0] == name && AddFields([], fields[1..]) == Some(steps)
  {
    hide StepFields, AddFields, SplitTabs, JoinTabs, ValidStep;
    FieldsHaveNoTab(steps);
    var fields := [name] + StepFields(steps);
    SplitJoin(fields);
    assert fields[1..] == StepFields(steps);
    AddSteps(steps);
  }
}
