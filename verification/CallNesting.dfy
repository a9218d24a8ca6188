/** The ancestor walk of `rule_doc_values_per_doc` in scripts/check-port-invariants.py: whether
    a call stands inside a loop, judged by the indentation of the lines above it. The two
    header patterns are one predicate on lines. */
module CallNesting {
  import opened PythonText

  function Indent(line: string): (n: nat)
  {
    if line != "" && IsSpace(line[0]) then 1 + Indent(line[1..]) else 0
  }

  lemma {:induction false} IndentIsStripped(line: string)
    ensures Indent(line) == |line| - |StripLeft(line)|
    decreases |line|
  {
    if line != "" && IsSpace(line[0]) {
      IndentIsStripped(line[1..]);
    }
  }

  predicate Blank(line: string) {
    StripLeft(line) == ""
  }

  /** Line j lies above the call and further left than the call and every line between. */
  ghost predicate Ancestor(above: seq<string>, threshold: int, j: int) {
    && 0 <= j < |above| && !Blank(above[j]) && Indent(above[j]) < threshold
    && forall m :: j < m < |above| && !Blank(above[m]) ==> Indent(above[j]) < Indent(above[m])
  }

  ghost predicate SomeAncestor(above: seq<string>, threshold: int, header: string -> bool) {
    exists j :: Ancestor(above, threshold, j) && header(above[j])
  }

  /** The backward loop over the lines above a call, from the call's indent on. */
  method InsideLoop(above: seq<string>, indent: nat, header: string -> bool) returns (found: bool)
    ensures found <==> SomeAncestor(above, indent, header)
  {
    hide Indent, Blank;
    var threshold: int := indent;
    var j := |above|;
    while j > 0
      invariant 0 <= j <= |above|
      invariant threshold <= indent
      invariant forall m :: j <= m < |above| && !Blank(above[m]) ==> threshold <= Indent(above[m])
      invariant threshold == indent || exists m :: j <= m < |above| && !Blank(above[m]) && threshold == Indent(above[m])
      invariant forall m :: j <= m && Ancestor(above, indent, m) ==> !header(above[m])
    {
      j := j - 1;
      var line := above[j];
      if !Blank(line) && Indent(line) < threshold {
        assert Ancestor(above, indent, j);
        threshold := Indent(line);
        if header(line) {
          return true;
        }
      }
    }
    return false;
  }

  // ---------------------------------------------------------------------------
  // Code as it is laid out
  // ---------------------------------------------------------------------------

  /** One block the call is nested in: the line that opens it, and the lines of its body that
      precede the next block, or the call. */
  datatype Frame = Frame(opening: string, before: seq<string>)

  /** The lines above the call, outermost block first. */
  function Above(frames: seq<Frame>): (lines: seq<string>) {
    if frames == [] then []
    else
      var f := frames[|frames| - 1];
      Above(frames[..|frames| - 1]) + ([f.opening] + f.before)
  }

  /** Blocks indent their bodies: each opening line stands left of everything in its body, and
      the body's lines stand no further left than the next block, or the call. */
  ghost predicate LaidOut(frames: seq<Frame>, indent: int) {
    frames != [] ==>
      var f := frames[|frames| - 1];
      && !Blank(f.opening) && Indent(f.opening) < indent
      && (forall k :: 0 <= k < |f.before| ==> Blank(f.before[k]) || Indent(f.before[k]) >= indent)
      && LaidOut(frames[..|frames| - 1], Indent(f.opening))
  }

  /** A line that is blank or as far right as the call is passed over. */
  lemma DeepLine(above: seq<string>, line: string, threshold: int, header: string -> bool)
    requires Blank(line) || Indent(line) >= threshold
    ensures SomeAncestor(above + [line], threshold, header) <==> SomeAncestor(above, threshold, header)
  {
    hide Indent, Blank;
    var all := above + [line];
    assert all[|above|] == line;
    assert forall j :: 0 <= j < |above| ==> all[j] == above[j];
    forall j: int
      ensures Ancestor(all, threshold, j) <==> Ancestor(above, threshold, j)
    {
    }
    if SomeAncestor(above, threshold, header) {
      var j :| Ancestor(above, threshold, j) && header(above[j]);
      assert Ancestor(all, threshold, j) && header(all[j]);
    }
    if SomeAncestor(all, threshold, header) {
      var j :| Ancestor(all, threshold, j) && header(all[j]);
      assert Ancestor(above, threshold, j) && header(above[j]);
    }
  }

  /** A line of white space alone says nothing. */
  lemma WhiteLine(above: seq<string>, line: string, threshold: int, header: string -> bool)
    requires forall k :: 0 <= k < |line| ==> IsSpace(line[k])
    ensures SomeAncestor(above + [line], threshold, header) <==> SomeAncestor(above, threshold, header)
  {
    hide SomeAncestor, IsSpace;
    var k := StripLeftExact(line);
    assert Blank(line);
    DeepLine(above, line, threshold, header);
  }

  lemma {:induction false} DeepLines(above: seq<string>, body: seq<string>, threshold: int, header: string -> bool)
    requires forall k :: 0 <= k < |body| ==> Blank(body[k]) || Indent(body[k]) >= threshold
    ensures SomeAncestor(above + body, threshold, header) <==> SomeAncestor(above, threshold, header)
    decreases |body|
  {
    hide Indent, Blank, Ancestor, SomeAncestor;
    if body == [] {
      assert above + body == above;
    } else {
      var init, last := body[..|body| - 1], body[|body| - 1];
      DeepLines(above, init, threshold, header);
      DeepLine(above + init, last, threshold, header);
      assert above + body == above + init + [last];
    }
  }

  /** A line further left than the call is visited, and moves the threshold. */
  lemma EnclosingLine(above: seq<string>, line: string, threshold: int, header: string -> bool)
    requires !Blank(line) && Indent(line) < threshold
    ensures SomeAncestor(above + [line], threshold, header) <==>
            header(line) || SomeAncestor(above, Indent(line), header)
  {
    hide Indent, Blank;
    var all := above + [line];
    assert all[|above|] == line;
    assert forall j :: 0 <= j < |above| ==> all[j] == above[j];
    assert Ancestor(all, threshold, |above|);
    forall j: int | j != |above|
      ensures Ancestor(all, threshold, j) <==> Ancestor(above, Indent(line), j)
    {
    }
    if SomeAncestor(above, Indent(line), header) {
      var j :| Ancestor(above, Indent(line), j) && header(above[j]);
      assert Ancestor(all, threshold, j) && header(all[j]);
    }
    if SomeAncestor(all, threshold, header) && !header(line) {
      var j :| Ancestor(all, threshold, j) && header(all[j]);
      assert Ancestor(above, Indent(line), j) && header(above[j]);
    }
  }

  ghost predicate LoopAround(frames: seq<Frame>, header: string -> bool) {
    exists k :: 0 <= k < |frames| && header(frames[k].opening)
  }

  /** In laid-out code the walk finds a loop exactly when one of the blocks around the call is
      opened by one, however deeply the call is nested. */
  lemma {:induction false} WalkFindsEnclosingLoop(frames: seq<Frame>, indent: int, header: string -> bool)
    requires LaidOut(frames, indent)
    ensures SomeAncestor(Above(frames), indent, header) <==> LoopAround(frames, header)
    decreases |frames|
  {
    hide Indent, Blank, Ancestor, SomeAncestor, LoopAround, Above;
    if frames == [] {
      NothingAbove(indent, header);
    } else {
      var init, f := frames[..|frames| - 1], frames[|frames| - 1];
      WalkFindsEnclosingLoop(init, Indent(f.opening), header);
      LastFrame(frames, init, f, header);
      EnclosingLine(Above(init), f.opening, indent, header);
      DeepLines(Above(init) + [f.opening], f.before, indent, header);
    }
  }

  lemma LastFrame(frames: seq<Frame>, init: seq<Frame>, f: Frame, header: string -> bool)
    requires frames != [] && init == frames[..|frames| - 1] && f == frames[|frames| - 1]
    ensures Above(frames) == Above(init) + [f.opening] + f.before
    ensures LoopAround(frames, header) <==> LoopAround(init, header) || header(f.opening)
  {
    assert frames == init + [f];
    if LoopAround(init, header) {
      var k :| 0 <= k < |init| && header(init[k].opening);
      assert header(frames[k].opening);
    }
  }

  lemma NothingAbove(indent: int, header: string -> bool)
    ensures !SomeAncestor(Above([]), indent, header) && !LoopAround([], header)
  {
  }
}
