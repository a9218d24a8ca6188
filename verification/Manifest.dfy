/** The `Append*Manifest` programs of fixtures/src: each strips the lines it owns from a
    manifest, trims trailing blank lines and appends its own block again.

    A whole ordered pass is a fixpoint after one round, because every program rotates its
    block to the end; fixtures/README.md counts on that when it re-runs all of them. */
module Manifest {

  /** Which lines a program owns and the lines it writes. */
  datatype Appender = Appender(own: string -> bool, block: seq<string>)

  /** Blank lines belong to nobody; a program writes at least one line, all its own. */
  ghost predicate Valid(a: Appender) {
    && !a.own("")
    && a.block != []
    && forall k :: 0 <= k < |a.block| ==> a.own(a.block[k]) && '\n' !in a.block[k]
  }

  /** No program owns a line another one writes. */
  ghost predicate Exclusive(pass: seq<Appender>) {
    forall i, j, k :: 0 <= i < |pass| && 0 <= j < |pass| && i != j && 0 <= k < |pass[j].block| ==>
      !pass[i].own(pass[j].block[k])
  }

  ghost predicate ValidPass(pass: seq<Appender>) {
    (forall i :: 0 <= i < |pass| ==> Valid(pass[i])) && Exclusive(pass)
  }

  // ---------------------------------------------------------------------------
  // Text
  // ---------------------------------------------------------------------------

  /** `split("\n", -1)` */
  function Split(s: string): (pieces: seq<string>)
    ensures |pieces| >= 1
  {
    if s == "" then [""]
    else
      var rest := Split(s[1..]);
      if s[0] == '\n' then [""] + rest else [[s[0]] + rest[0]] + rest[1..]
  }

  /** Every line with its newline. */
  function Unlines(lines: seq<string>): string {
    if lines == [] then "" else Unlines(lines[..|lines| - 1]) + lines[|lines| - 1] + "\n"
  }

  function Strip(lines: seq<string>, own: string -> bool): (kept: seq<string>) {
    if lines == [] then []
    else
      var last := lines[|lines| - 1];
      Strip(lines[..|lines| - 1], own) + (if own(last) then [] else [last])
  }

  predicate EndsBlank(t: string) {
    |t| >= 2 && t[|t| - 2] == '\n' && t[|t| - 1] == '\n'
  }

  function Trim(t: string): string {
    if EndsBlank(t) then Trim(t[..|t| - 1]) else t
  }

  /** What one program makes of a manifest. */
  function Append(existing: string, a: Appender): string {
    Trim(Unlines(Strip(Split(existing), a.own))) + Unlines(a.block)
  }

  /** The programs of a pass, one after the other. */
  function Run(existing: string, pass: seq<Appender>): string {
    if pass == [] then existing else Append(Run(existing, pass[..|pass| - 1]), pass[|pass| - 1])
  }

  method AppendTo(existing: string, a: Appender) returns (manifest: string)
    ensures manifest == Append(existing, a)
  {
    var pieces := Split(existing);
    var kept := "";
    for i := 0 to |pieces|
      invariant kept == Unlines(Strip(pieces[..i], a.own))
    {
      assert pieces[..i + 1][..i] == pieces[..i];
      ghost var before := Strip(pieces[..i], a.own);
      if !a.own(pieces[i]) {
        assert (before + [pieces[i]])[..|before|] == before;
        kept := kept + pieces[i] + "\n";
      } else {
        assert before + [] == before;
      }
    }
    assert pieces[..|pieces|] == pieces;
    var base := kept;
    while EndsBlank(base)
      invariant Trim(base) == Trim(kept)
      decreases |base|
    {
      base := base[..|base| - 1];
    }
    manifest := base + Unlines(a.block);
  }

  // ---------------------------------------------------------------------------
  // Text and lines
  // ---------------------------------------------------------------------------

  ghost predicate Clean(lines: seq<string>) {
    forall k :: 0 <= k < |lines| ==> '\n' !in lines[k]
  }

  lemma {:induction false} SplitClean(s: string)
    ensures Clean(Split(s))
    decreases |s|
  {
    if s != "" {
      SplitClean(s[1..]);
    }
  }

  lemma {:induction false} SplitFirst(l: string, rest: string)
    requires '\n' !in l
    ensures Split(l + "\n" + rest) == [l] + Split(rest)
    decreases |l|
  {
    var s := l + "\n" + rest;
    if l == "" {
      assert s[1..] == rest;
    } else {
      assert s[1..] == l[1..] + "\n" + rest;
      SplitFirst(l[1..], rest);
      assert l == [l[0]] + l[1..];
      assert s[0] == l[0] && l[0] in l;
    }
  }

  lemma {:induction false} SplitUnlinesThen(lines: seq<string>, rest: string)
    requires Clean(lines)
    ensures Split(Unlines(lines) + rest) == lines + Split(rest)
    decreases |lines|
  {
    hide Split;
    if lines == [] {
      assert Unlines(lines) + rest == rest;
      assert lines + Split(rest) == Split(rest);
    } else {
      var init, last := lines[..|lines| - 1], lines[|lines| - 1];
      assert Unlines(lines) + rest == Unlines(init) + (last + "\n" + rest);
      SplitUnlinesThen(init, last + "\n" + rest);
      SplitFirst(last, rest);
      assert init + ([last] + Split(rest)) == lines + Split(rest);
    }
  }

  /** A newline-terminated text splits into its lines and one empty piece. */
  lemma SplitUnlines(lines: seq<string>)
    requires Clean(lines)
    ensures Split(Unlines(lines)) == lines + [""]
  {
    SplitUnlinesThen(lines, "");
    assert Unlines(lines) + "" == Unlines(lines);
  }

  lemma {:induction false} UnlinesAppend(a: seq<string>, b: seq<string>)
    ensures Unlines(a + b) == Unlines(a) + Unlines(b)
    decreases |b|
  {
    if b == [] {
      assert a + b == a;
    } else {
      assert (a + b)[..|a + b| - 1] == a + b[..|b| - 1];
      UnlinesAppend(a, b[..|b| - 1]);
    }
  }

  lemma {:induction false} StripAppend(a: seq<string>, b: seq<string>, own: string -> bool)
    ensures Strip(a + b, own) == Strip(a, own) + Strip(b, own)
    decreases |b|
  {
    if b == [] {
      assert a + b == a;
    } else {
      assert (a + b)[..|a + b| - 1] == a + b[..|b| - 1];
      StripAppend(a, b[..|b| - 1], own);
    }
  }

  lemma {:induction false} StripAll(lines: seq<string>, own: string -> bool)
    requires forall k :: 0 <= k < |lines| ==> own(lines[k])
    ensures Strip(lines, own) == []
    decreases |lines|
  {
    if lines != [] {
      StripAll(lines[..|lines| - 1], own);
    }
  }

  lemma {:induction false} StripNone(lines: seq<string>, own: string -> bool)
    requires NoneOwned(lines, own)
    ensures Strip(lines, own) == lines
    decreases |lines|
  {
    if lines != [] {
      StripNone(lines[..|lines| - 1], own);
      assert lines == lines[..|lines| - 1] + [lines[|lines| - 1]];
    }
  }

  lemma {:induction false} StripMembers(lines: seq<string>, own: string -> bool)
    ensures forall x :: x in Strip(lines, own) <==> x in lines && !own(x)
    decreases |lines|
  {
    if lines != [] {
      StripMembers(lines[..|lines| - 1], own);
      assert lines == lines[..|lines| - 1] + [lines[|lines| - 1]];
    }
  }

  // ---------------------------------------------------------------------------
  // One program, on lines
  // ---------------------------------------------------------------------------

  /** Trimming on lines: a trailing blank line goes, unless it is the only line. */
  function TrimLines(lines: seq<string>): (r: seq<string>)
    ensures r <= lines && (lines != [] ==> r != [])
  {
    if |lines| >= 2 && lines[|lines| - 1] == "" then TrimLines(lines[..|lines| - 1]) else lines
  }

  lemma {:induction false} TrimUnlines(lines: seq<string>)
    requires Clean(lines)
    ensures Trim(Unlines(lines)) == Unlines(TrimLines(lines))
    decreases |lines|
  {
    if lines != [] {
      var init, last := lines[..|lines| - 1], lines[|lines| - 1];
      var t := Unlines(lines);
      assert t == Unlines(init) + last + "\n";
      if last == "" {
        assert t[..|t| - 1] == Unlines(init);
        if init != [] {
          assert Unlines(init)[|Unlines(init)| - 1] == '\n';
          TrimUnlines(init);
        }
      } else {
        assert t[|t| - 2] == last[|last| - 1] && last[|last| - 1] in last;
      }
    }
  }

  /** The manifest after one program, as lines: what it kept, trimmed, and its block. */
  function Step(pieces: seq<string>, a: Appender): seq<string> {
    TrimLines(Strip(pieces, a.own)) + a.block
  }

  /** What a program needs for the lines to account for the text. */
  ghost predicate Tidy(a: Appender) {
    !a.own("") && Clean(a.block)
  }

  lemma AppendIsStep(existing: string, a: Appender)
    requires Tidy(a)
    ensures Append(existing, a) == Unlines(Step(Split(existing), a)) && Clean(Step(Split(existing), a))
  {
    hide Split, Unlines, Strip, Trim, TrimLines;
    var kept := Strip(Split(existing), a.own);
    SplitClean(existing);
    StripMembers(Split(existing), a.own);
    assert forall k :: 0 <= k < |kept| ==> kept[k] in kept;
    TrimUnlines(kept);
    UnlinesAppend(TrimLines(kept), a.block);
  }

  // ---------------------------------------------------------------------------
  // A whole pass
  // ---------------------------------------------------------------------------

  function Blocks(pass: seq<Appender>): (lines: seq<string>) {
    if pass == [] then [] else Blocks(pass[..|pass| - 1]) + pass[|pass| - 1].block
  }

  /** What a pass keeps of the original manifest: only its first program can trim, since
      after that a block stands at the end. */
  function Foreign(existing: string, pass: seq<Appender>): (lines: seq<string>)
    requires pass != []
  {
    var a := pass[|pass| - 1];
    if |pass| == 1 then TrimLines(Strip(Split(existing), a.own))
    else Strip(Foreign(existing, pass[..|pass| - 1]), a.own)
  }

  ghost predicate NoneOwned(lines: seq<string>, own: string -> bool) {
    forall k :: 0 <= k < |lines| ==> !own(lines[k])
  }

  ghost predicate OwnedBySome(pass: seq<Appender>, line: string) {
    exists i :: 0 <= i < |pass| && pass[i].own(line)
  }

  /** Nothing in the blocks belongs to a program outside them. */
  lemma {:induction false} BlocksExclude(pass: seq<Appender>, a: Appender)
    requires forall j, k :: 0 <= j < |pass| && 0 <= k < |pass[j].block| ==> !a.own(pass[j].block[k])
    ensures NoneOwned(Blocks(pass), a.own)
    decreases |pass|
  {
    if pass != [] {
      BlocksExclude(pass[..|pass| - 1], a);
    }
  }

  lemma {:induction false} BlocksClean(pass: seq<Appender>)
    requires forall i :: 0 <= i < |pass| ==> Valid(pass[i])
    ensures Clean(Blocks(pass)) && (pass != [] ==> Blocks(pass) != [] && Blocks(pass)[|Blocks(pass)| - 1] != "")
    ensures forall k :: 0 <= k < |Blocks(pass)| ==> OwnedBySome(pass, Blocks(pass)[k])
    decreases |pass|
  {
    if pass != [] {
      var init, a := pass[..|pass| - 1], pass[|pass| - 1];
      BlocksClean(init);
      var b := Blocks(init);
      forall k | 0 <= k < |Blocks(pass)|
        ensures OwnedBySome(pass, Blocks(pass)[k])
      {
        if k < |b| {
          var i :| 0 <= i < |init| && init[i].own(b[k]);
          assert pass[i].own(b[k]);
        } else {
          assert pass[|pass| - 1].own(a.block[k - |b|]);
        }
      }
      assert a.own(a.block[|a.block| - 1]);
    }
  }

  lemma {:induction false} BlocksAppend(p: seq<Appender>, q: seq<Appender>)
    ensures Blocks(p + q) == Blocks(p) + Blocks(q)
    decreases |q|
  {
    if q == [] {
      assert p + q == p;
    } else {
      assert (p + q)[..|p + q| - 1] == p + q[..|q| - 1];
      BlocksAppend(p, q[..|q| - 1]);
    }
  }

  lemma {:induction false} TrimLinesTwice(lines: seq<string>)
    ensures TrimLines(TrimLines(lines)) == TrimLines(lines)
    ensures TrimLines(lines + [""]) == if lines == [] then [""] else TrimLines(lines)
    decreases |lines|
  {
    assert (lines + [""])[..|lines|] == lines;
    if |lines| >= 2 && lines[|lines| - 1] == "" {
      TrimLinesTwice(lines[..|lines| - 1]);
    }
  }

  /** One program on a manifest whose last line, after stripping, is not blank. */
  lemma AppendKeeps(lines: seq<string>, a: Appender)
    requires Tidy(a) && Clean(lines)
    requires var kept := Strip(lines, a.own); kept != [] && kept[|kept| - 1] != ""
    ensures Append(Unlines(lines), a) == Unlines(Strip(lines, a.own) + a.block)
  {
    hide Split, Unlines, Strip, TrimLines;
    var kept := Strip(lines, a.own);
    AppendIsStep(Unlines(lines), a);
    SplitUnlines(lines);
    StripAppend(lines, [""], a.own);
    StripNone([""], a.own);
    TrimLinesTwice(kept);
    LastStays(kept);
  }

  lemma LastStays(kept: seq<string>)
    requires kept != [] && kept[|kept| - 1] != ""
    ensures TrimLines(kept) == kept
  {
  }

  lemma {:induction false} ForeignClean(existing: string, pass: seq<Appender>)
    requires pass != []
    ensures Clean(Foreign(existing, pass))
    ensures forall k :: 0 <= k < |Foreign(existing, pass)| ==> !OwnedBySome(pass, Foreign(existing, pass)[k])
    decreases |pass|
  {
    hide Split, Strip;
    var init, a := pass[..|pass| - 1], pass[|pass| - 1];
    var f := Foreign(existing, pass);
    if |pass| == 1 {
      var kept := Strip(Split(existing), a.own);
      SplitClean(existing);
      StripMembers(Split(existing), a.own);
      assert forall k :: 0 <= k < |f| ==> f[k] == kept[k] && kept[k] in kept;
      assert forall x :: OwnedBySome(pass, x) <==> a.own(x);
    } else {
      ForeignClean(existing, init);
      var before := Foreign(existing, init);
      StripMembers(before, a.own);
      forall k | 0 <= k < |f|
        ensures '\n' !in f[k] && !OwnedBySome(pass, f[k])
      {
        assert f[k] in f;
        assert !OwnedBySome(init, f[k]);
        if i :| 0 <= i < |pass| && pass[i].own(f[k]) {
          assert i < |init| ==> init[i].own(f[k]);
        }
      }
    }
  }

  lemma InitValid(pass: seq<Appender>)
    requires ValidPass(pass) && pass != []
    ensures ValidPass(pass[..|pass| - 1])
    ensures var a := pass[|pass| - 1];
            forall j, k :: 0 <= j < |pass| - 1 && 0 <= k < |pass[j].block| ==> !a.own(pass[j].block[k])
  {
    var init := pass[..|pass| - 1];
    assert forall i :: 0 <= i < |init| ==> init[i] == pass[i];
  }

  /** After a pass: the foreign lines, then the blocks in the order of the pass. */
  lemma {:induction false} RunIsForeignThenBlocks(existing: string, pass: seq<Appender>)
    requires ValidPass(pass) && pass != []
    ensures Run(existing, pass) == Unlines(Foreign(existing, pass) + Blocks(pass))
    decreases |pass|
  {
    hide Split, Unlines, Strip, TrimLines, Append, Exclusive;
    var init, a := pass[..|pass| - 1], pass[|pass| - 1];
    InitValid(pass);
    if |pass| == 1 {
      assert Run(existing, init) == existing;
      AppendIsStep(existing, a);
      assert Blocks(init) == [] && [] + a.block == a.block;
    } else {
      RunIsForeignThenBlocks(existing, init);
      var f, b := Foreign(existing, init), Blocks(init);
      ForeignClean(existing, init);
      BlocksClean(init);
      BlocksExclude(init, a);
      StripAppend(f, b, a.own);
      StripNone(b, a.own);
      AppendKeeps(f + b, a);
      assert (Strip(f, a.own) + b) + a.block == Strip(f, a.own) + (b + a.block);
    }
  }

  // --- the second round

  /** With i programs of the second round done, the first i blocks have moved to the end. */
  function Rotated(foreign: seq<string>, pass: seq<Appender>, i: nat): seq<string>
    requires i <= |pass|
  {
    foreign + (Blocks(pass[i..]) + Blocks(pass[..i]))
  }

  lemma RotateOne(foreign: seq<string>, pass: seq<Appender>, i: nat)
    requires ValidPass(pass) && |pass| >= 2 && i < |pass|
    requires Clean(foreign) && forall k :: 0 <= k < |foreign| ==> !OwnedBySome(pass, foreign[k])
    ensures Append(Unlines(Rotated(foreign, pass, i)), pass[i]) == Unlines(Rotated(foreign, pass, i + 1))
  {
    hide Unlines, Strip, Append, Blocks;
    var a, after, before := pass[i], pass[i + 1..], pass[..i];
    var rest := Blocks(after) + Blocks(before);
    BlockFirst(pass, i);
    assert Rotated(foreign, pass, i) == foreign + (a.block + rest);
    OthersExclude(pass, i);
    forall k | 0 <= k < |foreign|
      ensures !a.own(foreign[k])
    {
      assert !OwnedBySome(pass, foreign[k]);
    }
    StripNone(foreign, a.own);
    StripAll(a.block, a.own);
    StripNone(rest, a.own);
    StripAppend(a.block, rest, a.own);
    StripAppend(foreign, a.block + rest, a.own);
    assert [] + rest == rest;
    assert Strip(foreign + (a.block + rest), a.own) == foreign + rest;
    AppendKeeps(foreign + (a.block + rest), a);
    BlockLast(pass, i);
    assert (foreign + rest) + a.block == foreign + (Blocks(after) + (Blocks(before) + a.block));
  }

  lemma BlockFirst(pass: seq<Appender>, i: nat)
    requires i < |pass|
    ensures Blocks(pass[i..]) == pass[i].block + Blocks(pass[i + 1..])
  {
    assert pass[i..] == [pass[i]] + pass[i + 1..];
    BlocksAppend([pass[i]], pass[i + 1..]);
    assert Blocks([pass[i]]) == Blocks([pass[i]][..0]) + pass[i].block == pass[i].block;
  }

  lemma BlockLast(pass: seq<Appender>, i: nat)
    requires i < |pass|
    ensures Blocks(pass[..i + 1]) == Blocks(pass[..i]) + pass[i].block
  {
    assert pass[..i + 1][..i] == pass[..i];
  }

  /** The other blocks are clean, not this program's, and end in a line that is not blank. */
  lemma OthersExclude(pass: seq<Appender>, i: nat)
    requires ValidPass(pass) && |pass| >= 2 && i < |pass|
    ensures var rest := Blocks(pass[i + 1..]) + Blocks(pass[..i]);
            && Clean(rest) && rest != [] && rest[|rest| - 1] != ""
            && NoneOwned(rest, pass[i].own)
  {
    var after, before := pass[i + 1..], pass[..i];
    BlocksClean(after);
    BlocksClean(before);
    BlocksApart(pass, i);
    assert after != [] || before != [];
  }

  lemma {:induction false} SecondRound(foreign: seq<string>, pass: seq<Appender>, i: nat)
    requires ValidPass(pass) && |pass| >= 2 && i <= |pass|
    requires Clean(foreign) && forall k :: 0 <= k < |foreign| ==> !OwnedBySome(pass, foreign[k])
    ensures Run(Unlines(foreign + Blocks(pass)), pass[..i]) == Unlines(Rotated(foreign, pass, i))
    decreases i
  {
    hide Unlines, Append, OwnedBySome, ValidPass;
    if i == 0 {
      assert pass[0..] == pass && pass[..0] == [];
      assert Blocks(pass) + [] == Blocks(pass);
    } else {
      SecondRound(foreign, pass, i - 1);
      RotateOne(foreign, pass, i - 1);
      assert pass[..i][..i - 1] == pass[..i - 1];
    }
  }

  /** A pass of two or more programs reaches its fixpoint in one round, from any text. */
  lemma PassIsIdempotent(existing: string, pass: seq<Appender>)
    requires ValidPass(pass) && |pass| >= 2
    ensures Run(Run(existing, pass), pass) == Run(existing, pass)
  {
    hide Unlines, Append, Foreign, Run, ValidPass, Blocks;
    RunIsForeignThenBlocks(existing, pass);
    ForeignClean(existing, pass);
    var f := Foreign(existing, pass);
    SecondRound(f, pass, |pass|);
    assert pass[..|pass|] == pass && pass[|pass|..] == [];
    assert Blocks([]) == [] by { NoBlocks(); }
    assert [] + Blocks(pass) == Blocks(pass);
  }

  lemma NoBlocks()
    ensures Blocks([]) == []
  {
  }

  /** A program alone does so exactly when it leaves some piece of the text standing; a
      newline-terminated manifest always has one, its last and empty piece. */
  lemma AppenderIsIdempotent(existing: string, a: Appender)
    requires Valid(a)
    ensures Append(Append(existing, a), a) == Append(existing, a) <==>
            exists k :: 0 <= k < |Split(existing)| && !a.own(Split(existing)[k])
  {
    hide Split, Unlines, Strip, TrimLines, Append;
    var pieces := Split(existing);
    var kept := Strip(pieces, a.own);
    var f := TrimLines(kept);
    StripMembers(pieces, a.own);
    AppendIsStep(existing, a);
    assert Append(existing, a) == Unlines(f + a.block);
    SplitUnlines(f + a.block);
    AppendIsStep(Unlines(f + a.block), a);
    assert forall k :: 0 <= k < |kept| ==> kept[k] in kept;
    StripNone(f, a.own);
    StripAll(a.block, a.own);
    StripNone([""], a.own);
    StripAppend(f, a.block, a.own);
    StripAppend(f + a.block, [""], a.own);
    assert f + [] + [""] == f + [""];
    TrimLinesTwice(kept);
    TrimLinesTwice(f);
    if k :| 0 <= k < |pieces| && !a.own(pieces[k]) {
      assert pieces[k] in kept;
      assert TrimLines(f + [""]) == f;
    } else {
      StripAll(pieces, a.own);
      assert f == [] && f + a.block == a.block && TrimLines(f + [""]) == [""];
      assert Append(existing, a) == Unlines(a.block);
      assert Append(Unlines(a.block), a) == Unlines([""] + a.block);
      UnlinesAppend([""], a.block);
      BlankLine();
    }
  }

  lemma BlankLine()
    ensures |Unlines([""])| == 1
  {
    assert Unlines([""]) == Unlines([""][..0]) + "" + "\n";
  }

  lemma NewlineTerminated(lines: seq<string>, a: Appender)
    requires Valid(a) && Clean(lines)
    ensures Append(Append(Unlines(lines), a), a) == Append(Unlines(lines), a)
  {
    hide Append, Unlines;
    SplitUnlines(lines);
    assert Split(Unlines(lines))[|lines|] == "";
    AppenderIsIdempotent(Unlines(lines), a);
  }

  // --- what survives

  ghost function Removed(pass: seq<Appender>): string -> bool {
    (line: string) => line == "" || OwnedBySome(pass, line)
  }

  lemma {:induction false} StripWeaker(lines: seq<string>, own: string -> bool, more: string -> bool)
    requires forall x :: own(x) ==> more(x)
    ensures Strip(Strip(lines, own), more) == Strip(lines, more)
    decreases |lines|
  {
    if lines != [] {
      var init, last := lines[..|lines| - 1], lines[|lines| - 1];
      StripWeaker(init, own, more);
      var tail := if own(last) then [] else [last];
      StripAppend(Strip(init, own), tail, more);
      if !own(last) {
        assert [last][..0] == [];
        assert Strip([last], more) == Strip([], more) + (if more(last) then [] else [last]);
      }
    }
  }

  lemma {:induction false} StripTrimmed(lines: seq<string>, more: string -> bool)
    requires more("")
    ensures Strip(TrimLines(lines), more) == Strip(lines, more)
    decreases |lines|
  {
    if |lines| >= 2 && lines[|lines| - 1] == "" {
      StripTrimmed(lines[..|lines| - 1], more);
    }
  }

  lemma {:induction false} ForeignSurvives(existing: string, pass: seq<Appender>, more: string -> bool)
    requires pass != [] && more("") && forall x :: OwnedBySome(pass, x) ==> more(x)
    ensures Strip(Foreign(existing, pass), more) == Strip(Split(existing), more)
    decreases |pass|
  {
    hide Strip, Split, TrimLines;
    var init, a := pass[..|pass| - 1], pass[|pass| - 1];
    forall x | a.own(x)
      ensures more(x)
    {
      assert pass[|pass| - 1].own(x);
      assert OwnedBySome(pass, x);
    }
    if |pass| == 1 {
      StripTrimmed(Strip(Split(existing), a.own), more);
      StripWeaker(Split(existing), a.own, more);
    } else {
      forall x | OwnedBySome(init, x)
        ensures more(x)
      {
        var i :| 0 <= i < |init| && init[i].own(x);
        assert pass[i].own(x);
        assert OwnedBySome(pass, x);
      }
      ForeignSurvives(existing, init, more);
      StripWeaker(Foreign(existing, init), a.own, more);
    }
  }

  /** Every line that is neither blank nor owned survives a pass, in order, and nothing
      else that is neither blank nor owned appears. */
  lemma ForeignLinesSurvive(existing: string, pass: seq<Appender>)
    requires ValidPass(pass) && pass != []
    ensures Strip(Split(Run(existing, pass)), Removed(pass)) == Strip(Split(existing), Removed(pass))
  {
    hide Strip, Split, Unlines, Foreign, Run, Blocks;
    var f, b, more := Foreign(existing, pass), Blocks(pass), Removed(pass);
    RunIsForeignThenBlocks(existing, pass);
    ForeignClean(existing, pass);
    BlocksClean(pass);
    SplitUnlines(f + b);
    StripAppend(f + b, [""], more);
    StripAppend(f, b, more);
    StripAll([""], more);
    StripAll(b, more);
    ForeignSurvives(existing, pass, more);
    assert Strip(f, more) + [] + [] == Strip(f, more);
  }

  /** And every program's own lines are exactly its block, once. */
  lemma OwnLinesAreTheBlock(existing: string, pass: seq<Appender>, i: nat)
    requires ValidPass(pass) && i < |pass|
    ensures Strip(Split(Run(existing, pass)), line => !pass[i].own(line)) == pass[i].block
  {
    hide Strip, Split, Unlines, Foreign, Run, Blocks;
    var f, b, own := Foreign(existing, pass), Blocks(pass), pass[i].own;
    var others := (line: string) => !own(line);
    RunIsForeignThenBlocks(existing, pass);
    ForeignClean(existing, pass);
    BlocksClean(pass);
    SplitUnlines(f + b);
    forall k | 0 <= k < |f|
      ensures others(f[k])
    {
      assert !OwnedBySome(pass, f[k]);
    }
    StripAll(f, others);
    StripAll([""], others);
    StripAppend(f + b, [""], others);
    StripAppend(f, b, others);
    BlocksAround(pass, i);
    var before, after := Blocks(pass[..i]), Blocks(pass[i + 1..]);
    BlocksApart(pass, i);
    StripAppend(before + pass[i].block, after, others);
    StripAppend(before, pass[i].block, others);
    StripAll(before, others);
    StripAll(after, others);
    StripNone(pass[i].block, others);
    assert [] + ([] + pass[i].block + []) + [] == pass[i].block;
    StripSame(Split(Run(existing, pass)), others, line => !pass[i].own(line));
  }

  lemma {:induction false} StripSame(lines: seq<string>, p: string -> bool, q: string -> bool)
    requires forall x :: p(x) == q(x)
    ensures Strip(lines, p) == Strip(lines, q)
    decreases |lines|
  {
    if lines != [] {
      StripSame(lines[..|lines| - 1], p, q);
    }
  }

  lemma {:induction false} BlocksAround(pass: seq<Appender>, i: nat)
    requires i < |pass|
    ensures Blocks(pass) == Blocks(pass[..i]) + pass[i].block + Blocks(pass[i + 1..])
  {
    hide Blocks;
    assert pass == pass[..i + 1] + pass[i + 1..];
    BlocksAppend(pass[..i + 1], pass[i + 1..]);
    BlockLast(pass, i);
  }

  lemma BlocksApart(pass: seq<Appender>, i: nat)
    requires ValidPass(pass) && i < |pass|
    ensures NoneOwned(Blocks(pass[..i]), pass[i].own) && NoneOwned(Blocks(pass[i + 1..]), pass[i].own)
  {
    var after, before := pass[i + 1..], pass[..i];
    forall j, k | 0 <= j < |after| && 0 <= k < |after[j].block|
      ensures !pass[i].own(after[j].block[k])
    {
      assert after[j] == pass[i + 1 + j];
    }
    forall j, k | 0 <= j < |before| && 0 <= k < |before[j].block|
      ensures !pass[i].own(before[j].block[k])
    {
      assert before[j] == pass[j];
    }
    BlocksExclude(after, pass[i]);
    BlocksExclude(before, pass[i]);
  }

  // ---------------------------------------------------------------------------
  // The owners of the source
  // ---------------------------------------------------------------------------

  /** `line.startsWith("scoring.")` */
  predicate ScoringOwns(line: string) {
    "scoring." <= line
  }

  /** `line.startsWith("count.") || line.startsWith("rewrite.")` */
  predicate CountOwns(line: string) {
    "count." <= line || "rewrite." <= line
  }

  function DigitsEnd(line: string, at: nat): (end: nat)
    requires at <= |line|
    ensures at <= end <= |line|
    decreases |line| - at
  {
    if at < |line| && '0' <= line[at] <= '9' then DigitsEnd(line, at + 1) else at
  }

  /** `OWN`: ^query\.\d+\.(pruned\.total|searcher\.) at the start of the line. */
  predicate PrunedOwns(line: string) {
    && "query." <= line
    && var end := DigitsEnd(line, 6);
       end > 6 && (".pruned.total" <= line[end..] || ".searcher." <= line[end..])
  }

  ghost predicate BlockOf(block: seq<string>, own: string -> bool) {
    block != [] && forall k :: 0 <= k < |block| ==> own(block[k]) && '\n' !in block[k]
  }

  function Programs(scoring: seq<string>, count: seq<string>, pruned: seq<string>): (all: seq<Appender>)
    ensures |all| == 3
  {
    [Appender(ScoringOwns, scoring), Appender(CountOwns, count), Appender(PrunedOwns, pruned)]
  }

  /** Some of the programs, each at most once, in a chosen order. */
  function Chosen(all: seq<Appender>, order: seq<nat>): (pass: seq<Appender>)
    requires forall i :: 0 <= i < |order| ==> order[i] < |all|
    ensures |pass| == |order| && forall i :: 0 <= i < |order| ==> pass[i] == all[order[i]]
  {
    seq(|order|, i requires 0 <= i < |order| => all[order[i]])
  }

  lemma OwnersApart(line: string)
    ensures !(ScoringOwns(line) && CountOwns(line)) && !(ScoringOwns(line) && PrunedOwns(line))
    ensures !(CountOwns(line) && PrunedOwns(line))
  {
    assert "scoring." <= line ==> line[0] == 's';
    assert "count." <= line ==> line[0] == 'c';
    assert "rewrite." <= line ==> line[0] == 'r';
    assert "query." <= line ==> line[0] == 'q';
  }

  /** The keys of the three programs. */
  lemma OwnersExact(line: string)
    ensures ScoringOwns(line) <==> "scoring." <= line
    ensures CountOwns(line) <==> "count." <= line || "rewrite." <= line
    ensures PrunedOwns(line) <==>
            && "query." <= line
            && exists n :: 6 < n <= |line| && (forall i :: 6 <= i < n ==> line[i] in "0123456789") &&
                           (".pruned.total" <= line[n..] || ".searcher." <= line[n..])
  {
    if "query." <= line {
      DigitsExact(line, 6);
      var end := DigitsEnd(line, 6);
      forall n | 6 < n <= |line| && (forall i :: 6 <= i < n ==> line[i] in "0123456789") &&
                 (".pruned.total" <= line[n..] || ".searcher." <= line[n..])
        ensures n == end
      {
        assert line[n] == line[n..][0] == '.';
      }
    }
  }

  lemma {:induction false} DigitsExact(line: string, at: nat)
    requires at <= |line|
    ensures var end := DigitsEnd(line, at);
            && (forall i :: at <= i < end ==> line[i] in "0123456789")
            && (end < |line| ==> line[end] !in "0123456789")
    decreases |line| - at
  {
    if at < |line| && '0' <= line[at] <= '9' {
      DigitsExact(line, at + 1);
    }
  }

  /** The three programs, or any of them, in any order and whatever they write under their own
      keys, form a valid pass. */
  lemma SourceOwnersFormAPass(scoring: seq<string>, count: seq<string>, pruned: seq<string>, order: seq<nat>)
    requires BlockOf(scoring, ScoringOwns) && BlockOf(count, CountOwns) && BlockOf(pruned, PrunedOwns)
    requires forall i :: 0 <= i < |order| ==> order[i] < 3
    requires forall i, j :: 0 <= i < j < |order| ==> order[i] != order[j]
    ensures ValidPass(Chosen(Programs(scoring, count, pruned), order))
  {
    forall line: string
      ensures !(ScoringOwns(line) && CountOwns(line)) && !(ScoringOwns(line) && PrunedOwns(line))
      ensures !(CountOwns(line) && PrunedOwns(line))
    {
      OwnersApart(line);
    }
    assert !ScoringOwns("") && !CountOwns("") && !PrunedOwns("");
    hide ScoringOwns, CountOwns, PrunedOwns;
    var all := Programs(scoring, count, pruned);
    var pass := Chosen(all, order);
    forall i | 0 <= i < |pass|
      ensures Valid(pass[i])
    {
      assert pass[i] == all[order[i]];
    }
    forall i, j, k | 0 <= i < |pass| && 0 <= j < |pass| && i != j && 0 <= k < |pass[j].block|
      ensures !pass[i].own(pass[j].block[k])
    {
      assert pass[j].own(pass[j].block[k]);
      assert order[i] != order[j];
    }
  }

  /** A program that wrote nothing would break the fixpoint: a stale line of its own hides a
      blank line from the first round's trimming and uncovers it for the second. */
  lemma EmptyBlockBreaksFixpoint(a: Appender, b: Appender, x: string, y: string)
    requires Valid(a) && Tidy(b) && b.block == [] && NoneOwned(a.block, b.own)
    requires x != "" && !a.own(x) && !b.own(x) && !a.own(y) && b.own(y) && '\n' !in x && '\n' !in y
    ensures var stale := Unlines([x, ""] + [y]);
            Run(Run(stale, [a, b]), [a, b]) != Run(stale, [a, b])
  {
    hide Split, Unlines, Strip, Append, TrimLines;
    var xs, stale := [x, ""], Unlines([x, ""] + [y]);
    assert Clean(xs) && Clean([x]) && Clean([y]);
    assert a.own(a.block[|a.block| - 1]);
    StripNone(xs, a.own);
    StripNone(xs, b.own);
    StripNone([y], a.own);
    StripAll([y], b.own);
    StripAll(a.block, a.own);
    StripNone(a.block, b.own);

    StripAppend(xs, [y], a.own);
    AppendKeeps(xs + [y], a);
    StripAppend(xs, [y], b.own);
    StripAppend(xs + [y], a.block, b.own);
    assert xs + [] + a.block == xs + a.block && xs + a.block + [] == xs + a.block;
    AppendKeeps(xs + [y] + a.block, b);
    RunTwo(stale, a, b);
    assert Run(stale, [a, b]) == Unlines(xs + a.block);

    StripAppend(xs, a.block, a.own);
    StripAppend(xs + a.block, [""], a.own);
    StripNone([""], a.own);
    SplitUnlines(xs + a.block);
    AppendIsStep(Unlines(xs + a.block), a);
    TrimBlanks(x);
    assert xs + [] + [""] == [x, "", ""];
    StripNone([x], b.own);
    StripAppend([x], a.block, b.own);
    assert [x] + a.block + [] == [x] + a.block;
    AppendKeeps([x] + a.block, b);
    RunTwo(Unlines(xs + a.block), a, b);
    assert Run(Unlines(xs + a.block), [a, b]) == Unlines([x] + a.block);
    SplitUnlines([x] + a.block);
  }

  lemma RunTwo(t: string, a: Appender, b: Appender)
    ensures Run(t, [a, b]) == Append(Append(t, a), b)
  {
    assert [a, b][..1] == [a] && [a][..0] == [];
    assert Run(t, [a]) == Append(Run(t, []), a);
  }

  lemma TrimBlanks(x: string)
    ensures TrimLines([x, "", ""]) == [x]
  {
    assert [x, "", ""][..2] == [x, ""] && [x, ""][..1] == [x];
    assert TrimLines([x, ""]) == TrimLines([x]);
  }
}
