/** `_blank_cfg_test` in scripts/check-port-invariants.py: the lines of `#[cfg(test)]` items are
    emptied so that the rules see production code only and line numbers stay. */
module SourceScan {
  import opened PythonText

  // ---------------------------------------------------------------------------
  // `#[cfg(test)]` items
  // ---------------------------------------------------------------------------

  function Count(s: string, c: char): (n: nat) {
    if s == "" then 0 else Count(s[..|s| - 1], c) + if s[|s| - 1] == c then 1 else 0
  }

  predicate IsTestMark(line: string) {
    Strip(line) == "#[cfg(test)]"
  }

  predicate Opens(line: string) {
    '{' in line
  }

  predicate EndsStatement(line: string) {
    var s := StripRight(line);
    s != "" && s[|s| - 1] == ';'
  }

  /** The mark may stand between white space. */
  lemma TestMarkExact(line: string)
    ensures IsTestMark(line) <==>
            exists i, j :: 0 <= i <= j <= |line| && line[i..j] == "#[cfg(test)]" &&
                           forall k :: 0 <= k < |line| && !(i <= k < j) ==> IsSpace(line[k])
  {
    NoSpaceAround();
    hide IsSpace, Strip;
    var i, j := StripExact(line);
    forall a, b | 0 <= a <= b <= |line| && line[a..b] == "#[cfg(test)]" &&
                  forall k :: 0 <= k < |line| && !(a <= k < b) ==> IsSpace(line[k])
      ensures a == i && b == j
    {
      assert line[a..b][0] == line[a] == '#' && line[a..b][b - a - 1] == line[b - 1] == ']';
    }
  }

  lemma NoSpaceAround()
    ensures !IsSpace('#') && !IsSpace(']') && !IsSpace(';')
  {
  }

  /** A semicolon, and behind it nothing but white space. */
  lemma EndsStatementExact(line: string)
    ensures EndsStatement(line) <==>
            exists i :: 0 <= i < |line| && line[i] == ';' && forall k :: i < k < |line| ==> IsSpace(line[k])
  {
    NoSpaceAround();
    hide IsSpace, StripRight;
    var k := StripRightExact(line);
    if EndsStatement(line) {
      assert line[k - 1] == ';';
    }
  }

  /** `str.count` of one character. */
  lemma {:induction false} CountExact(s: string, c: char)
    ensures Count(s, c) == multiset(s)[c]
    decreases |s|
  {
    if s != "" {
      CountExact(s[..|s| - 1], c);
      assert s == s[..|s| - 1] + [s[|s| - 1]];
    }
  }

  /** Opening less closing braces. */
  function Depth(lines: seq<string>): (d: int) {
    if lines == [] then 0
    else
      var last := lines[|lines| - 1];
      Depth(lines[..|lines| - 1]) + Count(last, '{') - Count(last, '}')
  }

  predicate Started(lines: seq<string>) {
    exists k :: 0 <= k < |lines| && Opens(lines[k])
  }

  /** Lines read from the mark on make up a finished item. */
  predicate Finished(lines: seq<string>) {
    lines != [] && if Started(lines) then Depth(lines) <= 0 else EndsStatement(lines[|lines| - 1])
  }

  /** The item is the shortest finished stretch from the mark on, or all the lines. */
  ghost predicate IsItem(lines: seq<string>, n: nat) {
    && n <= |lines|
    && (forall m :: 0 <= m < n ==> !Finished(lines[..m]))
    && (n == |lines| || Finished(lines[..n]))
  }

  /** The inner loop: the length of the item that starts with a mark. */
  method ItemLength(lines: seq<string>) returns (n: nat)
    requires lines != []
    ensures IsItem(lines, n) && 0 < n <= |lines|
  {
    hide Depth, Opens, EndsStatement;
    var j, depth, started := 0, 0, false;
    assert Depth(lines[..0]) == 0 by { DepthEmpty(); }
    while j < |lines|
      invariant 0 <= j <= |lines|
      invariant depth == Depth(lines[..j]) && started == Started(lines[..j])
      invariant forall m :: 0 <= m <= j ==> !Finished(lines[..m])
    {
      var line := lines[j];
      DepthSnoc(lines, j);
      StartedSnoc(lines, j);
      if Opens(line) {
        started := true;
      }
      depth := depth + Count(line, '{') - Count(line, '}');
      assert lines[..j + 1][j] == line;
      if !started && EndsStatement(line) {
        return j + 1;
      }
      if started && depth <= 0 {
        return j + 1;
      }
      j := j + 1;
    }
    return |lines|;
  }

  lemma DepthEmpty()
    ensures Depth([]) == 0
  {
  }

  lemma DepthSnoc(lines: seq<string>, j: nat)
    requires j < |lines|
    ensures Depth(lines[..j + 1]) == Depth(lines[..j]) + Count(lines[j], '{') - Count(lines[j], '}')
  {
    assert lines[..j + 1][..j] == lines[..j];
  }

  lemma StartedSnoc(lines: seq<string>, j: nat)
    requires j < |lines|
    ensures Started(lines[..j + 1]) <==> Started(lines[..j]) || Opens(lines[j])
  {
    hide Opens;
    assert lines[..j + 1] == lines[..j] + [lines[j]];
    if Started(lines[..j]) {
      var k :| 0 <= k < j && Opens(lines[..j][k]);
      assert Opens(lines[..j + 1][k]);
    }
    if Opens(lines[j]) {
      assert Opens(lines[..j + 1][j]);
    }
  }

  lemma ItemUnique(lines: seq<string>, m: nat, n: nat)
    requires IsItem(lines, m) && IsItem(lines, n)
    ensures m == n
  {
    hide Finished;
  }

  function Blanks(n: nat): (r: seq<string>)
    ensures |r| == n && forall k :: 0 <= k < n ==> r[k] == ""
  {
    seq(n, k => "")
  }

  /** Blanking, read off the text: outside items lines stay, an item becomes empty lines. The
      items split the text from left to right. */
  ghost predicate Blanked(lines: seq<string>, out: seq<string>)
    decreases |lines|
  {
    if lines == [] then out == []
    else if !IsTestMark(lines[0]) then out != [] && out[0] == lines[0] && Blanked(lines[1..], out[1..])
    else
      exists n ::
        0 < n <= |lines| && n <= |out| && IsItem(lines, n) && out[..n] == Blanks(n) && Blanked(lines[n..], out[n..])
  }

  lemma {:induction false} BlankedUnique(lines: seq<string>, x: seq<string>, y: seq<string>)
    requires Blanked(lines, x) && Blanked(lines, y)
    ensures x == y
    decreases |lines|
  {
    hide IsItem, IsTestMark;
    if lines != [] {
      if !IsTestMark(lines[0]) {
        BlankedUnique(lines[1..], x[1..], y[1..]);
        assert x == [x[0]] + x[1..] && y == [y[0]] + y[1..];
      } else {
        var n :| 0 < n <= |lines| && n <= |x| && IsItem(lines, n) && x[..n] == Blanks(n) && Blanked(lines[n..], x[n..]);
        var m :| 0 < m <= |lines| && m <= |y| && IsItem(lines, m) && y[..m] == Blanks(m) && Blanked(lines[m..], y[m..]);
        ItemUnique(lines, n, m);
        BlankedUnique(lines[n..], x[n..], y[n..]);
        assert x == x[..n] + x[n..] && y == y[..n] + y[n..];
      }
    }
  }

  /** Line by line: the count stays, lines only change to empty, and no mark is left. */
  lemma {:induction false} BlankedLines(lines: seq<string>, out: seq<string>)
    requires Blanked(lines, out)
    ensures |out| == |lines|
    ensures forall k :: 0 <= k < |out| ==> (out[k] == lines[k] || out[k] == "") && !IsTestMark(out[k])
    decreases |lines|
  {
    EmptyIsNoMark();
    hide IsItem, IsTestMark;
    if lines != [] {
      if !IsTestMark(lines[0]) {
        BlankedLines(lines[1..], out[1..]);
        assert out == [out[0]] + out[1..] && lines == [lines[0]] + lines[1..];
      } else {
        var n :|
          0 < n <= |lines| && n <= |out| && IsItem(lines, n) && out[..n] == Blanks(n) && Blanked(lines[n..], out[n..]);
        BlankedLines(lines[n..], out[n..]);
        assert out == Blanks(n) + out[n..] && lines == lines[..n] + lines[n..];
      }
    }
  }

  lemma EmptyIsNoMark()
    ensures !IsTestMark("")
  {
  }

  lemma {:induction false} NoMarkNoChange(lines: seq<string>)
    requires forall k :: 0 <= k < |lines| ==> !IsTestMark(lines[k])
    ensures Blanked(lines, lines)
    decreases |lines|
  {
    hide IsTestMark;
    if lines != [] {
      NoMarkNoChange(lines[1..]);
    }
  }

  /** Blanking a blanked text changes nothing. */
  lemma {:induction false} BlankIdempotent(lines: seq<string>, once: seq<string>, twice: seq<string>)
    requires Blanked(lines, once) && Blanked(once, twice)
    ensures twice == once
  {
    hide Blanked, IsTestMark;
    BlankedLines(lines, once);
    NoMarkNoChange(once);
    BlankedUnique(once, once, twice);
  }

  /** Blanking that leaves no item open: what follows is blanked on its own. */
  ghost predicate Settled(lines: seq<string>, out: seq<string>)
    decreases |lines|
  {
    if lines == [] then out == []
    else if !IsTestMark(lines[0]) then out != [] && out[0] == lines[0] && Settled(lines[1..], out[1..])
    else exists n: nat :: SettledItem(lines, out, n) && Settled(lines[n..], out[n..])
  }

  ghost predicate SettledItem(lines: seq<string>, out: seq<string>, n: nat) {
    0 < n <= |lines| && n <= |out| && IsItem(lines, n) && Finished(lines[..n]) && out[..n] == Blanks(n)
  }

  lemma {:induction false} NoMarkSettled(lines: seq<string>)
    requires forall k :: 0 <= k < |lines| ==> !IsTestMark(lines[k])
    ensures Settled(lines, lines)
    decreases |lines|
  {
    hide IsTestMark;
    if lines != [] {
      NoMarkSettled(lines[1..]);
    }
  }

  lemma ItemInFront(lines: seq<string>, n: nat, rest: seq<string>)
    requires IsItem(lines, n) && Finished(lines[..n])
    ensures IsItem(lines + rest, n)
  {
    hide Finished;
    assert forall m :: 0 <= m <= n ==> (lines + rest)[..m] == lines[..m];
  }

  /** Settled text in front, with marked items of its own or without. */
  lemma {:induction false} BlankedBehind(before: seq<string>, done: seq<string>, rest: seq<string>, out: seq<string>)
    requires Settled(before, done) && Blanked(rest, out)
    ensures Blanked(before + rest, done + out)
    decreases |before|
  {
    hide IsTestMark, IsItem, Finished;
    var all, made := before + rest, done + out;
    if before == [] {
      assert all == rest && made == out;
    } else if !IsTestMark(before[0]) {
      assert before[1..] + rest == all[1..] && done[1..] + out == made[1..];
      BlankedBehind(before[1..], done[1..], rest, out);
    } else {
      var n: nat :| SettledItem(before, done, n) && Settled(before[n..], done[n..]);
      assert before[n..] + rest == all[n..] && done[n..] + out == made[n..] && made[..n] == done[..n];
      BlankedBehind(before[n..], done[n..], rest, out);
      ItemInFront(before, n, rest);
    }
  }

  // The loop ---------------------------------------------------------------------

  /** `done` is what blanking gives for the lines in front of `rest`. */
  ghost predicate Prepared(lines: seq<string>, rest: seq<string>, done: seq<string>) {
    forall tail :: Blanked(rest, tail) ==> Blanked(lines, done + tail)
  }

  /** `_blank_cfg_test`: a copy whose items are set to empty in place. */
  method BlankTests(lines: seq<string>) returns (out: seq<string>)
    ensures Blanked(lines, out)
  {
    hide IsItem, IsTestMark, Blanked, Prepared;
    out := lines;
    var i := 0;
    NothingPrepared(lines);
    while i < |lines|
      invariant 0 <= i <= |lines| && |out| == |lines| && out[i..] == lines[i..]
      invariant Prepared(lines, lines[i..], out[..i])
    {
      if !IsTestMark(lines[i]) {
        SkipLine(lines, out, i);
        i := i + 1;
      } else {
        var n := ItemLength(lines[i..]);
        ghost var before := out;
        out := Clear(out, i, i + n);
        SkipItem(lines, before, out, i, n);
        i := i + n;
      }
    }
    AllPrepared(lines, out);
  }

  /** The assignments of "" to the lines of one item. */
  method Clear(lines: seq<string>, i: nat, end: nat) returns (out: seq<string>)
    requires i <= end <= |lines|
    ensures out == lines[..i] + Blanks(end - i) + lines[end..]
  {
    out := lines;
    for k := i to end
      invariant out == lines[..i] + Blanks(k - i) + lines[k..]
    {
      out := out[k := ""];
    }
  }

  lemma NothingPrepared(lines: seq<string>)
    ensures lines[0..] == lines && Prepared(lines, lines[0..], lines[..0])
  {
    hide Blanked;
    assert lines[0..] == lines;
    forall tail | Blanked(lines, tail)
      ensures Blanked(lines, lines[..0] + tail)
    {
      assert lines[..0] + tail == tail;
    }
  }

  lemma {:induction false} AllPrepared(lines: seq<string>, out: seq<string>)
    requires |out| == |lines| && Prepared(lines, lines[|lines|..], out[..|out|])
    ensures Blanked(lines, out)
  {
    hide Blanked;
    assert Blanked([], []) by { NoMarkNoChange([]); }
    assert lines[|lines|..] == [] && out[..|out|] + [] == out;
  }

  lemma SkipLine(lines: seq<string>, out: seq<string>, i: nat)
    requires i < |lines| == |out| && out[i..] == lines[i..] && !IsTestMark(lines[i])
    requires Prepared(lines, lines[i..], out[..i])
    ensures out[i + 1..] == lines[i + 1..] && Prepared(lines, lines[i + 1..], out[..i + 1])
  {
    hide IsTestMark, IsItem;
    var from, rest, done := lines[i..], lines[i + 1..], out[..i];
    assert out[i] == out[i..][0] == lines[i] == from[0];
    assert out[i + 1..] == out[i..][1..] && rest == from[1..];
    forall tail | Blanked(rest, tail)
      ensures Blanked(lines, out[..i + 1] + tail)
    {
      var more := [lines[i]] + tail;
      assert more[1..] == tail;
      assert Blanked(from, more);
      assert done + more == out[..i + 1] + tail;
    }
  }

  lemma SkipItem(lines: seq<string>, before: seq<string>, out: seq<string>, i: nat, n: nat)
    requires i < |lines| == |before| && before[i..] == lines[i..] && IsTestMark(lines[i])
    requires 0 < n <= |lines| - i && IsItem(lines[i..], n)
    requires Prepared(lines, lines[i..], before[..i])
    requires out == before[..i] + Blanks(n) + before[i + n..]
    ensures out[i + n..] == lines[i + n..] && Prepared(lines, lines[i + n..], out[..i + n])
  {
    hide IsTestMark, IsItem;
    var from, rest, done := lines[i..], lines[i + n..], before[..i];
    assert out[i + n..] == before[i..][n..] && rest == from[n..] && from[0] == lines[i];
    forall tail | Blanked(rest, tail)
      ensures Blanked(lines, out[..i + n] + tail)
    {
      var more := Blanks(n) + tail;
      assert from[0] == lines[i];
      ItemThenTail(from, n, tail);
      assert done + more == out[..i + n] + tail;
    }
  }

  lemma ItemThenTail(lines: seq<string>, n: nat, tail: seq<string>)
    requires 0 < n <= |lines| && IsTestMark(lines[0]) && IsItem(lines, n) && Blanked(lines[n..], tail)
    ensures Blanked(lines, Blanks(n) + tail)
  {
    hide IsTestMark, IsItem;
    var r := Blanks(n) + tail;
    assert r[..n] == Blanks(n) && r[n..] == tail;
  }

  // What an item is ------------------------------------------------------------

  /** A braced item as written: its attributes and first words hold no brace and end no
      statement, the body opens on its first line and closes on its last, not before. */
  ghost predicate BracedItem(head: seq<string>, body: seq<string>) {
    && body != [] && Opens(body[0]) && Depth(body) == 0
    && (forall m :: 0 < m < |body| ==> Depth(body[..m]) > 0)
    && forall k :: 0 <= k < |head| ==> PlainHead(head[k])
  }

  predicate PlainHead(line: string) {
    !Opens(line) && Count(line, '}') == 0 && !EndsStatement(line)
  }

  lemma {:induction false} CountAbsent(s: string, c: char)
    ensures c in s <==> Count(s, c) > 0
    decreases |s|
  {
    if s != "" {
      CountAbsent(s[..|s| - 1], c);
      assert s == s[..|s| - 1] + [s[|s| - 1]];
    }
  }

  lemma {:induction false} DepthAppend(a: seq<string>, b: seq<string>)
    ensures Depth(a + b) == Depth(a) + Depth(b)
    decreases |b|
  {
    hide Count;
    if b == [] {
      assert a + b == a;
    } else {
      var init := b[..|b| - 1];
      DepthAppend(a, init);
      assert (a + b)[..|a + b| - 1] == a + init;
    }
  }

  lemma {:induction false} HeadDepth(head: seq<string>)
    requires forall k :: 0 <= k < |head| ==> PlainHead(head[k])
    ensures Depth(head) == 0
    decreases |head|
  {
    hide Count, EndsStatement;
    if head != [] {
      HeadDepth(head[..|head| - 1]);
      CountAbsent(head[|head| - 1], '{');
    }
  }

  lemma PrefixUnfinished(head: seq<string>, body: seq<string>, m: nat)
    requires BracedItem(head, body) && m < |head| + |body|
    ensures !Finished((head + body)[..m])
  {
    hide Depth, Opens, EndsStatement, Count;
    var p := (head + body)[..m];
    if m <= |head| {
      assert p == head[..m];
      forall k | 0 <= k < m
        ensures !Opens(p[k])
      {
        assert PlainHead(head[k]);
      }
      assert m > 0 ==> PlainHead(head[m - 1]);
    } else {
      assert p == head + body[..m - |head|];
      HeadDepth(head);
      DepthAppend(head, body[..m - |head|]);
      assert Opens(p[|head|]);
    }
  }

  /** A braced item behind a mark is the item that blanking finds, whatever follows. */
  lemma BracedIsItem(head: seq<string>, body: seq<string>, rest: seq<string>)
    requires BracedItem(head, body)
    ensures IsItem(head + body + rest, |head| + |body|)
  {
    hide Depth, Opens, EndsStatement, Finished;
    var all, item := head + body + rest, head + body;
    forall m | 0 <= m < |item|
      ensures !Finished(all[..m])
    {
      assert all[..m] == item[..m];
      PrefixUnfinished(head, body, m);
    }
    assert all[..|item|] == item;
    WholeFinished(head, body);
  }

  lemma WholeFinished(head: seq<string>, body: seq<string>)
    requires BracedItem(head, body)
    ensures Finished(head + body)
  {
    hide Depth, Opens, EndsStatement;
    HeadDepth(head);
    DepthAppend(head, body);
    assert Opens((head + body)[|head|]);
  }

  /** In a file, behind any settled text, a marked braced item becomes empty lines and what
      follows is treated as if it stood alone. */
  lemma BracedItemBlanked(
    before: seq<string>, done: seq<string>, head: seq<string>, body: seq<string>, item: seq<string>,
    rest: seq<string>, out: seq<string>)
    requires Settled(before, done)
    requires BracedItem(head, body) && item == head + body && IsTestMark(item[0])
    requires Blanked(rest, out)
    ensures Blanked(before + (item + rest), done + (Blanks(|item|) + out))
  {
    hide IsTestMark, IsItem, Blanked, Settled, Depth, Opens, PlainHead;
    BracedIsItem(head, body, rest);
    MarkedItemBlanked(before, done, item, rest, out);
  }

  lemma MarkedItemBlanked(
    before: seq<string>, done: seq<string>, item: seq<string>, rest: seq<string>, out: seq<string>)
    requires Settled(before, done)
    requires item != [] && IsTestMark(item[0]) && IsItem(item + rest, |item|) && Blanked(rest, out)
    ensures Blanked(before + (item + rest), done + (Blanks(|item|) + out))
  {
    hide IsTestMark, IsItem, Blanked, Settled;
    assert (item + rest)[|item|..] == rest;
    ItemThenTail(item + rest, |item|, out);
    BlankedBehind(before, done, item + rest, Blanks(|item|) + out);
  }

  /** A marked statement as written, such as a `use` line: no brace, and the first line that
      ends in `;` is the last. */
  ghost predicate StatementItem(head: seq<string>, last: string) {
    && (forall k :: 0 <= k < |head| ==> PlainHead(head[k]))
    && !Opens(last) && Count(last, '}') == 0 && EndsStatement(last)
  }

  lemma StatementBlanked(
    before: seq<string>, done: seq<string>, head: seq<string>, last: string, item: seq<string>,
    rest: seq<string>, out: seq<string>)
    requires Settled(before, done)
    requires StatementItem(head, last) && item == head + [last] && IsTestMark(item[0]) && Blanked(rest, out)
    ensures Blanked(before + (item + rest), done + (Blanks(|item|) + out))
  {
    hide IsTestMark, Blanked, Settled, IsItem, StatementItem;
    StatementIsItem(head, last, rest);
    MarkedItemBlanked(before, done, item, rest, out);
  }

  lemma StatementIsItem(head: seq<string>, last: string, rest: seq<string>)
    requires StatementItem(head, last)
    ensures IsItem(head + [last] + rest, |head| + 1)
  {
    hide Depth, Opens, EndsStatement, Count;
    var item := head + [last];
    var all := item + rest;
    forall m | 0 <= m < |item|
      ensures !Finished(all[..m])
    {
      assert forall k :: 0 <= k < m ==> all[..m][k] == head[k] && PlainHead(head[k]);
    }
    assert all[..|item|] == item;
    assert forall k :: 0 <= k < |head| ==> item[k] == head[k] && PlainHead(head[k]);
    assert item[|head|] == last;
    assert Finished(item);
  }

  /** Braces open before they close and all close again. */
  ghost predicate Balanced(lines: seq<string>) {
    Depth(lines) == 0 && forall m :: 0 <= m <= |lines| ==> Depth(lines[..m]) >= 0
  }

  /** Lines of heads only: an item that does not come before the text ends. */
  ghost predicate HeadsOnly(lines: seq<string>) {
    forall k :: 0 <= k < |lines| ==> PlainHead(lines[k])
  }

  /** What stands behind a mark is a braced item, a statement, or nothing but heads. */
  ghost predicate WellMarked(lines: seq<string>) {
    || (exists h, n :: 0 <= h < n <= |lines| && BracedItem(lines[..h], lines[h..n]))
    || (exists n :: 0 <= n < |lines| && StatementItem(lines[..n], lines[n]))
    || HeadsOnly(lines)
  }

  lemma {:induction false} NotStartedDepth(lines: seq<string>)
    requires !Started(lines)
    ensures Depth(lines) <= 0
    ensures Depth(lines) == 0 <==> forall k :: 0 <= k < |lines| ==> Count(lines[k], '}') == 0
    decreases |lines|
  {
    hide Opens, Count;
    if lines != [] {
      var init, last := lines[..|lines| - 1], lines[|lines| - 1];
      assert forall k :: 0 <= k < |init| ==> init[k] == lines[k];
      NotStartedDepth(init);
      NotOpening(last);
      assert lines == init + [last];
    }
  }

  lemma NotOpening(line: string)
    requires !Opens(line)
    ensures Count(line, '{') == 0
  {
    CountAbsent(line, '{');
  }

  /** Lines in front of the item's end that open nothing and close nothing are heads. */
  lemma QuietLines(lines: seq<string>, h: nat, n: nat)
    requires IsItem(lines, n) && h <= n && (h == n ==> !Finished(lines[..n]))
    requires !Started(lines[..h]) && Depth(lines[..h]) >= 0
    ensures HeadsOnly(lines[..h])
  {
    hide Depth, Opens, Count, EndsStatement;
    NotStartedDepth(lines[..h]);
    forall k | 0 <= k < h
      ensures PlainHead(lines[..h][k])
    {
      assert !Finished(lines[..k + 1]);
      assert lines[..h][k] == lines[k] == lines[..k + 1][k];
      assert forall j :: 0 <= j <= k ==> lines[..k + 1][j] == lines[..h][j];
    }
  }

  /** The first line that opens a brace. */
  lemma FirstOpening(lines: seq<string>) returns (h: nat)
    requires Started(lines)
    ensures h < |lines| && Opens(lines[h]) && !Started(lines[..h])
  {
    hide Opens;
    h := 0;
    while !Opens(lines[h])
      invariant h < |lines| && forall k :: 0 <= k < h ==> !Opens(lines[k])
      invariant exists k :: h <= k < |lines| && Opens(lines[k])
      decreases |lines| - h
    {
      h := h + 1;
    }
  }

  lemma BalancedBraced(lines: seq<string>, n: nat)
    requires IsItem(lines, n) && Balanced(lines[..n]) && Started(lines[..n])
    ensures WellMarked(lines)
  {
    hide Depth, Opens, Count, EndsStatement, Started;
    var h := FirstOpening(lines[..n]);
    var head, body := lines[..h], lines[h..n];
    assert lines[..n][..h] == head;
    QuietLines(lines, h, n);
    HeadDepth(head);
    assert lines[..n] == head + body;
    DepthAppend(head, body);
    forall m | 0 < m < |body|
      ensures Depth(body[..m]) > 0
    {
      assert lines[..h + m] == head + body[..m];
      DepthAppend(head, body[..m]);
      OpenedStarts(lines[..h + m], h);
      assert !Finished(lines[..h + m]);
    }
    assert BracedItem(head, body);
  }

  lemma OpenedStarts(lines: seq<string>, h: nat)
    requires h < |lines| && Opens(lines[h])
    ensures Started(lines)
  {
  }

  lemma BalancedQuiet(lines: seq<string>, n: nat)
    requires IsItem(lines, n) && Balanced(lines[..n]) && !Started(lines[..n])
    ensures WellMarked(lines)
  {
    hide Depth, Opens, Count, EndsStatement, BracedItem;
    NotStartedDepth(lines[..n]);
    if Finished(lines[..n]) {
      var head, last := lines[..n - 1], lines[n - 1];
      assert forall k :: 0 <= k < n - 1 ==> head[k] == lines[..n][k];
      assert lines[..n][..n - 1] == head && lines[..n][n - 1] == last;
      QuietLines(lines, n - 1, n);
      assert StatementItem(head, last);
    } else {
      QuietLines(lines, n, n);
      assert lines[..n] == lines;
    }
  }

  lemma {:induction false} HeadsItem(lines: seq<string>)
    requires HeadsOnly(lines)
    ensures IsItem(lines, |lines|) && Balanced(lines)
  {
    hide Depth, Opens, Count, EndsStatement;
    forall m | 0 <= m <= |lines|
      ensures Depth(lines[..m]) == 0 && !Finished(lines[..m])
    {
      var p := lines[..m];
      assert forall k :: 0 <= k < m ==> p[k] == lines[k] && PlainHead(lines[k]);
      HeadDepth(p);
    }
    assert lines[..|lines|] == lines;
  }

  lemma {:induction false} BracedBalanced(head: seq<string>, body: seq<string>)
    requires BracedItem(head, body)
    ensures Balanced(head + body)
  {
    hide Depth, Opens, PlainHead;
    var item := head + body;
    HeadDepth(head);
    forall m | 0 <= m <= |item|
      ensures Depth(item[..m]) >= 0
    {
      if m <= |head| {
        assert item[..m] == head[..m];
        HeadDepth(head[..m]);
      } else {
        var b := body[..m - |head|];
        assert item[..m] == head + b;
        DepthAppend(head, b);
        assert m == |item| ==> b == body;
      }
    }
    assert item[..|item|] == item;
    DepthAppend(head, body);
  }

  lemma StatementBalanced(head: seq<string>, last: string)
    requires StatementItem(head, last)
    ensures Balanced(head + [last])
  {
    hide Depth, Opens, Count, EndsStatement;
    var item := head + [last];
    HeadDepth(head);
    NotOpening(last);
    DepthSnoc(item, |head|);
    assert item[..|head|] == head && item[..|item|] == item;
    forall m | 0 <= m <= |head|
      ensures Depth(item[..m]) == 0
    {
      assert item[..m] == head[..m];
      HeadDepth(head[..m]);
    }
  }

  /** The stretch that is blanked is brace-balanced exactly when what stands behind the mark is
      a braced item, a statement, or nothing but heads up to the end of the text. */
  lemma ItemBalanced(lines: seq<string>, n: nat)
    requires n <= |lines| && IsItem(lines, n)
    ensures Balanced(lines[..n]) <==> WellMarked(lines)
  {
    hide Balanced, IsItem, BracedItem, StatementItem, HeadsOnly, Started;
    if Balanced(lines[..n]) {
      if Started(lines[..n]) {
        BalancedBraced(lines, n);
      } else {
        BalancedQuiet(lines, n);
      }
    }
    if h, m :| 0 <= h < m <= |lines| && BracedItem(lines[..h], lines[h..m]) {
      assert lines == lines[..h] + lines[h..m] + lines[m..];
      BracedIsItem(lines[..h], lines[h..m], lines[m..]);
      BracedBalanced(lines[..h], lines[h..m]);
      ItemUnique(lines, n, m);
      assert lines[..n] == lines[..h] + lines[h..m];
    } else if m :| 0 <= m < |lines| && StatementItem(lines[..m], lines[m]) {
      assert lines == lines[..m] + [lines[m]] + lines[m + 1..];
      StatementIsItem(lines[..m], lines[m], lines[m + 1..]);
      StatementBalanced(lines[..m], lines[m]);
      ItemUnique(lines, n, m + 1);
      assert lines[..n] == lines[..m] + [lines[m]];
    } else if HeadsOnly(lines) {
      HeadsItem(lines);
      ItemUnique(lines, n, |lines|);
      assert lines[..n] == lines;
    }
  }

  /** It is not always so: a marked field is taken for the start of an item, and blanking runs
      on through the closing brace of its struct into the next item. */
  lemma MarkedFieldOverruns()
    ensures var file := ["struct A {", "#[cfg(test)]", "n: u32,", "}", "impl A {", "}"];
            && Blanked(file, ["struct A {", "", "", "", "", "}"])
            && IsItem(file[1..], 4) && !Balanced(file[1..][..4]) && !WellMarked(file[1..])
  {
    Marks();
    hide IsTestMark, IsItem, Balanced, Blanked, WellMarked, Count, Opens, EndsStatement;
    Braces();
    var a, b, c, d, e := "#[cfg(test)]", "n: u32,", "}", "impl A {", "struct A {";
    OverrunFile(a, b, c, d, e, [a, b, c, d, c], [e, a, b, c, d, c]);
  }

  lemma Marks()
    ensures IsTestMark("#[cfg(test)]") && !IsTestMark("}") && !IsTestMark("struct A {")
  {
  }

  lemma {:induction false} OverrunFile(
    a: string, b: string, c: string, d: string, e: string, lines: seq<string>, file: seq<string>)
    requires lines == [a, b, c, d, c] && file == [e, a, b, c, d, c]
    requires IsTestMark(a) && !IsTestMark(c) && !IsTestMark(e)
    requires Count(a, '{') == Count(a, '}') == Count(b, '{') == Count(b, '}') == Count(c, '{') == Count(d, '}') == 0
    requires Count(c, '}') == Count(d, '{') == 1
    requires !Opens(a) && !Opens(b) && !Opens(c) && Opens(d)
    requires !EndsStatement(a) && !EndsStatement(b) && !EndsStatement(c)
    ensures Blanked(file, [e, "", "", "", "", c])
    ensures file[1..] == lines && IsItem(lines, 4) && !Balanced(lines[..4]) && !WellMarked(lines)
  {
    hide IsTestMark, IsItem, Balanced, Blanked, Blanks, WellMarked, Settled, Count, Opens, EndsStatement;
    Overrun(a, b, c, d, lines);
    assert lines[4..] == [c] && file[1..] == lines;
    NoMarkNoChange([c]);
    ItemThenTail(lines, 4, [c]);
    FourBlanks(c);
    ItemBalanced(lines, 4);
    NoMarkSettled([e]);
    BlankedBehind([e], [e], lines, ["", "", "", "", c]);
    assert [e] + lines == file && [e] + ["", "", "", "", c] == [e, "", "", "", "", c];
  }

  lemma FourBlanks(c: string)
    ensures Blanks(4) + [c] == ["", "", "", "", c]
  {
  }

  lemma {:induction false} Overrun(a: string, b: string, c: string, d: string, lines: seq<string>)
    requires lines == [a, b, c, d, c]
    requires Count(a, '{') == Count(a, '}') == Count(b, '{') == Count(b, '}') == Count(c, '{') == Count(d, '}') == 0
    requires Count(c, '}') == Count(d, '{') == 1
    requires !Opens(a) && !Opens(b) && !Opens(c) && Opens(d)
    requires !EndsStatement(a) && !EndsStatement(b) && !EndsStatement(c)
    ensures IsItem(lines, 4) && !Balanced(lines[..4])
  {
    hide Count, EndsStatement, Opens, Depth;
    assert lines[..0] == [];
    DepthEmpty();
    DepthSnoc(lines, 0);
    DepthSnoc(lines, 1);
    DepthSnoc(lines, 2);
    DepthSnoc(lines, 3);
    assert Depth(lines[..3]) == -1 && Depth(lines[..4]) == 0;
    assert lines[..4][..3] == lines[..3];
    assert Opens(lines[..4][3]);
  }

  lemma Braces()
    ensures Count("#[cfg(test)]", '{') == Count("#[cfg(test)]", '}') == 0
    ensures Count("n: u32,", '{') == Count("n: u32,", '}') == 0
    ensures Count("}", '{') == 0 && Count("}", '}') == 1
    ensures Count("impl A {", '{') == 1 && Count("impl A {", '}') == 0
    ensures !Opens("#[cfg(test)]") && !Opens("n: u32,") && !Opens("}") && Opens("impl A {")
    ensures !EndsStatement("#[cfg(test)]") && !EndsStatement("n: u32,") && !EndsStatement("}")
  {
    CountAbsent("#[cfg(test)]", '{');
    CountAbsent("#[cfg(test)]", '}');
    CountAbsent("n: u32,", '{');
    CountAbsent("n: u32,", '}');
    CountAbsent("impl A ", '{');
    CountAbsent("impl A {", '}');
    assert "impl A {"[..7] == "impl A ";
    assert "impl A {"[7] == '{';
    assert "}"[..0] == "";
  }
}
