/** The text side of `prune_lockfile` in scripts/bench-cargo-debug.py: cutting the lockfile into
    package records, refusing what it does not understand, and writing back the records that
    stay, byte for byte. What a record says is the TOML parser's business and taken as given. */
module LockfileText {
  import opened PythonText
  import opened Lockfile

  /** What the TOML parser makes of one record. */
  type Parser = seq<string> -> Package

  /** `^\[\[package\]\]\s*$` */
  predicate IsStart(line: string) {
    StripRight(line) == "[[package]]"
  }

  /** `^\[(?!\[)`: a table that is no list element. */
  predicate IsTable(line: string) {
    line != "" && line[0] == '[' && (|line| == 1 || line[1] != '[')
  }

  /** White space may follow, and only behind. */
  lemma StartExact(line: string)
    ensures IsStart(line) <==> "[[package]]" <= line && forall i :: 11 <= i < |line| ==> IsSpace(line[i])
  {
    hide IsSpace, StripRight;
    var k := StripRightExact(line);
    LastBracket();
    if "[[package]]" <= line {
      assert line[10] == ']' && k >= 11;
    }
  }

  lemma LastBracket()
    ensures !IsSpace(']')
  {
  }

  /** The lines up to the first start of a record. */
  function HeaderOf(lines: seq<string>): (h: seq<string>)
    ensures |h| <= |lines|
  {
    if lines == [] || IsStart(lines[0]) then [] else [lines[0]] + HeaderOf(lines[1..])
  }

  /** The records, each from its start up to the next. */
  function ChunksOf(lines: seq<string>): (cs: seq<seq<string>>)
    decreases |lines|
  {
    if lines == [] then []
    else if !IsStart(lines[0]) then ChunksOf(lines[1..])
    else
      var body := HeaderOf(lines[1..]);
      [[lines[0]] + body] + ChunksOf(lines[1 + |body|..])
  }

  function Flatten(cs: seq<seq<string>>): (lines: seq<string>) {
    if cs == [] then [] else cs[0] + Flatten(cs[1..])
  }

  function Parsed(cs: seq<seq<string>>, parse: Parser): (ps: seq<Package>)
    ensures |ps| == |cs| && forall k :: 0 <= k < |ps| ==> ps[k] == parse(cs[k])
  {
    seq(|cs|, k requires 0 <= k < |cs| => parse(cs[k]))
  }

  /** The records whose package is reachable. */
  function KeptChunks(cs: seq<seq<string>>, parse: Parser, r: set<Key>): (kept: seq<seq<string>>) {
    if cs == [] then []
    else
      var last := cs[|cs| - 1];
      KeptChunks(cs[..|cs| - 1], parse, r) + if parse(last).key in r then [last] else []
  }

  ghost predicate Supported(lines: seq<string>) {
    && ChunksOf(lines) != []
    && forall c, l :: c in ChunksOf(lines) && l in c ==> !IsTable(l)
  }

  // ---------------------------------------------------------------------------
  // Cutting and joining
  // ---------------------------------------------------------------------------

  ghost predicate IsHeader(h: seq<string>) {
    forall k :: 0 <= k < |h| ==> !IsStart(h[k])
  }

  ghost predicate IsChunk(c: seq<string>) {
    c != [] && IsStart(c[0]) && IsHeader(c[1..])
  }

  ghost predicate AllChunks(cs: seq<seq<string>>) {
    forall k :: 0 <= k < |cs| ==> IsChunk(cs[k])
  }

  lemma {:induction false} HeaderExact(lines: seq<string>)
    ensures var h := HeaderOf(lines);
            IsHeader(h) && h == lines[..|h|] && (|h| < |lines| ==> IsStart(lines[|h|]))
    decreases |lines|
  {
    hide IsStart;
    if lines != [] && !IsStart(lines[0]) {
      HeaderExact(lines[1..]);
    }
  }

  /** Nothing is lost by cutting. */
  lemma {:induction false} CutExact(lines: seq<string>)
    ensures AllChunks(ChunksOf(lines)) && lines == HeaderOf(lines) + Flatten(ChunksOf(lines))
    decreases |lines|
  {
    hide IsStart, HeaderOf, ChunksOf, Flatten;
    if lines == [] {
      NoLines();
    } else if !IsStart(lines[0]) {
      CutExact(lines[1..]);
      SkipHeaderLine(lines);
      assert lines == [lines[0]] + lines[1..];
    } else {
      var body := HeaderOf(lines[1..]);
      var rest := lines[1 + |body|..];
      HeaderExact(lines[1..]);
      CutExact(rest);
      FirstChunk(lines, body, rest);
      NoHeader(rest);
      FlattenFirst([lines[0]] + body, ChunksOf(rest));
      assert ([lines[0]] + body)[1..] == body;
      assert lines == [lines[0]] + body + rest;
    }
  }

  /** What is refused: no record at all, or from the first record on a line that begins with
      one bracket only. */
  lemma SupportedExact(lines: seq<string>)
    ensures Supported(lines) <==>
            && |HeaderOf(lines)| < |lines|
            && forall j :: |HeaderOf(lines)| <= j < |lines| ==>
                 !(lines[j] != "" && lines[j][0] == '[' && (|lines[j]| == 1 || lines[j][1] != '['))
  {
    hide HeaderOf, ChunksOf, IsChunk;
    CutExact(lines);
    var h, cs := HeaderOf(lines), ChunksOf(lines);
    FlattenMembers(cs);
    var rest := Flatten(cs);
    assert forall j :: |h| <= j < |lines| ==> lines[j] == rest[j - |h|];
    assert forall i :: 0 <= i < |rest| ==> rest[i] in rest && rest[i] == lines[|h| + i];
    if cs != [] {
      assert IsChunk(cs[0]);
      ChunkSize(cs[0]);
      assert cs[0][0] in cs[0];
    }
    if Supported(lines) {
      forall j | |h| <= j < |lines|
        ensures !IsTable(lines[j])
      {
        assert lines[j] in rest;
      }
    } else if |h| < |lines| {
      var c, l :| c in cs && l in c && IsTable(l);
      assert l in rest;
      var i :| 0 <= i < |rest| && rest[i] == l;
      assert IsTable(lines[|h| + i]);
    }
  }

  lemma ChunkSize(c: seq<string>)
    requires IsChunk(c)
    ensures c != []
  {
  }

  lemma {:induction false} FlattenMembers(cs: seq<seq<string>>)
    ensures forall l :: l in Flatten(cs) <==> exists c :: c in cs && l in c
    decreases |cs|
  {
    if cs != [] {
      FlattenMembers(cs[1..]);
      assert cs == [cs[0]] + cs[1..];
    }
  }

  lemma NoLines()
    ensures HeaderOf([]) == [] && ChunksOf([]) == [] && Flatten([]) == []
  {
  }

  lemma SkipHeaderLine(lines: seq<string>)
    requires lines != [] && !IsStart(lines[0])
    ensures HeaderOf(lines) == [lines[0]] + HeaderOf(lines[1..]) && ChunksOf(lines) == ChunksOf(lines[1..])
  {
    hide IsStart;
  }

  lemma FirstChunk(lines: seq<string>, body: seq<string>, rest: seq<string>)
    requires lines != [] && IsStart(lines[0]) && body == HeaderOf(lines[1..]) && rest == lines[1 + |body|..]
    ensures HeaderOf(lines) == [] && ChunksOf(lines) == [[lines[0]] + body] + ChunksOf(rest)
  {
    hide IsStart;
  }

  lemma FlattenFirst(c: seq<string>, cs: seq<seq<string>>)
    ensures Flatten([c] + cs) == c + Flatten(cs)
  {
    assert ([c] + cs)[1..] == cs;
  }

  lemma NoHeader(lines: seq<string>)
    requires lines != [] ==> IsStart(lines[0])
    ensures HeaderOf(lines) == []
  {
    hide IsStart;
  }

  lemma {:induction false} HeaderInFront(h: seq<string>, rest: seq<string>)
    requires IsHeader(h) && (rest != [] ==> IsStart(rest[0]))
    ensures HeaderOf(h + rest) == h && ChunksOf(h + rest) == ChunksOf(rest)
    decreases |h|
  {
    hide IsStart;
    if h == [] {
      assert h + rest == rest;
    } else {
      assert (h + rest)[1..] == h[1..] + rest;
      HeaderInFront(h[1..], rest);
    }
  }

  /** A header and records put together are cut into the same header and records. */
  lemma {:induction false} CutJoined(h: seq<string>, cs: seq<seq<string>>)
    requires IsHeader(h) && AllChunks(cs)
    ensures HeaderOf(h + Flatten(cs)) == h && ChunksOf(h + Flatten(cs)) == cs
    decreases |cs|
  {
    hide IsStart;
    var rest := Flatten(cs);
    if cs == [] {
      HeaderInFront(h, []);
    } else {
      var c, more := cs[0], Flatten(cs[1..]);
      assert IsChunk(c) && rest == [c[0]] + (c[1..] + more);
      CutJoined(c[1..], cs[1..]);
      HeaderInFront(h, rest);
      assert rest[1..] == c[1..] + more && rest[1 + |c[1..]|..] == more;
      CutJoined([], cs[1..]);
      assert [] + more == more;
      assert [c[0]] + c[1..] == c && cs == [c] + cs[1..];
    }
  }

  // ---------------------------------------------------------------------------
  // Keeping records
  // ---------------------------------------------------------------------------

  /** Keeping records is filtering their packages. */
  lemma {:induction false} KeptIsFilter(cs: seq<seq<string>>, parse: Parser, r: set<Key>)
    ensures Parsed(KeptChunks(cs, parse, r), parse) == Filter(Parsed(cs, parse), r)
    ensures forall c :: c in KeptChunks(cs, parse, r) ==> c in cs
    decreases |cs|
  {
    if cs != [] {
      var init, last := cs[..|cs| - 1], cs[|cs| - 1];
      KeptIsFilter(init, parse, r);
      var ps := Parsed(cs, parse);
      assert ps[..|ps| - 1] == Parsed(init, parse);
      var kept := KeptChunks(init, parse, r);
      assert Parsed(kept + [last], parse) == Parsed(kept, parse) + [parse(last)];
      assert kept + [] == kept;
    }
  }

  datatype Result = Written(lines: seq<string>) | UnsupportedText | Refused(why: Pruned)

  /** `prune_lockfile` on the text. */
  method PruneText(lines: seq<string>, parse: Parser) returns (r: Result, closure: set<Key>)
    ensures r.UnsupportedText? <==> !Supported(lines)
    ensures r.Written? <==> Supported(lines) && Prunable(Parsed(ChunksOf(lines), parse))
    ensures r.Written? ==>
              && IsClosure(Parsed(ChunksOf(lines), parse), Roots(Parsed(ChunksOf(lines), parse))[0], closure)
              && r.lines == HeaderOf(lines) + Flatten(KeptChunks(ChunksOf(lines), parse, closure))
    ensures r.Refused? ==> !r.why.Kept?
  {
    hide ChunksOf, HeaderOf, Flatten, KeptChunks, Closed, Filter, Prunable;
    closure := {};
    var chunks := ChunksOf(lines);
    if chunks == [] || exists c, l :: c in chunks && l in c && IsTable(l) {
      return UnsupportedText, closure;
    }
    var packages := Parsed(chunks, parse);
    var pruned;
    pruned, closure := Prune(packages);
    if !pruned.Kept? {
      return Refused(pruned), closure;
    }
    return Written(HeaderOf(lines) + Flatten(KeptChunks(chunks, parse, closure))), closure;
  }

  /** What was written reads back as the kept records under the same header, so the packages
      of the pruned text are the filtered ones, and the text is supported again. */
  lemma PrunedReadsBack(lines: seq<string>, parse: Parser, root: Key, closure: set<Key>, out: seq<string>)
    requires Supported(lines) && IsClosure(Parsed(ChunksOf(lines), parse), root, closure)
    requires out == HeaderOf(lines) + Flatten(KeptChunks(ChunksOf(lines), parse, closure))
    ensures HeaderOf(out) == HeaderOf(lines) && Supported(out)
    ensures Parsed(ChunksOf(out), parse) == Filter(Parsed(ChunksOf(lines), parse), closure)
  {
    hide ChunksOf, HeaderOf, Flatten, KeptChunks, Filter, IsTable, IsChunk;
    var cs := ChunksOf(lines);
    var kept := KeptChunks(cs, parse, closure);
    CutExact(lines);
    HeaderExact(lines);
    KeptIsFilter(cs, parse, closure);
    forall k | 0 <= k < |kept|
      ensures IsChunk(kept[k])
    {
      assert kept[k] in kept;
      assert kept[k] in cs;
    }
    CutJoined(HeaderOf(lines), kept);
    FilterExact(Parsed(cs, parse), closure);
    SomeKept(Parsed(cs, parse), root, closure);
  }

  lemma SomeKept(ps: seq<Package>, root: Key, closure: set<Key>)
    requires IsClosure(ps, root, closure)
    ensures Filter(ps, closure) != []
  {
    hide Filter, Resolve;
    FilterExact(ps, closure);
    assert root in KeysOf(ps) * closure;
    assert root in KeysOf(Filter(ps, closure));
  }

  lemma {:induction false} KeptAgain(cs: seq<seq<string>>, parse: Parser, r: set<Key>)
    ensures KeptChunks(KeptChunks(cs, parse, r), parse, r) == KeptChunks(cs, parse, r)
    decreases |cs|
  {
    if cs != [] {
      var init, last := cs[..|cs| - 1], cs[|cs| - 1];
      KeptAgain(init, parse, r);
      var kept := KeptChunks(init, parse, r);
      if parse(last).key in r {
        assert (kept + [last])[..|kept|] == kept;
      } else {
        assert kept + [] == kept;
      }
    }
  }

  /** Pruning the pruned text writes it again. */
  lemma PruneTextIdempotent(lines: seq<string>, parse: Parser, root: Key, closure: set<Key>, out: seq<string>)
    requires Supported(lines) && IsClosure(Parsed(ChunksOf(lines), parse), root, closure)
    requires out == HeaderOf(lines) + Flatten(KeptChunks(ChunksOf(lines), parse, closure))
    ensures IsClosure(Parsed(ChunksOf(out), parse), root, closure)
    ensures HeaderOf(out) + Flatten(KeptChunks(ChunksOf(out), parse, closure)) == out
  {
    hide ChunksOf, HeaderOf, Flatten, KeptChunks, Filter, IsChunk, Supported, IsClosure, IsStart;
    var cs := ChunksOf(lines);
    PrunedReadsBack(lines, parse, root, closure, out);
    PruneIdempotent(Parsed(cs, parse), root, closure);
    KeptAgain(cs, parse, closure);
    CutExact(lines);
    HeaderExact(lines);
    KeptIsFilter(cs, parse, closure);
    var kept := KeptChunks(cs, parse, closure);
    forall k | 0 <= k < |kept|
      ensures IsChunk(kept[k])
    {
      assert kept[k] in kept;
      assert kept[k] in cs;
    }
    CutJoined(HeaderOf(lines), kept);
  }
}
