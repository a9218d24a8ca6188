/** The canonical byte stream `postingsOf` in fixtures/bwc/BwcDump.java feeds to its hash:
    L(x) is eight little-endian bytes, B(b) a length and the bytes.

    With statistics the stream determines the postings it was made from. Without them it
    does so only where every term has exactly one posting, which is how term vectors use it. */
module PostingsStream {
  import opened Common
  import opened VarInt
  import opened Fnv

  datatype Position = Position(pos: int, start: int, end: int, payload: Option<seq<Byte>>)

  datatype Posting = Posting(doc: int, freq: int, positions: seq<Position>)

  datatype TermEntry = TermEntry(term: seq<Byte>, docFreq: int, totalTermFreq: int, postings: seq<Posting>)

  /** What the field records: `pos`, `off` and `payloads` of the source. */
  datatype Options = Options(positions: bool, offsets: bool, payloads: bool)

  // ---------------------------------------------------------------------------
  // The stream
  // ---------------------------------------------------------------------------

  function L(v: int): (bytes: seq<Byte>)
    ensures |bytes| == 8
  {
    LongBytes(v, 8)
  }

  function B(b: seq<Byte>): seq<Byte> {
    L(|b|) + b
  }

  function PayloadBytes(p: Option<seq<Byte>>): seq<Byte> {
    match p
    case None => L(-1)
    case Some(b) => B(b)
  }

  function PositionBytes(p: Position, o: Options): seq<Byte> {
    L(p.pos)
    + (if o.offsets then L(p.start) + L(p.end) else [])
    + (if o.payloads then PayloadBytes(p.payload) else [])
  }

  function PositionsBytes(ps: seq<Position>, o: Options): seq<Byte> {
    if ps == [] then [] else PositionBytes(ps[0], o) + PositionsBytes(ps[1..], o)
  }

  function PostingBytes(p: Posting, o: Options, stats: bool): seq<Byte> {
    (if stats then L(p.doc) else []) + L(p.freq) + (if o.positions then PositionsBytes(p.positions, o) else [])
  }

  function PostingsBytes(ps: seq<Posting>, o: Options, stats: bool): seq<Byte> {
    if ps == [] then [] else PostingBytes(ps[0], o, stats) + PostingsBytes(ps[1..], o, stats)
  }

  function TermBytes(t: TermEntry, o: Options, stats: bool): seq<Byte> {
    B(t.term) + (if stats then L(t.docFreq) + L(t.totalTermFreq) else []) + PostingsBytes(t.postings, o, stats)
  }

  function Stream(ts: seq<TermEntry>, o: Options, stats: bool): seq<Byte> {
    if ts == [] then [] else TermBytes(ts[0], o, stats) + Stream(ts[1..], o, stats)
  }

  // ---------------------------------------------------------------------------
  // The writer
  // ---------------------------------------------------------------------------

  method WritePosition(p: Position, o: Options, f: Hasher)
    requires f.Valid()
    modifies f
    ensures f.Valid() && f.stream == old(f.stream) + PositionBytes(p, o)
  {
    hide LongBytes, Digest;
    f.Long(p.pos);
    if o.offsets {
      f.Long(p.start);
      f.Long(p.end);
    }
    if o.payloads {
      if p.payload.None? {
        f.Long(-1);
      } else {
        f.Block(p.payload.value);
      }
    }
  }

  method WritePosting(p: Posting, o: Options, stats: bool, f: Hasher)
    requires f.Valid()
    requires o.positions ==> p.freq == |p.positions|
    modifies f
    ensures f.Valid() && f.stream == old(f.stream) + PostingBytes(p, o, stats)
  {
    hide LongBytes, Digest;
    if stats {
      f.Long(p.doc);
    }
    f.Long(p.freq);
    if !o.positions {
      return;
    }
    ghost var goal := f.stream + PositionsBytes(p.positions, o);
    for k := 0 to p.freq
      invariant f.Valid() && f.stream + PositionsBytes(p.positions[k..], o) == goal
    {
      ghost var before, rest := f.stream, PositionsBytes(p.positions[k + 1..], o);
      assert p.positions[k..][1..] == p.positions[k + 1..];
      assert before + (PositionBytes(p.positions[k], o) + rest) == goal;
      WritePosition(p.positions[k], o, f);
      assert f.stream + rest == before + (PositionBytes(p.positions[k], o) + rest);
    }
    assert f.stream + [] == f.stream;
  }

  ghost predicate FreqsMatch(ps: seq<Posting>, o: Options) {
    forall j :: 0 <= j < |ps| && o.positions ==> ps[j].freq == |ps[j].positions|
  }

  method WriteTerm(t: TermEntry, o: Options, stats: bool, f: Hasher)
    requires f.Valid() && FreqsMatch(t.postings, o)
    modifies f
    ensures f.Valid() && f.stream == old(f.stream) + TermBytes(t, o, stats)
  {
    hide LongBytes, Digest, PostingBytes;
    f.Block(t.term);
    if stats {
      f.Long(t.docFreq);
      f.Long(t.totalTermFreq);
    }
    ghost var goal := f.stream + PostingsBytes(t.postings, o, stats);
    for d := 0 to |t.postings|
      invariant f.Valid() && f.stream + PostingsBytes(t.postings[d..], o, stats) == goal
    {
      ghost var before, rest := f.stream, PostingsBytes(t.postings[d + 1..], o, stats);
      assert t.postings[d..][1..] == t.postings[d + 1..];
      assert before + (PostingBytes(t.postings[d], o, stats) + rest) == goal;
      WritePosting(t.postings[d], o, stats, f);
      assert f.stream + rest == before + (PostingBytes(t.postings[d], o, stats) + rest);
    }
    assert f.stream + [] == f.stream;
  }

  /** `postingsOf` */
  method WriteTerms(ts: seq<TermEntry>, o: Options, stats: bool, f: Hasher)
    requires f.Valid()
    requires forall i :: 0 <= i < |ts| ==> FreqsMatch(ts[i].postings, o)
    modifies f
    ensures f.Valid() && f.stream == old(f.stream) + Stream(ts, o, stats)
  {
    hide Digest, TermBytes, FreqsMatch;
    ghost var goal := f.stream + Stream(ts, o, stats);
    for i := 0 to |ts|
      invariant f.Valid() && f.stream + Stream(ts[i..], o, stats) == goal
    {
      ghost var before, rest := f.stream, Stream(ts[i + 1..], o, stats);
      assert ts[i..][1..] == ts[i + 1..];
      assert before + (TermBytes(ts[i], o, stats) + rest) == goal;
      WriteTerm(ts[i], o, stats, f);
      assert f.stream + rest == before + (TermBytes(ts[i], o, stats) + rest);
    }
    assert f.stream + [] == f.stream;
  }

  // ---------------------------------------------------------------------------
  // Reading a value off the front
  // ---------------------------------------------------------------------------

  function Pow256(k: nat): (p: nat)
    ensures p >= 1
  {
    if k == 0 then 1 else 256 * Pow256(k - 1)
  }

  /** Equal bytes mean equal values modulo 256^count. */
  lemma {:induction false} LongBytesModulo(v: int, w: int, count: nat) returns (k: int)
    requires LongBytes(v, count) == LongBytes(w, count)
    ensures v - w == k * Pow256(count)
    decreases count
  {
    if count == 0 {
      k := v - w;
    } else {
      var x, y := LongBytes(v, count), LongBytes(w, count);
      assert x[0] == y[0] && x[1..] == y[1..];
      k := LongBytesModulo(v / 256, w / 256, count - 1);
      assert v == 256 * (v / 256) + v % 256 && w == 256 * (w / 256) + w % 256;
      Regroup(k, Pow256(count - 1));
    }
  }

  lemma Regroup(k: int, p: int)
    ensures 256 * (k * p) == k * (256 * p)
  {
  }

  predicate IsLong(v: int) {
    -0x8000_0000_0000_0000 <= v < 0x8000_0000_0000_0000
  }

  lemma CutLong(v: int, w: int, x: seq<Byte>, y: seq<Byte>)
    requires IsLong(v) && IsLong(w) && L(v) + x == L(w) + y
    ensures v == w && x == y
  {
    hide LongBytes;
    assert (L(v) + x)[..8] == L(v) && (L(w) + y)[..8] == L(w);
    assert (L(v) + x)[8..] == x && (L(w) + y)[8..] == y;
    var k := LongBytesModulo(v, w, 8);
    assert Pow256(4) == 0x1_0000_0000;
    assert Pow256(8) == 0x1_0000_0000 * 0x1_0000_0000;
  }

  lemma CutBlock(a: seq<Byte>, b: seq<Byte>, x: seq<Byte>, y: seq<Byte>)
    requires IsLong(|a|) && IsLong(|b|) && B(a) + x == B(b) + y
    ensures a == b && x == y
  {
    hide LongBytes, L;
    assert B(a) + x == L(|a|) + (a + x) && B(b) + y == L(|b|) + (b + y);
    CutLong(|a|, |b|, a + x, b + y);
    assert (a + x)[..|a|] == a && (b + y)[..|b|] == b;
    assert (a + x)[|a|..] == x && (b + y)[|b|..] == y;
  }

  /** What a reader can see of a position: unrecorded parts have their default. */
  ghost predicate ValidPosition(p: Position, o: Options) {
    && IsLong(p.pos) && IsLong(p.start) && IsLong(p.end)
    && (!o.offsets ==> p.start == -1 && p.end == -1)
    && (!o.payloads ==> p.payload == None)
    && (p.payload.Some? ==> IsLong(|p.payload.value|))
  }

  /** Positions are non-negative ints and do not go backwards. */
  ghost predicate InOrder(ps: seq<Position>) {
    && (forall k :: 0 <= k < |ps| ==> 0 <= ps[k].pos < 0x8000_0000)
    && forall j, k :: 0 <= j < k < |ps| ==> ps[j].pos <= ps[k].pos
  }

  /** Nor do offsets, and none ends before it starts. */
  ghost predicate OffsetsInOrder(ps: seq<Position>) {
    && (forall k :: 0 <= k < |ps| ==> 0 <= ps[k].start <= ps[k].end < 0x8000_0000)
    && forall j, k :: 0 <= j < k < |ps| ==> ps[j].start <= ps[k].start
  }

  ghost predicate NoOffsets(ps: seq<Position>) {
    forall k :: 0 <= k < |ps| ==> ps[k].start == -1 && ps[k].end == -1
  }

  ghost predicate ValidPositions(ps: seq<Position>, o: Options) {
    && (forall k :: 0 <= k < |ps| ==> ValidPosition(ps[k], o))
    && InOrder(ps) && if o.offsets then OffsetsInOrder(ps) else NoOffsets(ps)
  }

  ghost predicate IsFrequency(freq: int) {
    1 <= freq < 0x8000_0000
  }

  ghost predicate ValidPosting(p: Posting, o: Options) {
    && IsLong(p.doc) && IsFrequency(p.freq)
    && if o.positions then p.freq == |p.positions| && ValidPositions(p.positions, o) else p.positions == []
  }

  ghost predicate ValidTerm(t: TermEntry, o: Options) {
    && IsLong(|t.term|) && IsLong(t.totalTermFreq)
    && t.docFreq == |t.postings| && IsLong(t.docFreq)
    && forall k :: 0 <= k < |t.postings| ==> ValidPosting(t.postings[k], o)
  }

  ghost predicate ValidTerms(ts: seq<TermEntry>, o: Options) {
    forall k :: 0 <= k < |ts| ==> ValidTerm(ts[k], o)
  }

  /** An absent payload is not an empty one. */
  lemma CutPayload(p: Option<seq<Byte>>, q: Option<seq<Byte>>, x: seq<Byte>, y: seq<Byte>)
    requires p.Some? ==> IsLong(|p.value|)
    requires q.Some? ==> IsLong(|q.value|)
    requires PayloadBytes(p) + x == PayloadBytes(q) + y
    ensures p == q && x == y
  {
    hide LongBytes, L;
    match (p, q) {
      case (None, None) =>
        CutLong(-1, -1, x, y);
      case (Some(a), Some(b)) =>
        CutBlock(a, b, x, y);
      case (None, Some(b)) =>
        assert L(-1) + x == L(|b|) + (b + y);
        CutLong(-1, |b|, x, b + y);
      case (Some(a), None) =>
        assert L(|a|) + (a + x) == L(-1) + y;
        CutLong(|a|, -1, a + x, y);
    }
  }

  lemma CutPosition(p: Position, q: Position, o: Options, x: seq<Byte>, y: seq<Byte>)
    requires ValidPosition(p, o) && ValidPosition(q, o)
    requires PositionBytes(p, o) + x == PositionBytes(q, o) + y
    ensures p == q && x == y
  {
    hide LongBytes, L, PayloadBytes;
    var px := (if o.payloads then PayloadBytes(p.payload) else []) + x;
    var qy := (if o.payloads then PayloadBytes(q.payload) else []) + y;
    if o.offsets {
      assert PositionBytes(p, o) + x == L(p.pos) + (L(p.start) + (L(p.end) + px));
      assert PositionBytes(q, o) + y == L(q.pos) + (L(q.start) + (L(q.end) + qy));
      CutLong(p.pos, q.pos, L(p.start) + (L(p.end) + px), L(q.start) + (L(q.end) + qy));
      CutLong(p.start, q.start, L(p.end) + px, L(q.end) + qy);
      CutLong(p.end, q.end, px, qy);
    } else {
      assert PositionBytes(p, o) + x == L(p.pos) + px;
      assert PositionBytes(q, o) + y == L(q.pos) + qy;
      CutLong(p.pos, q.pos, px, qy);
    }
    if o.payloads {
      CutPayload(p.payload, q.payload, x, y);
    } else {
      assert px == x && qy == y;
    }
  }

  lemma {:induction false} CutPositions(ps: seq<Position>, qs: seq<Position>, o: Options, x: seq<Byte>, y: seq<Byte>)
    requires |ps| == |qs|
    requires forall k :: 0 <= k < |ps| ==> ValidPosition(ps[k], o) && ValidPosition(qs[k], o)
    requires PositionsBytes(ps, o) + x == PositionsBytes(qs, o) + y
    ensures ps == qs && x == y
    decreases |ps|
  {
    hide PositionBytes, ValidPosition;
    if ps == [] {
      assert [] + x == x && [] + y == y;
    } else {
      var px, qy := PositionsBytes(ps[1..], o) + x, PositionsBytes(qs[1..], o) + y;
      assert PositionsBytes(ps, o) + x == PositionBytes(ps[0], o) + px;
      assert PositionsBytes(qs, o) + y == PositionBytes(qs[0], o) + qy;
      CutPosition(ps[0], qs[0], o, px, qy);
      CutPositions(ps[1..], qs[1..], o, x, y);
      assert ps == [ps[0]] + ps[1..] && qs == [qs[0]] + qs[1..];
    }
  }

  /** One posting; without statistics its document number is not in the stream. */
  lemma CutPosting(p: Posting, q: Posting, o: Options, stats: bool, x: seq<Byte>, y: seq<Byte>)
    requires ValidPosting(p, o) && ValidPosting(q, o)
    requires !stats ==> p.doc == q.doc
    requires PostingBytes(p, o, stats) + x == PostingBytes(q, o, stats) + y
    ensures p == q && x == y
  {
    hide L, PositionsBytes, ValidPosition;
    var px := (if o.positions then PositionsBytes(p.positions, o) else []) + x;
    var qy := (if o.positions then PositionsBytes(q.positions, o) else []) + y;
    if stats {
      assert PostingBytes(p, o, stats) + x == L(p.doc) + (L(p.freq) + px);
      assert PostingBytes(q, o, stats) + y == L(q.doc) + (L(q.freq) + qy);
      CutLong(p.doc, q.doc, L(p.freq) + px, L(q.freq) + qy);
    } else {
      assert PostingBytes(p, o, stats) + x == L(p.freq) + px;
      assert PostingBytes(q, o, stats) + y == L(q.freq) + qy;
    }
    CutLong(p.freq, q.freq, px, qy);
    if o.positions {
      CutPositions(p.positions, q.positions, o, x, y);
    } else {
      assert px == x && qy == y;
    }
  }

  lemma {:induction false} CutPostings(
    ps: seq<Posting>, qs: seq<Posting>, o: Options, stats: bool, x: seq<Byte>, y: seq<Byte>)
    requires |ps| == |qs|
    requires forall k :: 0 <= k < |ps| ==> ValidPosting(ps[k], o) && ValidPosting(qs[k], o)
    requires forall k :: 0 <= k < |ps| && !stats ==> ps[k].doc == qs[k].doc
    requires PostingsBytes(ps, o, stats) + x == PostingsBytes(qs, o, stats) + y
    ensures ps == qs && x == y
    decreases |ps|
  {
    hide PostingBytes, ValidPosting;
    if ps == [] {
      assert [] + x == x && [] + y == y;
    } else {
      var px, qy := PostingsBytes(ps[1..], o, stats) + x, PostingsBytes(qs[1..], o, stats) + y;
      assert PostingsBytes(ps, o, stats) + x == PostingBytes(ps[0], o, stats) + px;
      assert PostingsBytes(qs, o, stats) + y == PostingBytes(qs[0], o, stats) + qy;
      CutPosting(ps[0], qs[0], o, stats, px, qy);
      CutPostings(ps[1..], qs[1..], o, stats, x, y);
      assert ps == [ps[0]] + ps[1..] && qs == [qs[0]] + qs[1..];
    }
  }

  /** A term vector's entry: one posting, of the document itself. */
  ghost predicate VectorTerm(t: TermEntry) {
    |t.postings| == 1 && t.postings[0].doc == 0 && t.totalTermFreq == t.postings[0].freq
  }

  lemma CutTerm(t: TermEntry, u: TermEntry, o: Options, stats: bool, x: seq<Byte>, y: seq<Byte>)
    requires ValidTerm(t, o) && ValidTerm(u, o)
    requires !stats ==> VectorTerm(t) && VectorTerm(u)
    requires TermBytes(t, o, stats) + x == TermBytes(u, o, stats) + y
    ensures t == u && x == y
  {
    hide L, B, PostingsBytes, ValidPosting;
    var tx, uy := PostingsBytes(t.postings, o, stats) + x, PostingsBytes(u.postings, o, stats) + y;
    if stats {
      assert TermBytes(t, o, stats) + x == B(t.term) + (L(t.docFreq) + (L(t.totalTermFreq) + tx));
      assert TermBytes(u, o, stats) + y == B(u.term) + (L(u.docFreq) + (L(u.totalTermFreq) + uy));
      CutBlock(t.term, u.term, L(t.docFreq) + (L(t.totalTermFreq) + tx), L(u.docFreq) + (L(u.totalTermFreq) + uy));
      CutLong(t.docFreq, u.docFreq, L(t.totalTermFreq) + tx, L(u.totalTermFreq) + uy);
      CutLong(t.totalTermFreq, u.totalTermFreq, tx, uy);
    } else {
      assert TermBytes(t, o, stats) + x == B(t.term) + tx;
      assert TermBytes(u, o, stats) + y == B(u.term) + uy;
      CutBlock(t.term, u.term, tx, uy);
    }
    CutPostings(t.postings, u.postings, o, stats, x, y);
  }

  lemma {:induction false} CutTerms(ts: seq<TermEntry>, us: seq<TermEntry>, o: Options, stats: bool)
    requires ValidTerms(ts, o) && ValidTerms(us, o)
    requires !stats ==> forall k :: 0 <= k < |ts| ==> VectorTerm(ts[k])
    requires !stats ==> forall k :: 0 <= k < |us| ==> VectorTerm(us[k])
    requires Stream(ts, o, stats) == Stream(us, o, stats)
    ensures ts == us
    decreases |ts|
  {
    hide TermBytes, ValidTerm, VectorTerm;
    if ts == [] || us == [] {
      NonEmptyStream(ts, o, stats);
      NonEmptyStream(us, o, stats);
    } else {
      CutTerm(ts[0], us[0], o, stats, Stream(ts[1..], o, stats), Stream(us[1..], o, stats));
      CutTerms(ts[1..], us[1..], o, stats);
      assert ts == [ts[0]] + ts[1..] && us == [us[0]] + us[1..];
    }
  }

  lemma NonEmptyStream(ts: seq<TermEntry>, o: Options, stats: bool)
    ensures Stream(ts, o, stats) == [] <==> ts == []
  {
    if ts != [] {
      assert |TermBytes(ts[0], o, stats)| >= |B(ts[0].term)| >= 8;
    }
  }

  /** With statistics, equal streams come from equal postings. */
  lemma StreamDeterminesPostings(ts: seq<TermEntry>, us: seq<TermEntry>, o: Options)
    requires ValidTerms(ts, o) && ValidTerms(us, o)
    ensures Stream(ts, o, true) == Stream(us, o, true) <==> ts == us
  {
    if Stream(ts, o, true) == Stream(us, o, true) {
      CutTerms(ts, us, o, true);
    }
  }

  /** Without statistics they do so for the term vector of one field of one document. */
  lemma StreamDeterminesVector(ts: seq<TermEntry>, us: seq<TermEntry>, o: Options)
    requires ValidTerms(ts, o) && ValidTerms(us, o)
    requires forall k :: 0 <= k < |ts| ==> VectorTerm(ts[k])
    requires forall k :: 0 <= k < |us| ==> VectorTerm(us[k])
    ensures Stream(ts, o, false) == Stream(us, o, false) <==> ts == us
  {
    if Stream(ts, o, false) == Stream(us, o, false) {
      CutTerms(ts, us, o, false);
    }
  }

  /** And not otherwise: four postings of one term can read as one posting each of two. */
  lemma {:induction false} WithoutStatisticsAmbiguous() returns (ts: seq<TermEntry>, us: seq<TermEntry>, o: Options)
    ensures ValidTerms(ts, o) && ValidTerms(us, o) && ts != us
    ensures Stream(ts, o, false) == Stream(us, o, false)
  {
    hide L, PostingsBytes;
    o := Options(false, false, false);
    var once := [Posting(0, 1, [])] + [];
    var last := [Posting(3, 1, [])] + [];
    var mid := [Posting(2, 1, [])] + last;
    var all := [Posting(0, 1, [])] + ([Posting(1, 8, [])] + mid);
    ts := [TermEntry([], 4, 11, all)];
    us := [TermEntry([], 1, 1, once), TermEntry(L(1), 1, 1, once)];
    FreqsOnly(Posting(0, 1, []), [], o);
    FreqsOnly(Posting(3, 1, []), [], o);
    FreqsOnly(Posting(2, 1, []), last, o);
    FreqsOnly(Posting(1, 8, []), mid, o);
    FreqsOnly(Posting(0, 1, []), [Posting(1, 8, [])] + mid, o);
    assert ts[1..] == [] && us[1..] == [us[1]] && us[1..][1..] == [];
    var tail := L(8) + (L(1) + L(1));
    assert L(1) + [] == L(1);
    assert TermBytes(ts[0], o, false) == B([]) + (L(1) + tail);
    assert TermBytes(us[0], o, false) == B([]) + L(1);
    assert TermBytes(us[1], o, false) == tail;
    calc {
      Stream(ts, o, false);
      TermBytes(ts[0], o, false) + [];
      B([]) + L(1) + tail;
      TermBytes(us[0], o, false) + (TermBytes(us[1], o, false) + []);
      { assert Stream([us[1]], o, false) == TermBytes(us[1], o, false) + Stream([us[1]][1..], o, false); }
      TermBytes(us[0], o, false) + Stream(us[1..], o, false);
      Stream(us, o, false);
    }
  }

  lemma FreqsOnly(p: Posting, ps: seq<Posting>, o: Options)
    requires !o.positions
    ensures PostingsBytes([], o, false) == []
    ensures PostingsBytes([p] + ps, o, false) == L(p.freq) + PostingsBytes(ps, o, false)
  {
    hide L;
    assert ([p] + ps)[1..] == ps;
  }
}
