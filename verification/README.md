# Verified model of the Lucene port's ground-truth tools and gates

The correctness of the Rust port of Lucene rests on programs that are not part of the port:
Java generators and checkers that write and compare ground truth, and Python gates that decide
whether a build may pass. This project models the algorithms inside those programs in Dafny and
proves what the port relies on them for.

| modules | program |
|---|---|
| `VarInt`, `SegmentHeader` | the index-header reader, `scripts/fixture-segment-ids.py` |
| `PackedIndex`, `LeafMarkers` | the BKD packed-index walk, `fixtures/src/CompressedDimSpy.java` |
| `Fnv`, `PostingsStream`, `VectorStream`, `VectorAmbiguity`, `VectorCrossing`, `VectorExact` | the canonical digest streams, `fixtures/bwc/BwcDump.java` and `fixtures/src/GenAnalysisIcu.java` |
| `TextOrder`, `PostingText`, `MergeRanks`, `MergePostings`, `MergeBytes`, `MergeCheck`, `MergeWitness` | the merge-equivalence checker, `fixtures/bwc/BwcMergeCheck.java` |
| `Manifest` | the `Append*Manifest` programs |
| `SpanParser` | the span S-expression parser, `fixtures/src/AppendSpanExtentManifest.java` |
| `Escape`, `FactoryConfig` | the UTF-16 escapes and configuration lines of the analysis fixtures |
| `CodePointRuns` | the code-point run tables, `fixtures/src/GenAnalysisCommon.java` |
| `PointRange` | the point-range visitors, `fixtures/src/AppendPointEstimateManifest.java` |
| `SparseIndex` | the exact top ten of `scripts/bench-sparse-plugin.py` |
| `Lockfile`, `LockfileText` | the lockfile pruning of `scripts/bench-cargo-debug.py` |
| `LicenceText`, `LicenceGate`, `LicenceChoice`, `LicenceReach` | `scripts/check-licences.py` |
| `SourceScan`, `TypeShape`, `CallNesting` | the scanners of `scripts/check-port-invariants.py` |
| `BenchGate` | the retrying performance gate, `scripts/bench-gate.py` |

`Common` and `PythonText` hold what several of them share. Loops are methods with invariants,
objects whose fields change are classes (`IndexInput`, `Hasher`, `Parser`, `CountingVisitor`), and
each of them is proved equal to a specification function or predicate about which the properties
are then proved. Java `int` and `long`
arithmetic is written out modulo 2^32 and 2^64, Java strings are sequences of 16-bit units where
surrogates matter, and exceptions are results.

## What turned out false

- **Licence choice is unsound for a group in the middle.** `chosen` passes
  `GPL-3.0 AND (A OR MIT OR B) AND GPL-2.0` on MIT alone (`LicenceChoice.MisreadText`): neither
  of its two patterns matches, so it cuts the text at the ORs inside the parentheses and reads the
  middle alternative on its own. `LicenceChoice.TextSoundIff` says exactly for which expressions
  it is sound, `LicenceChoice.TextCompleteIff` for which it is complete.
- **A marked field makes the test blanking overrun.** `#[cfg(test)]` on a struct field ends
  neither in `;` nor in a brace, so blanking continues through the closing brace of the struct
  and the first line of the next item (`SourceScan.MarkedFieldOverruns`);
  `SourceScan.ItemBalanced` says exactly for which text behind a mark the blanked stretch is
  balanced.
- **One appender alone is not idempotent on every text.** A text all of whose pieces it owns,
  hence one without a final newline, gains a blank line on the second run;
  `Manifest.AppenderIsIdempotent` is the exact condition. A pass of two or more is idempotent on
  every text.
- **The merge checker can pass a wrong merge.** The digested bytes have no term boundaries, so
  with three documents and the terms `!` and `0000000001:1` two indexes with different postings
  pass (`MergeWitness.SmallWrongPass`). `MergeWitness.PassMeansSame` is the exact condition on the
  terms of a field and the number of documents.
- **The term-vector stream does not always determine the vectors.** It joins all fields and
  documents without counts. A field name that may occur as a later term can be read as a term or
  as a name (`VectorExact.ConfusedDocs`), and fields can belong to one document or the next
  (`VectorAmbiguity.TwoWays`). `VectorExact.StreamTellsVectorsIff` is the exact condition on the
  names and the number of documents, which the dump prints, for every such number and whatever
  the fields record. The postings stream without statistics is ambiguous, too, for terms with several postings (`PostingsStream.WithoutStatisticsAmbiguous`).

## Model

| member | source | states |
|---|---|---|
| `PackedIndex.ReadWrittenIndex` | fixtures/src/CompressedDimSpy.java:53-62 | For every leaf count and every tree with non-decreasing leaf pointers, reading its packed encoding, whatever follows it, gives the pointers of all leaves from left to right and consumes exactly the encoded bytes. |
| `PackedIndex.WalkWrittenNode` | fixtures/src/CompressedDimSpy.java:92-113 | The same for every subtree at any position of any data: what was collected before stays, the subtree's leaf pointers are appended in order, the cursor stops exactly behind it. |
| `PackedIndex.LeafOrderVisitsEachOnce` | fixtures/src/CompressedDimSpy.java:92-113 | The recursion over heap ids visits exactly the ids n to 2n-1, each once. |
| `PackedIndex.LeafOrderIsRotation` | fixtures/src/CompressedDimSpy.java:92-113 | Left to right the leaves are those numbered from the least power of two not below n, then those from n: a rotation of n to 2n-1. |
| `PackedIndex.PrefixFromCode` | fixtures/src/CompressedDimSpy.java:99-101 | Division and remainder recover the prefix from the mixed-radix split code, for every delta, prefix and dimension. |
| `PackedIndex.SuffixLengthExact` | fixtures/src/CompressedDimSpy.java:99-104 | For every code a file can hold, below zero too, how many bytes of the split value are skipped. |
| `PackedIndex.Truncates` | fixtures/src/CompressedDimSpy.java:99-101 | Java's quotient and remainder belong together, and the remainder has the sign of the dividend. |
| `PackedIndex.Wraps` | fixtures/src/CompressedDimSpy.java:111-112 | A file pointer keeps the low 64 bits of the sum as a long, a code the low 32 bits as an int. |
| `PackedIndex.PointersAreLongs` | fixtures/src/CompressedDimSpy.java:92-113 | Whatever the bytes, every pointer collected is a Java long. |
| `PackedIndex.SkipWrittenHead` | fixtures/src/CompressedDimSpy.java:99-109 | Reading the code, suffix and optional skip hint of a written node ends exactly where its left subtree starts. |
| `PackedIndex.LeftToRightFits` | fixtures/src/CompressedDimSpy.java:109-112 | Non-decreasing leaf pointers make every right-subtree delta non-negative, so that it can be written. |
| `PackedIndex.ReadNodeHead` | fixtures/src/CompressedDimSpy.java:99-109 | The part of `walk` before its recursive calls moves the shared cursor as specified, or reports the same fault. |
| `PackedIndex.WalkInto` | fixtures/src/CompressedDimSpy.java:92-113 | `walk` over the shared cursor and list leaves both as the specification of the walk says, on any bytes, faults included. |
| `PackedIndex.ReadLeafPointers` | fixtures/src/CompressedDimSpy.java:60-62 | Root pointer, then the walk from node 1: the specified list or fault. |
| `LeafMarkers.ReadMarker` | fixtures/src/CompressedDimSpy.java:68-84 | One leaf block's header on any bytes: count, ids, one length-prefixed prefix per dimension, then the marker byte, from -128 to 127. |
| `LeafMarkers.LeafCompressedDims` | fixtures/src/CompressedDimSpy.java:33-90 | The whole function: one marker per leaf pointer in their order, or the first fault in leaf order. |
| `LeafMarkers.MarkerOfWrittenBlock` | fixtures/src/CompressedDimSpy.java:68-84 | A written block's marker comes back as the Java byte with those eight bits, for any count, ids and prefixes. |
| `LeafMarkers.MarkersOfWrittenTree` | fixtures/src/CompressedDimSpy.java:29-32 | From a written index and the blocks its pointers name, the markers come out as Java bytes in left-to-right leaf order, given in closed form. |
| `VarInt.ReadVarInt` | scripts/fixture-segment-ids.py:45-59 | The shift-and-accumulate loop equals the recursive decoding on any bytes: value, end position, truncation and overlength. |
| `VarInt.DecodeEncode` | scripts/fixture-segment-ids.py:45-59 | Every value that fits the allowed bytes is decoded from its minimal encoding wherever that stands. |
| `VarInt.EncodedLength` | scripts/fixture-segment-ids.py:45-59 | The minimal encoding has at most k bytes exactly for values below 128^k; five bytes are 2^35. |
| `VarInt.DecodeInBounds` | scripts/fixture-segment-ids.py:45-59 | A successful read never passes the end of the data or the allowed number of bytes. |
| `VarInt.DecodeLocal` | scripts/fixture-segment-ids.py:45-59 | Bytes behind a successful read do not change it. |
| `SegmentHeader.SegmentIdWrite` | scripts/fixture-segment-ids.py:62-71 | `segment_id` returns the written id for any name, version and trailing bytes. |
| `SegmentHeader.HeadSuffices` | scripts/fixture-segment-ids.py:91-94 | The 64 bytes read of a file suffice exactly for names of at most 39 bytes; longer ones are reported as truncated. |
| `SegmentHeader.ForeignMagic` | scripts/fixture-segment-ids.py:64-65 | Data are refused as no header exactly when they do not start with the magic. |
| `Fnv.Hasher.Step` | fixtures/bwc/BwcDump.java:193-198 | One byte extends the digested stream by that byte. |
| `Fnv.Hasher.Bytes` | fixtures/bwc/BwcDump.java:193-198 | The state is the FNV-1a digest of everything fed so far, followed by these bytes. |
| `Fnv.Hasher.Long` | fixtures/bwc/BwcDump.java:200-206 | A long, negative ones included, is fed as its eight two's-complement bytes, least significant first, and counted once. |
| `Fnv.LongExample` | fixtures/bwc/BwcDump.java:200-205 | A long goes in with its lowest byte first, a negative one in two's complement. |
| `Fnv.Hasher.Block` | fixtures/bwc/BwcDump.java:208-216 | A byte string is fed as its length and its bytes. |
| `Fnv.DigestUnits` | fixtures/src/GenAnalysisIcu.java:84-92 | The second implementation is the same digest over the high and low byte of every UTF-16 unit. |
| `Fnv.KnownAnswer` | fixtures/bwc/BwcDump.java:189-198 | The published FNV-1a 64 digest of `a` comes out: offset, prime and the order of the two operations are those of the standard. |
| `Fnv.MixInjective` | fixtures/bwc/BwcDump.java:193-198 | One step never maps two states to one: the odd prime cancels modulo 2^64. |
| `Fnv.FoldInjective` | fixtures/bwc/BwcDump.java:193-198 | Nor does any number of equal bytes. |
| `Fnv.NoSmallCubicRoot` | fixtures/bwc/BwcDump.java:193-198 | No difference built from four byte differences and three factors of the prime is 0 modulo 2^64, unless the first is 0. |
| `Fnv.WindowNeverCollides` | fixtures/bwc/BwcDump.java:189-216 | Equal-length streams that differ only inside four adjacent bytes never have equal digests, whatever surrounds them. |
| `Fnv.OneByteNeverCollides` | fixtures/bwc/BwcDump.java:189-216 | In particular streams that differ in one byte. |
| `Fnv.TwoUnitsNeverCollide` | fixtures/src/GenAnalysisIcu.java:84-92 | UTF-16 strings of equal length that differ in one unit, or in two adjacent ones, never have equal digests. |
| `PostingsStream.WritePosition` | fixtures/bwc/BwcDump.java:223-254 | One position feeds its number and the recorded offsets and payload, an absent payload as -1. |
| `PostingsStream.WritePosting` | fixtures/bwc/BwcDump.java:223-254 | One posting feeds its document (with statistics), frequency and positions. |
| `PostingsStream.WriteTerm` | fixtures/bwc/BwcDump.java:223-254 | One term feeds its bytes, its statistics when asked, and its postings. |
| `PostingsStream.WriteTerms` | fixtures/bwc/BwcDump.java:223-254 | `postingsOf` feeds exactly the documented stream and keeps the hasher's invariant. |
| `PostingsStream.StreamDeterminesPostings` | fixtures/bwc/BwcDump.java:62-85 | With statistics, streams are equal exactly for equal term lists, absent payloads told from empty ones. |
| `PostingsStream.CutPayload` | fixtures/bwc/BwcDump.java:208-216 | Payload bytes with anything behind them determine the payload and what is behind. |
| `PostingsStream.CutTerm` | fixtures/bwc/BwcDump.java:223-254 | The same for a whole term entry: the encoding is self-delimiting. |
| `PostingsStream.StreamDeterminesVector` | fixtures/bwc/BwcDump.java:223-254 | Without statistics the stream still determines the terms of one field of one document, which have one posting each. |
| `PostingsStream.WithoutStatisticsAmbiguous` | fixtures/bwc/BwcDump.java:223-254 | Without statistics and with several postings per term it does not: two different lists, one stream. |
| `VectorStream.WriteDoc` | fixtures/bwc/BwcDump.java:468-475 | The loop over the fields of a document feeds each name and its terms in order. |
| `VectorStream.WriteVectors` | fixtures/bwc/BwcDump.java:461-477 | The loop over the documents feeds exactly the specified stream, `L(-1)` for a document without vectors. |
| `VectorStream.StreamOfFlat` | fixtures/bwc/BwcDump.java:461-477 | The stream is that of the flat list of fields and absent documents: it holds no document boundaries. |
| `VectorStream.StreamTellsFlat` | fixtures/bwc/BwcDump.java:461-477 | Where no field name may be a term behind another, streams are equal exactly for equal flat lists, whatever the fields record. |
| `VectorStream.CutVector` | fixtures/bwc/BwcDump.java:468-475 | Under that guard a field with anything behind it determines the field and what is behind. |
| `VectorStream.RealEntry` | fixtures/bwc/BwcDump.java:223-254 | What the vector results range over: terms of at most 32766 bytes with one posting, a positive frequency, and positions and offsets that do not go backwards. |
| `VectorAmbiguity.TwoWays` | fixtures/bwc/BwcDump.java:461-477 | Three names and two documents, or two names and three documents, give two segments with one flat list. |
| `VectorAmbiguity.FlatTellsDocsIff` | fixtures/bwc/BwcDump.java:461-477 | The flat list tells the documents, for all segments of a given size over given names, exactly when there is at most one name, one document, or two of each. |
| `VectorCrossing.NameAsTerms` | fixtures/bwc/BwcDump.java:468-475 | Whatever two fields record, a name that may be a term of the one starts terms of it that feed what the name and the terms of the other feed. |
| `VectorCrossing.SwallowNext` | fixtures/bwc/BwcDump.java:461-477 | Whatever a field records, a last term equal to its name, followed by the same field of the next document, feeds what that next field feeds with other terms, one of which holds the name and a term. |
| `VectorCrossing.StartOpens` | fixtures/bwc/BwcDump.java:223-254 | Positions in order, for each of the ways to record them, whose bytes another field reads as a frequency, its own positions in order and the length of a term. |
| `VectorExact.ConfusedInOneDocument` | fixtures/bwc/BwcDump.java:468-475 | A name above another one that may be a later term gives two single documents with one stream and different fields, whatever the two record. |
| `VectorExact.ConfusedTwo` | fixtures/bwc/BwcDump.java:461-477 | Where a name may be a later term, two documents with that one field are fed in two ways, whatever it records. |
| `VectorExact.ConfusedDocs` | fixtures/bwc/BwcDump.java:461-477 | Where a name may be a later term, two segments of any given size from two documents on have one stream and different fields. |
| `VectorExact.StreamTellsFlatIff` | fixtures/bwc/BwcDump.java:461-477 | The stream tells the flat list of fields and absent documents, for all segments of a given size from two documents on, exactly when no name may be a later term. |
| `VectorExact.StreamTellsVectors` | fixtures/bwc/BwcDump.java:461-478 | Under both guards the stream and the number of documents determine all term vectors, for every schema and size. |
| `VectorExact.ManyDocumentsIff` | fixtures/bwc/BwcDump.java:461-478 | The stream and the number of documents determine the vectors, for all segments of a given size from two documents on, exactly when no name may be a later term and there is one name at most, or two names and two documents. |
| `VectorExact.OneDocumentTells` | fixtures/bwc/BwcDump.java:468-475 | The stream of one document determines its vectors where no name above another one may be a later term, whatever the fields record. |
| `VectorExact.OneDocumentIff` | fixtures/bwc/BwcDump.java:468-475 | Exactly then, whatever the fields record. |
| `VectorExact.StreamTellsVectorsIff` | fixtures/bwc/BwcDump.java:461-478 | For every number of documents and every schema: the stream and that number determine the vectors exactly when there is no document, or one and no name above another one may be a later term, or more and the condition of `ManyDocumentsIff` holds. |
| `TextOrder.AscendingUnique` | fixtures/bwc/BwcMergeCheck.java:184-191 | An ascending list is determined by its members: why `TreeSet` and `sort` make a canonical form. |
| `TextOrder.LessExact` | fixtures/bwc/BwcMergeCheck.java:184-184 | The order of terms: a proper prefix, or the smaller unsigned byte where two first differ. |
| `TextOrder.AddMembers` | fixtures/bwc/BwcMergeCheck.java:184-191 | Adding to a sorted set keeps it ascending and adds exactly that member. |
| `TextOrder.SortAscending` | fixtures/bwc/BwcMergeCheck.java:217-223 | Sorting distinct texts gives an ascending list of the same members. |
| `PostingText.RenderAscends` | fixtures/bwc/BwcMergeCheck.java:203-216 | Ten-digit padding makes the text order of postings their rank order, for every Java-sized rank. |
| `PostingText.RenderTellsRank` | fixtures/bwc/BwcMergeCheck.java:203-216 | Different ranks have different texts. |
| `PostingText.RenderInjective` | fixtures/bwc/BwcMergeCheck.java:203-216 | A posting text determines rank, frequency and every recorded position, offset and payload. |
| `PostingText.RenderExample` | fixtures/bwc/BwcMergeCheck.java:202-215 | One posting with two positions, with and without payload, character for character. |
| `MergeRanks.Live` | fixtures/bwc/BwcMergeCheck.java:93-102 | The nested loop lists exactly the documents of the leaves that have no live bits or a set one, in index order. |
| `MergeRanks.LiveOfExact` | fixtures/bwc/BwcMergeCheck.java:93-102 | Every live document is listed once, in index order, and nothing else: on the live bits themselves. |
| `MergeRanks.RanksOf` | fixtures/bwc/BwcMergeCheck.java:105-115 | Every document without a set live bit has rank -1, where there are live bits; every other one its position in `live`. |
| `MergeRanks.IndexKeys` | fixtures/bwc/BwcMergeCheck.java:146-151 | The first loop reports a repeated key exactly when there is one, and else maps each key to its position. |
| `MergeRanks.MatchLeaf` | fixtures/bwc/BwcMergeCheck.java:153-166 | One leaf consumes exactly the keys of its live documents from the map, or stops at the first that is gone. |
| `MergeRanks.RanksByStoredFields` | fixtures/bwc/BwcMergeCheck.java:144-169 | Succeeds exactly when the merged live keys are distinct and the original ones are a permutation of them; then it is a key-preserving bijection onto 0..size-1, and -1 exactly for what the live bits say is deleted; each failure says what is wrong. |
| `MergeRanks.TableNumbers` | fixtures/bwc/BwcMergeCheck.java:144-169 | A table filled by key lookup numbers every live document once, in the order of the merged keys. |
| `MergePostings.FillSlots` | fixtures/bwc/BwcMergeCheck.java:171-179 | Given a numbering, every slot is written exactly once, in bounds, with the document of that rank. |
| `MergePostings.RealPostings` | fixtures/bwc/BwcMergeCheck.java:200-212 | What the results range over: frequencies are positive ints that count the positions, and positions and offsets do not go backwards. |
| `MergePostings.CollectTerms` | fixtures/bwc/BwcMergeCheck.java:184-191 | The sorted set of the terms of all leaves. |
| `MergePostings.CollectTexts` | fixtures/bwc/BwcMergeCheck.java:194-216 | The texts of one term's live postings over all leaves, in leaf order. |
| `MergePostings.DescribePostings` | fixtures/bwc/BwcMergeCheck.java:184-225 | The digested bytes and term count of one field are those of its specified description. |
| `MergePostings.TextsExact` | fixtures/bwc/BwcMergeCheck.java:194-216 | The texts of a term are exactly those of the postings live documents have for it, each once. |
| `MergePostings.DescribeExact` | fixtures/bwc/BwcMergeCheck.java:181-226 | A description lists, ascending, exactly the terms some live document has, each with exactly its posting texts ascending. |
| `MergePostings.DescriptionsAgree` | fixtures/bwc/BwcMergeCheck.java:144-226 | Renumbering invariance and its converse: descriptions are equal exactly when documents with equal ranks have equal postings, whatever the leaves, merge order, deletions and dead terms. |
| `MergeBytes.BytesDecide` | fixtures/bwc/BwcMergeCheck.java:217-225 | Term count and bytes determine every description over given terms and documents exactly when no term above another one is the text of a posting of rank 1 or more that a posting can follow, or that stands with the text of a posting of rank 0. |
| `MergeBytes.LinesFromItems` | fixtures/bwc/BwcMergeCheck.java:217-225 | Under that guard the sequence of terms and texts determines where the terms are. |
| `MergeBytes.NeverTogether` | fixtures/bwc/BwcMergeCheck.java:217-225 | Two readings that are once one item apart stay so and never end together. |
| `MergeBytes.Confused` | fixtures/bwc/BwcMergeCheck.java:217-225 | Wherever the guard fails there are two descriptions with as many terms and the same items. |
| `MergeCheck.DescribesField` | fixtures/bwc/BwcMergeCheck.java:181-226 | Every description is one of the kind the guard is about: ascending terms, each with one or more postings of ascending ranks. |
| `MergeCheck.ByKeyOnData` | fixtures/bwc/BwcMergeCheck.java:138-169 | Two documents are compared when both are live, by their own live bits, and have the same stored fields. |
| `MergeCheck.PlainTermsFit` | fixtures/bwc/BwcMergeCheck.java:203-216 | Terms without a colon after ten characters always satisfy the guard. |
| `MergeCheck.CheckPostings` | fixtures/bwc/BwcMergeCheck.java:424-446 | The verdict on one field: a pass exactly when the keys are a permutation and both descriptions have as many terms and the same bytes; a correct merge always passes; over terms that satisfy the guard a pass means equal postings document by document. |
| `MergeWitness.IndexDescribed` | fixtures/bwc/BwcMergeCheck.java:181-226 | Every such description is that of an index. |
| `MergeWitness.WrongPass` | fixtures/bwc/BwcMergeCheck.java:424-446 | Wherever the guard fails, two indexes with the same keys pass although their documents differ. |
| `MergeWitness.SmallWrongPass` | fixtures/bwc/BwcMergeCheck.java:424-446 | Three documents and two terms are enough. |
| `MergeWitness.PassMeansSame` | fixtures/bwc/BwcMergeCheck.java:424-446 | A pass means equal postings, for all indexes over given terms and documents, exactly when the guard holds. |
| `Manifest.AppendTo` | fixtures/src/AppendScoringManifest.java:373-385 | The filter loop and the trimming loop compute the specified text. |
| `Manifest.AppendIsStep` | fixtures/src/AppendScoringManifest.java:373-385 | On lines: foreign lines without trailing blank ones, then the block, each with a newline. |
| `Manifest.RunIsForeignThenBlocks` | fixtures/README.md:37-46 | After a pass the manifest is the foreign lines and then the blocks in the order of the pass. |
| `Manifest.RotateOne` | fixtures/src/AppendCountManifest.java:134-146 | On such a manifest each program rotates its own block to the end and changes nothing else. |
| `Manifest.PassIsIdempotent` | fixtures/README.md:43-46 | A second pass of two or more programs reproduces the same text, from any starting text. |
| `Manifest.AppenderIsIdempotent` | fixtures/src/AppendScoringManifest.java:373-385 | One program alone is idempotent exactly on texts with a piece it does not own. |
| `Manifest.NewlineTerminated` | fixtures/src/AppendScoringManifest.java:373-385 | Hence on every newline-terminated manifest. |
| `Manifest.ForeignLinesSurvive` | fixtures/src/AppendCountManifest.java:134-146 | Non-blank lines that no program of the pass owns survive it in order, and no others appear. |
| `Manifest.OwnLinesAreTheBlock` | fixtures/src/AppendCountManifest.java:134-146 | The lines a program owns are afterwards exactly the block it wrote, once. |
| `Manifest.SourceOwnersFormAPass` | fixtures/src/AppendPrunedTotalsManifest.java:34-76 | Any of the scoring, count and pruned-totals programs, each once, in any order, form a pass to which the results apply. |
| `Manifest.OwnersExact` | fixtures/src/AppendPrunedTotalsManifest.java:34-76 | The keys of the three programs, character for character; a pruned-totals key has at least one digit. |
| `Manifest.EmptyBlockBreaksFixpoint` | fixtures/src/AppendPrunedTotalsManifest.java:64-76 | A program that wrote nothing would break the fixpoint. |
| `SpanParser.Parser.ReadWord` | fixtures/src/AppendSpanExtentManifest.java:254-261 | The cursor moves over the longest run of letters, digits and underscores, and an empty run is the exception. |
| `SpanParser.Parser.ReadExpr` | fixtures/src/AppendSpanExtentManifest.java:216-252 | The recursive descent over the mutable position equals the specification: tree and end position, or failure. |
| `SpanParser.Parser.ReadClauses` | fixtures/src/AppendSpanExtentManifest.java:216-252 | The clause loop reads the specified clauses behind those already read. |
| `SpanParser.Parser.ReadAll` | fixtures/src/AppendSpanExtentManifest.java:208-214 | `parse`: an expression that is the whole text, or a failure. |
| `SpanParser.ReadsSpelling` | fixtures/src/AppendSpanExtentManifest.java:216-252 | Wherever a text of a tree stands, `expr` reads that tree and stops right behind it. |
| `SpanParser.ReadIsSpelling` | fixtures/src/AppendSpanExtentManifest.java:216-252 | Whatever `expr` reads was a text of the tree it returns. |
| `SpanParser.ParseIffSpells` | fixtures/src/AppendSpanExtentManifest.java:208-214 | `parse` returns a tree exactly on the texts of that tree: the accepted language, both ways. |
| `SpanParser.ParseIntExact` | fixtures/src/AppendSpanExtentManifest.java:230-230 | A slop is a number exactly when it is all digits and at most 2147483647. |
| `SpanParser.ParseBoolExact` | fixtures/src/AppendSpanExtentManifest.java:233-233 | The order flag is true exactly for the four letters of `true`, each in either case. |
| `SpanParser.ParsePrint` | fixtures/src/AppendSpanExtentManifest.java:60-68 | Parsing the printed form of any tree, of any depth and arity, returns it. |
| `SpanParser.ExprStopsBehindPrint` | fixtures/src/AppendSpanExtentManifest.java:216-252 | Inside any text `expr` stops exactly behind the printed tree. |
| `Escape.Esc` | fixtures/src/AnalysisRows.java:82-105 | The loop with look-ahead and look-behind computes the specified escape. |
| `Escape.EscCommon` | fixtures/src/GenAnalysisCommon.java:411-426 | The second implementation computes the same. |
| `Escape.SameLone` | fixtures/src/GenAnalysisCommon.java:411-426 | The two tests for a lone surrogate agree at every position of every string. |
| `Escape.Unesc` | fixtures/src/GenAnalysisFactories.java:37-58 | The index-moving loop computes the specified reading of any text, exceptions included. |
| `Escape.UnescapeEscape` | fixtures/src/GenAnalysisFactories.java:37-58 | `unesc(esc(s)) == s` for every UTF-16 string, lone and misordered surrogates included. |
| `Escape.EscapedWellFormed` | fixtures/src/AnalysisRows.java:82-105 | Escaped text is well-formed UTF-16 (section 2 of RFC 2781), from every unit that does not split a pair. |
| `Escape.EscapedPrintable` | fixtures/src/AnalysisRows.java:82-105 | Escaped text has no character below U+0020. |
| `Escape.EscapedIsSafe` | fixtures/src/AnalysisRows.java:82-105 | All three together, for every string. |
| `Escape.EscapedStays` | fixtures/src/AnalysisRows.java:82-105 | A string is its own escape exactly when every unit is at least U+0020, no backslash, and no surrogate without its other half. |
| `Escape.EscapePiece` | fixtures/src/AnalysisRows.java:82-105 | Every unit becomes itself, its letter behind a backslash, or `\u` and the four upper-case digits whose value it is. |
| `Escape.UnescapeStep` | fixtures/src/GenAnalysisFactories.java:37-58 | What `unesc` reads at the start of any string: a unit, a letter behind a backslash, four units behind `\u`, or its exception. |
| `Escape.ParseHex4Exact` | fixtures/src/GenAnalysisFactories.java:51-51 | Four units are read exactly when they are four digits in either case, or a sign and three; below zero the low sixteen bits stay. |
| `Escape.DigitExact` | fixtures/src/GenAnalysisFactories.java:51-51 | The sixteen digits, in either case, and their values. |
| `FactoryConfig.ParseField` | fixtures/src/GenAnalysisFactories.java:93-106 | One field starts a step, adds a parameter to the last one, or fails. |
| `FactoryConfig.AddFieldExact` | fixtures/src/GenAnalysisFactories.java:92-106 | Which fields are `endwhen`, a kind and a name around the first colon, a key and a value around the first equals sign, or an exception: character for character, on every field. |
| `FactoryConfig.Parse` | fixtures/src/GenAnalysisFactories.java:91-108 | The loop over the fields behind the first equals their fold. |
| `FactoryConfig.SplitJoin` | fixtures/src/GenAnalysisFactories.java:150-150 | Splitting on tabs undoes joining fields that hold none. |
| `FactoryConfig.AddSteps` | fixtures/src/GenAnalysisFactories.java:91-108 | The fields of any list of steps parse back to those steps. |
| `FactoryConfig.ParseLine` | fixtures/src/GenAnalysisFactories.java:91-108 | An escaped configuration line, split on its tabs, parses back to its name and steps, whatever characters names and values hold. |
| `CodePointRuns.JdkDependent` | fixtures/src/GenAnalysisCommon.java:504-509 | True exactly for code points inside one of the table's ranges. |
| `CodePointRuns.EmitRuns` | fixtures/src/GenAnalysisCommon.java:718-746 | The loop's runs are sound, complete, ascending and maximal for any result function. |
| `CodePointRuns.ExactlyOneRun` | fixtures/src/GenAnalysisCommon.java:718-746 | A code point lies in a run exactly when it is not skipped, in one only, which carries its result. |
| `CodePointRuns.SameTableSameResults` | fixtures/src/GenAnalysisCommon.java:718-746 | Two tables are equal exactly when the results agree on every recorded code point: a lossless encoding. |
| `CodePointRuns.RunsUnique` | fixtures/src/GenAnalysisCommon.java:718-746 | A function has only one such table. |
| `PointRange.Compare` | fixtures/src/AppendPointEstimateManifest.java:198-214 | Outside exactly when some indexed dimension is apart, inside exactly when all are contained. |
| `PointRange.RelationDecides` | fixtures/src/AppendPointEstimateManifest.java:198-214 | For a cell whose bounds hold its points, outside means none is in the box and inside means all are. |
| `PointRange.CountingVisitor.VisitDoc` | fixtures/src/AppendPointEstimateManifest.java:225-240 | The blind visit counts one. |
| `PointRange.CountingVisitor.Visit` | fixtures/src/AppendPointEstimateManifest.java:225-240 | The checked visit counts a point exactly when it lies in the box under unsigned order. |
| `PointRange.CountingVisitor.Intersect` | fixtures/src/AppendPointEstimateManifest.java:198-240 | Any traversal driven by the relation, however it splits crossing cells, adds exactly the number of points in the box. |
| `SparseIndex.TruncateMonotone` | scripts/bench-sparse-plugin.py:51-51 | Clearing the low fifteen bits never increases a weight and keeps order. |
| `SparseIndex.WeightExact` | scripts/bench-sparse-plugin.py:51-51 | A float32 weight loses the low fifteen bits of its pattern and less than a 256th of its size; 1.0 is 2^149 units, and a step of the exponent doubles it. |
| `SparseIndex.WeightOfToken` | scripts/bench-sparse-plugin.py:49-51 | A document has each of its tokens with the weight given for it. |
| `SparseIndex.FlattenGives` | scripts/bench-sparse-plugin.py:47-54 | The flattened entries give every document its own weight for every token. |
| `SparseIndex.SliceGivesAll` | scripts/bench-sparse-plugin.py:52-54 | Between the offsets of a token stand exactly its entries of the sorted index. |
| `SparseIndex.ScatterAdd` | scripts/bench-sparse-plugin.py:56-60 | Repeated documents accumulate: every score grows by the query weight times what the entries give it. |
| `SparseIndex.ScoreQuery` | scripts/bench-sparse-plugin.py:56-60 | Scoring through the index equals the direct dot product for every document. |
| `SparseIndex.PositionIsRank` | scripts/bench-sparse-plugin.py:61-62 | A document's position in the order is the number of documents ahead of it, ties to the lower id. |
| `SparseIndex.Top10` | scripts/bench-sparse-plugin.py:61-62 | Exactly the positive-scoring documents with fewer than ten ahead. |
| `SparseIndex.ExactTop10` | scripts/bench-sparse-plugin.py:45-63 | The whole function, for every query, stated by dot products alone. |
| `Lockfile.Reach` | scripts/bench-cargo-debug.py:163-173 | The worklist ends with the least dependency-closed set around the root, or with an unresolvable dependency, and then no closed set exists. |
| `Lockfile.Prune` | scripts/bench-cargo-debug.py:147-173 | On parsed records: succeeds exactly when identities are distinct, there is one root and a closed set around it; then keeps exactly the records of the least one, in file order. |
| `Lockfile.FilterExact` | scripts/bench-cargo-debug.py:174-182 | The kept records are exactly those with a reachable identity, none lost or doubled, so the final count check of the source cannot fail. |
| `Lockfile.ResolvesTheSame` | scripts/bench-cargo-debug.py:151-161 | Every dependency of a kept record resolves in the pruned file to the package it resolved to before. |
| `Lockfile.ResolveExact` | scripts/bench-cargo-debug.py:151-161 | A dependency resolves to the only identity with its name and, where given, its version and source. |
| `Lockfile.RootsExact` | scripts/bench-cargo-debug.py:163-163 | The roots are the identities named `lucene-util` without a source. |
| `Lockfile.PrunedIsClosed` | scripts/bench-cargo-debug.py:163-182 | The pruned file needs nothing it does not hold. |
| `Lockfile.PruneIdempotent` | scripts/bench-cargo-debug.py:163-182 | Pruning a pruned file keeps the same closure and the same records. |
| `LockfileText.PruneText` | scripts/bench-cargo-debug.py:139-184 | On the text: refuses a file without records or with another table behind them, refuses what the records refuse, and else writes the header and exactly the reachable records as they stood. |
| `LockfileText.CutExact` | scripts/bench-cargo-debug.py:141-146 | Cutting into header and records loses nothing. |
| `LockfileText.StartExact` | scripts/bench-cargo-debug.py:141-141 | A record starts at `[[package]]` with nothing but white space behind it. |
| `LockfileText.SupportedExact` | scripts/bench-cargo-debug.py:142-143 | Refused are files without a record, and those with a line from the first record on that begins with one bracket only. |
| `LockfileText.CutJoined` | scripts/bench-cargo-debug.py:174-177 | Header and records put together are cut into the same header and records. |
| `LockfileText.PrunedReadsBack` | scripts/bench-cargo-debug.py:174-182 | The written text reads back as the kept records, so the final comparison of the source cannot fail. |
| `LockfileText.PruneTextIdempotent` | scripts/bench-cargo-debug.py:139-184 | Pruning the written text writes it again. |
| `LicenceReach.Reachable` | scripts/check-licences.py:76-89 | The stack loop returns the one least set closed under the followed edges, exactly when all of it and of the workspace has nodes; otherwise it stops at a package of them that has none. |
| `LicenceReach.Expand` | scripts/check-licences.py:80-88 | One package's dependencies: its new targets are seen and pushed, and the loop's invariant is kept. |
| `LicenceReach.LeastIsPathEnds` | scripts/check-licences.py:76-89 | That set is exactly what chains of followed edges from the workspace end at, outside the workspace. |
| `LicenceReach.LeastExists` | scripts/check-licences.py:76-89 | It exists for every graph, also one with missing nodes. |
| `LicenceReach.LeastUnique` | scripts/check-licences.py:76-89 | There is only one, so the result does not depend on the order of the stack. |
| `LicenceReach.LeastOnEdges` | scripts/check-licences.py:76-86 | On the edges themselves: a workspace member follows an edge with a kind asked for, any other package a normal or build one, and nothing is reached but over such an edge. |
| `LicenceReach.KindsMonotone` | scripts/check-licences.py:76-89 | More dependency kinds never reach less. |
| `LicenceReach.ShippedIsInspected` | scripts/check-licences.py:88-97 | What ships is among what the gate goes through, so no shipped package escapes it. |
| `LicenceGate.FlatExact` | scripts/check-licences.py:40-59 | On a flat disjunction of conjunctions `chosen` is sound and complete. |
| `LicenceGate.AtomicGroupExact` | scripts/check-licences.py:43-51 | So it is on `(A OR ..) AND C` and `C AND (A OR ..)` with single licences. |
| `LicenceGate.EndGroupPasses` | scripts/check-licences.py:46-51 | With the group at either end it is sound, whatever the parts. |
| `LicenceGate.CutPasses` | scripts/check-licences.py:52-52 | With the group elsewhere it passes exactly on a side alternative or a middle alternative of the group. |
| `LicenceGate.SoundIffNotMisread` | scripts/check-licences.py:40-59 | On parsed expressions: sound for every set of allowed licences exactly when no middle alternative of such a group can be read alone. |
| `LicenceGate.CompleteIffReadInFull` | scripts/check-licences.py:40-59 | On parsed expressions: complete for every set of allowed licences exactly when a group at an end stands with one licence and always has a single-licence alternative that holds, or one elsewhere always has a side or middle one. |
| `LicenceText.SplitJoin` | scripts/check-licences.py:52-52 | `split` undoes a join of pieces that do not hold the keyword as a word. |
| `LicenceText.FreeTwo` | scripts/check-licences.py:52-52 | A join with one keyword of texts free of the other is free of the other. |
| `LicenceChoice.FirstPattern` | scripts/check-licences.py:46-48 | On the text of an expression the first pattern matches only with the group in front and AND behind it, and its two parts are then the text inside and all the text behind, whichever match is found. |
| `LicenceChoice.SecondPattern` | scripts/check-licences.py:49-51 | The same for the second pattern and a group at the end. |
| `LicenceChoice.MatchAcross` | scripts/check-licences.py:46-51 | Both patterns match across any white space, with any groups without a line end. |
| `LicenceChoice.MatchedAcross` | scripts/check-licences.py:46-51 | And they match nothing else. |
| `LicenceChoice.PrintIsPieces` | scripts/check-licences.py:52-52 | The text of an expression is that of its pieces with ORs between them, parentheses left on their words. |
| `LicenceChoice.SlashIsOr` | scripts/check-licences.py:43-43 | The old form `A/B` is read as `A OR B`. |
| `LicenceChoice.AlternativesOfText` | scripts/check-licences.py:40-52 | `alternatives` of the text of any expression with at most one group returns exactly what its structure gives. |
| `LicenceChoice.Chosen` | scripts/check-licences.py:55-59 | The first of the alternatives whose parts are all allowed, or none if there is none. |
| `LicenceChoice.ChosenOfText` | scripts/check-licences.py:55-59 | On the text of an expression some alternative is allowed exactly when the structural reading passes. |
| `LicenceChoice.TextSoundIff` | scripts/check-licences.py:40-59 | Read from its text, an expression that is not met never passes, exactly when it cannot be misread. |
| `LicenceChoice.TextCompleteIff` | scripts/check-licences.py:40-59 | Read from its text, an expression that is met always passes, exactly when it is read in full. |
| `LicenceChoice.MisreadText` | scripts/check-licences.py:40-59 | The text `GPL-3.0 AND (A OR MIT OR B) AND GPL-2.0` passes on MIT alone. |
| `SourceScan.ItemLength` | scripts/check-port-invariants.py:83-93 | The inner loop finds the shortest finished stretch from the mark on, or the end of the file. |
| `SourceScan.BlankTests` | scripts/check-port-invariants.py:62-98 | `_blank_cfg_test` splits the text into items and other lines from left to right and blanks exactly the items. |
| `SourceScan.BlankedLines` | scripts/check-port-invariants.py:62-71 | The line count stays, lines only change to empty, no `#[cfg(test)]` line is left. |
| `SourceScan.BlankIdempotent` | scripts/check-port-invariants.py:62-98 | Blanking a blanked text changes nothing. |
| `SourceScan.TestMarkExact` | scripts/check-port-invariants.py:76-76 | A mark is `#[cfg(test)]` between white space. |
| `SourceScan.EndsStatementExact` | scripts/check-port-invariants.py:90-90 | A statement ends at a semicolon with nothing but white space behind it. |
| `SourceScan.CountExact` | scripts/check-port-invariants.py:89-89 | Braces are counted with their multiplicity. |
| `SourceScan.BracedItemBlanked` | scripts/check-port-invariants.py:79-97 | A marked braced item behind any text that leaves no item open, with marked items of its own or without, is blanked exactly, and the rest is treated as if it were alone. |
| `SourceScan.StatementBlanked` | scripts/check-port-invariants.py:79-97 | So is a marked statement ending in `;`. |
| `SourceScan.ItemBalanced` | scripts/check-port-invariants.py:83-93 | The blanked stretch is brace-balanced, line by line, exactly when what stands behind the mark is a braced item, a brace-free statement, or nothing but brace-free lines to the end of the file. |
| `SourceScan.MarkedFieldOverruns` | scripts/check-port-invariants.py:83-93 | A file with a marked struct field, where it is none of these: the closing brace of the struct and the first line of the next item are blanked. |
| `TypeShape.IsArrayType` | scripts/check-port-invariants.py:848-862 | The loop equals the scanner specification on any text. |
| `TypeShape.ScanStep` | scripts/check-port-invariants.py:853-861 | What each of the nine characters does to the depth and the answer, and that no other does anything. |
| `TypeShape.TypePasses` | scripts/check-port-invariants.py:848-862 | The text of any nested type, with arrows, inner arrays and lengths of any matched brackets, leaves the scanner at the depth it was at. |
| `TypeShape.ScanTellsArray` | scripts/check-port-invariants.py:848-862 | On the text of a slice or array type, whatever follows, the answer is whether its outermost bracket is `[T; N]`. |
| `CallNesting.InsideLoop` | scripts/check-port-invariants.py:552-563 | The backward walk finds a header exactly when one of the strict running minima of indentation above the call is one. |
| `CallNesting.WalkFindsEnclosingLoop` | scripts/check-port-invariants.py:546-551 | In laid-out code that is exactly when some block around the call, at any depth, is opened by a header. |
| `CallNesting.WhiteLine` | scripts/check-port-invariants.py:555-556 | A line of white space alone changes nothing. |
| `CallNesting.IndentIsStripped` | scripts/check-port-invariants.py:552-557 | The indent is the length less that of the left-stripped line. |
| `PythonText.IsSpaceExact` | scripts/check-port-invariants.py:554-558 | The twenty-nine characters of Python's `str.isspace`. |
| `PythonText.StripExact` | scripts/check-port-invariants.py:76-76 | `strip` takes white space from both ends, all of it and nothing else. |
| `BenchGate.VerdictIsBar` | scripts/bench-gate.py:61-70 | A query passes exactly when it did not mismatch and reaches one threshold, the larger of 1 and the reduced baseline. |
| `BenchGate.SummaryDecides` | scripts/bench-gate.py:107-109 | Best ratio and sticky mismatch decide what the whole history of measurements decides. |
| `BenchGate.Absorb` | scripts/bench-gate.py:118-121 | One pass's rows update the two dictionaries, in any order, and nothing else. |
| `BenchGate.Retry` | scripts/bench-gate.py:107-122 | Each retry asks exactly the queries that only ever failed on timing; it stops early only when none is left. |
| `BenchGate.Gate` | scripts/bench-gate.py:99-124 | Over every run a query ends as a failure exactly when one of its measurements mismatched or all failed on timing, with the reason its best measurement gives. |
| `BenchGate.NeverAfterPassOrMismatch` | scripts/bench-gate.py:106-122 | It is measured at most 1 + retries times, and never again after passing or mismatching. |
| `BenchGate.SlowUsesEveryPass` | scripts/bench-gate.py:107-122 | A listed, reported query that still fails on timing has used every retry. |

## Left out

- MergeCheck.CheckPostings: SHA-256 is taken as equality of the digested bytes, so collisions of the hash are not modelled; one field is checked, not the loop over all fields.
- Fnv.WindowNeverCollides: differences spread over more than four adjacent bytes are not covered; FNV-1a does have collisions there.
- VectorExact.StreamTellsVectorsIff: names and excluded terms have less than 800 bytes, so that every vector it speaks of has terms Lucene takes.
- VectorStream.WriteVectors: what the vectors of a field record is the same in all documents.
- PackedIndex.WalkInto: node ids are unbounded, which agrees with Java's 32-bit ids up to 2^30 leaves; cursor and list are left unspecified after a fault, where the source throws.
- LeafMarkers.ReadMarker: Lucene's packing of document ids (`DocIdsWriter.readInts`) is any function that says where the ids end.
- SegmentHeader.SegmentIdWrite: the id is compared as bytes, not as the hexadecimal string printed for it.
- MergeRanks.RanksByStoredFields: how stored fields are rendered into a key (`storedKey`) is not modelled; the key is taken as given.
- Manifest.PassIsIdempotent: programs are taken to write at least one line, all of it owned, as the sources do; other `Append*` programs differ only in owner and block.
- SpanParser.ParseIffSpells: the same-field checks of Lucene's span query constructors and non-ASCII decimal digits of `Integer.parseInt` are not modelled.
- Escape.Unesc: non-ASCII hexadecimal digits of `Integer.parseInt` are not modelled.
- LockfileText.PruneText: what the TOML parser reads in a record, and the pattern for dependency strings, are taken as given.
- LicenceChoice.AlternativesOfText: texts have single spaces and at most one parenthesised group, and names do not hold a keyword as a word.
- TypeShape.ScanTellsArray: names hold no bracket and no `;` and do not end in a dash.
- CallNesting.InsideLoop: the two header patterns are one predicate on lines.
- SparseIndex.ScoreQuery: weights are real numbers; rounding is not modelled. The random vectors of `vector` are inputs.
- BenchGate.Gate: ratios are real numbers without NaN; what a measuring pass answers is an input, and a query absent from an answer is not measured again.
- Doc values, points, norms, stored fields and vectors in `BwcDump` and `describe`: their streams are not modelled, nor whether the stored-fields stream, which numbers documents and does not count fields, is uniquely decodable.
- The tab-separated `rows` of `AnalysisRows`: the escape results already say that a row splits back.
- Lucene, ICU4J, the JDK, numpy, Docker, HTTP, file I/O, command lines and printed summaries.
