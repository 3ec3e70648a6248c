# uncrustify core passes in Dafny

A model of four self-contained pieces of the uncrustify source-code
beautifier, with proofs about them:

- **In-brace alignment** (`src/align_tools.cpp`). `scan_ib_line` walks one
  entry of a brace-enclosed initializer list. It builds or matches a table of
  (token type, column, width) alignment slots that persists from entry to
  entry, and pushes slots to the right with `ib_shift_out` when an entry needs
  more room. `skip_c99_array` recognises a C99 designator `[x] =` so that the
  scan starts at the value instead. `step_back_over_member` walks back over
  `name ::` pairs. The global table `cpd.al` / `cpd.al_cnt` is a `seq<Slot>`
  passed in and returned. The process exit on table overflow is a `Failure`.
- **Character-encoding codecs** (`src/unicode.cpp`):
  - ASCII detection and byte decoding;
  - UTF-8 encoding and decoding with the original up-to-6-byte scheme of section 2 of RFC 2279;
  - UTF-16 decoding with surrogate pairs (section 2.2 of RFC 2781);
  - byte-order-mark detection (section 3.2 of RFC 2781);
  - the byte sequence `write_utf16` emits (section 2.1 of RFC 2781), as a pure function;
  - the `decode_unicode` fallback chain.
- **Token utilities** (`src/combine_tools.cpp`): the upper-case test, the
  statement-continuation test, the chunk-stack text match, the template-angle
  nesting count, the flag-range update and word-to-type promotion.
- **Token markers** (`src/combine_fix_mark.cpp`): the C# `where` clause
  marker, the embedded-SQL marker, the variable-stack marker and the
  expression-start marker of `#define` / `#if` / `#else` lines.

Chunks live in an immutable, index-addressed `seq<Token>`. A position is a
`Ref`, with `Null` standing for uncrustify's null chunk. The
next/previous/matching links are functions of the index (module `Tokens`).
Byte-level bit operations are written arithmetically: `& 0x3f` is `% 0x40`,
`>> 6` is `/ 0x40`, and `|` on disjoint bit ranges is `+`.

Files: `wrappers.dfy` (Option/Result), `tokens.dfy` (chunk list and
navigation), `align_tools.dfy`, `unicode_utf8.dfy`, `unicode_utf16.dfy`,
`unicode.dfy`, `combine_tools.dfy`, `combine_fix_mark.dfy`.

`step_back_over_member` returns its input unchanged when the previous
meaningful chunk is not `::`. Otherwise it returns the leftmost name of the
`A :: B :: …` chain.

## Model

| member | source | states |
|---|---|---|
| AlignTools.SkipC99Array | src/align_tools.cpp:16-28 | A result exists exactly when the chunk is `[`, its matching `]` is followed after comments by `=`; the result is then the first non-comment chunk after the `=` (or the null chunk) |
| AlignTools.IbShiftOut | src/align_tools.cpp:155-162 | Every slot from `idx` to the end moves right by `num`; earlier slots, types, widths and the table length are unchanged (so nothing happens for `idx` past the end or `num == 0`) |
| AlignTools.Realign | src/align_tools.cpp:116-141 | After a chunk matches slot `idx`, the table tail from `idx` moves right by one common amount and nothing else changes. On the first match of the entry the amount is the chunk's column minus the slot's column when positive, else 0, so the slot ends at the larger of the two. On a later match with `idx > 0` the amount is the shortfall of the slot's gap to slot `idx - 1` against the gap between the chunk and the previous match, else 0, so the gap is at least the natural gap and the old gap. On a later match at `idx == 0` the table is unchanged |
| AlignTools.ScanStep | src/align_tools.cpp:63-147 | One loop iteration: no change when the raw next chunk is null or a comment or the chunk is not `=`/`{`/`}`/`,`; otherwise `prev_match` becomes the chunk; at a new index exactly one slot (type, column, width) is appended and reaching the capacity fails with the chunk's position; a slot of another type leaves table and index alone; a slot of the same type advances the index and realigns the table there; columns never decrease and the table stays below capacity |
| AlignTools.ScanFrom | src/align_tools.cpp:59-151 | The loop stops at the first examined chunk (start, then each non-comment chunk) that is null, a newline or below the start level, and returns it; the table only grows and no column moves left |
| AlignTools.ScanFromBound | src/align_tools.cpp:59-151 | A scan adds at most one slot per claiming chunk it examines (an `=`, `{`, `}` or `,` whose raw next chunk exists and is not a comment), and fails only when those claims would fill the table to the capacity |
| AlignTools.ScanFromFresh | src/align_tools.cpp:59-151 | When every table position is new, the scan appends exactly the slots (type, column, width) of the claiming chunks, in order, if they fit below the capacity; otherwise it fails at the claiming chunk that reaches the capacity, with that chunk's line and column |
| AlignTools.ScanIbLineBound | src/align_tools.cpp:31-152 | A line's scan grows the table by at most the number of claiming chunks on the line, and fails only when they are at least as many as the free positions |
| AlignTools.ScanIbLineFresh | src/align_tools.cpp:31-152 | Scanned into an empty table, a line yields one slot per claiming chunk, in order, when there are fewer than the capacity; otherwise it fails at the claiming chunk that reaches the capacity |
| AlignTools.ScanIbLine | src/align_tools.cpp:31-152 | Without a designator the chunks and the C99 flag are unchanged; with one the `[` alone gets parent `TSquare`, the C99 flag is set and the scan starts at the value; the end is the first break from the actual start; a successful scan extends the table and leaves it below capacity |
| AlignTools.StepBackOverMember | src/align_tools.cpp:165-181 | The result is the input unless the previous non-comment, non-newline chunk is `::`; it lies at or before the input; the chunk before the result is never `::` |
| AlignTools.StepBackHops | src/align_tools.cpp:165-181 | The result is reached by some number `n` of hops back over `name ::` pairs. Every hop point before the `n`-th has a `::` before it, and the result has none, so the result is the leftmost name of the chain |
| AlignTools.StepBackHopCount | src/align_tools.cpp:171-180 | The loop makes exactly the hops of the chain: it ends after the first hop point without a `::` before it |
| AlignTools.StepBackFrom | src/align_tools.cpp:171-180 | The loop of `step_back_over_member`: it ends at a chunk whose previous meaningful chunk is not `::`, moves only when that chunk is `::`, and only ever moves back |
| AlignTools.StepBackQualifiedName | src/align_tools.cpp:171-180 | In `bool CFoo::bar`, stepping back from `bar` yields `CFoo` |
| AlignTools.StepBackNestedQualifiedName | src/align_tools.cpp:165-181 | In `A :: /* c */ B::c`, stepping back from `c` yields `A`, skipping the comment |
| Unicode.IsAscii | src/unicode.cpp:66-85 | The data is ASCII iff every byte is in 1..0x7F; the non-ASCII count is zero iff no byte has the high bit, the zero count is zero iff no byte is zero |
| Unicode.DecodeBytes | src/unicode.cpp:88-98 | The output has one code point per byte, equal to the byte |
| Unicode.DecodeBom | src/unicode.cpp:351-381 | FE FF means UTF-16 BE, FF FE UTF-16 LE, EF BB BF UTF-8, each with `true`; anything else is ASCII with `false` (both directions) |
| Unicode.DecodeUnicode | src/unicode.cpp:384-428 | `has_bom` is true exactly when a mark was found; without a mark the call always succeeds, it is ASCII exactly when `is_ascii` says so, and ASCII or byte results equal the input bytes; unmarked non-ASCII data is read as UTF-16 when more than a quarter and at most half of its bytes are zero and that decode succeeds, else as UTF-8 when that decode succeeds, else as raw bytes, and a byte result means UTF-8 failed |
| Unicode.Utf8Unmarked | src/unicode.cpp:384-428 | Unmarked UTF-8 text of positive code points, with at least one outside ASCII and not starting with U+FEFF, decodes to exactly those code points as UTF-8 without `has_bom` |
| Unicode.BomOfEncodedFeff | src/unicode.cpp:351-381 | The encoded U+FEFF in UTF-16 BE/LE or UTF-8 is recognised as the matching mark whatever follows |
| Unicode.Utf16RoundTrip | src/unicode.cpp:384-428 | Decoding a UTF-16 mark followed by the encoding of any scalar values yields them, with the right byte order and `has_bom` |
| Unicode.Utf8RoundTrip | src/unicode.cpp:384-428 | Decoding a UTF-8 mark followed by the UTF-8 encoding of any non-negative code points yields them, as UTF-8 with `has_bom` |
| Unicode.AsciiUnchanged | src/unicode.cpp:384-407 | Data of bytes 1..0x7F decodes as ASCII, unchanged, without a mark |
| Utf8.EncodedLength | src/unicode.cpp:101-152 | An encoded length is between 1 and 6 |
| Utf8.EncodeUtf8 | src/unicode.cpp:101-152 | Negative input gives no bytes; otherwise 1..6 bytes by range (<0x80, <0x800, <0x10000, <0x200000, <0x4000000, the rest); a single byte is the code point; every byte after the first is 10xxxxxx and the first of a longer sequence is a lead byte |
| Utf8.LeadByte | src/unicode.cpp:175-211 | A byte is rejected as lead exactly when it is 0x80-0xBF, 0xFE or 0xFF; otherwise at most five continuation bytes follow |
| Utf8.DecodeSequences | src/unicode.cpp:173-233 | A bad lead byte fails; a successful decode yields no more code points than bytes |
| Utf8.DecodeUtf8 | src/unicode.cpp:155-234 | A successful decode yields no more code points than bytes |
| Utf8.AccumulateConts | src/unicode.cpp:213-224 | Accumulating the six-bit continuation payloads of `x` onto its top bits gives back `x` |
| Utf8.EncodeShape | src/unicode.cpp:101-152 | The encoding of a code point is a lead byte giving its top bits and continuation count, followed by its six-bit groups |
| Utf8.DecodeEncoded | src/unicode.cpp:101-233 | Decoding the encoding of one code point followed by anything yields the code point followed by the decoding of the rest |
| Utf8.DecodeSequencesEncodeAll | src/unicode.cpp:101-233 | The decoding loop inverts encoding on any sequence of non-negative code points |
| Utf8.EncodeLeadEF | src/unicode.cpp:101-152 | A 3-byte encoding begins EF BB BF exactly for U+FEFF |
| Utf8.OnlyFeffStartsWithBom | src/unicode.cpp:162-171 | An encoded text begins with EF BB BF exactly when its first code point is U+FEFF |
| Utf8.RoundTrip | src/unicode.cpp:101-234 | Decoding the encoding of non-negative code points not starting with U+FEFF gives them back |
| Utf8.RoundTripOne | src/unicode.cpp:101-234 | For one code point other than U+FEFF, decoding its encoding yields exactly it |
| Utf8.FeffIsSwallowed | src/unicode.cpp:162-171 | U+FEFF encodes as EF BB BF, which the decoder skips, yielding nothing |
| Utf8.MarkedDecodeAll | src/unicode.cpp:155-234 | Encoded U+FEFF followed by the encoding of any non-negative code points starts with the UTF-8 mark and decodes to exactly those code points |
| Utf8.TruncatedRejected | src/unicode.cpp:213-230 | A multi-byte sequence cut short by the end of the data is rejected |
| Utf8.BadContinuationRejected | src/unicode.cpp:213-222 | A multi-byte sequence with any continuation byte not 10xxxxxx is rejected |
| Utf8.BadLeadRejected | src/unicode.cpp:175-211 | Data starting with 0x80-0xBF, 0xFE or 0xFF is rejected |
| Utf16.GetWord | src/unicode.cpp:237-255 | The index always advances by 2; -1 exactly when fewer than 2 bytes remain; otherwise the 16-bit word in the given byte order |
| Utf16.DecodeWords | src/unicode.cpp:317-347 | A successful decode yields only scalar values (no surrogates, at most U+10FFFF) |
| Utf16.DecodeUtf16 | src/unicode.cpp:258-348 | Odd length or fewer than 2 bytes fails with the encoding untouched; a success reports UTF-16 BE or LE |
| Utf16.WordBytes | src/unicode.cpp:475-484 | A word is written as two bytes |
| Utf16.Utf16Bytes | src/unicode.cpp:467-512 | Nothing is written exactly for non-scalar values; one word below U+10000, a surrogate pair above |
| Utf16.GetWordBytes | src/unicode.cpp:237-255 | Reading back a written word at its position yields the word |
| Utf16.DecodeWordsEncoded | src/unicode.cpp:317-347 | Decoding the bytes of one scalar value followed by anything yields the value followed by the decoding of the rest |
| Utf16.DecodeWordsAll | src/unicode.cpp:317-347 | The decoding loop inverts `write_utf16` on any sequence of scalar values |
| Utf16.Utf16AllEven | src/unicode.cpp:467-512 | Written UTF-16 always has an even length |
| Utf16.RoundTrip | src/unicode.cpp:258-348 | A mark followed by the bytes written for scalar values decodes to them, in the byte order written |
| Utf16.LoneLowSurrogateRejected | src/unicode.cpp:335-345 | A low surrogate not preceded by a high one fails the decode |
| Utf16.UnpairedHighSurrogateRejected | src/unicode.cpp:321-330 | A high surrogate not followed by a low one fails the decode |
| Utf16.SurrogatePairDecoded | src/unicode.cpp:321-333 | A high/low pair decodes to 0x10000 plus the ten bits of each |
| CombineTools.ToUpper | src/combine_tools.cpp:515 | ASCII lower-case letters map to the upper-case letter 32 code points below; every other character is unchanged |
| CombineTools.IsUcaseStr | src/combine_tools.cpp:511-522 | True iff each of the first `len` characters equals its upper-case form (vacuously for `len == 0`) |
| CombineTools.UcaseMeansNoLowerLetter | src/combine_tools.cpp:511-522 | A prefix is upper case exactly when it holds no lower-case ASCII letter |
| CombineTools.GoOn | src/combine_tools.cpp:493-508 | False for the null chunk or another level; at the start's level false exactly on a semicolon, and inside a `for` also on a colon |
| CombineTools.ChunkstackMatch | src/combine_tools.cpp:391-404 | True iff some stack entry has the chunk's text |
| CombineTools.NestWalk | src/combine_tools.cpp:435-461 | The backward walk yields 0 outside a template. For any stretch of template chunks ending at the chunk, bounded before by a real chunk outside the template or the list start, it equals the count of template `<` minus template `>` over that stretch; it stays between minus the `>` count and the `<` count up to the chunk |
| CombineTools.CountAnglesMonotone | src/combine_tools.cpp:435-461 | The count of template angles of one kind grows by one exactly at each such angle |
| CombineTools.SkippedBalanced | src/combine_tools.cpp:458 | Comments, newlines and ignored chunks, which the walk skips, add no template angles |
| CombineTools.TemplateAngleNestLevel | src/combine_tools.cpp:435-461 | 0 for the null chunk and outside a template. Inside one, for the stretch the walk covers, it is the template `<` count minus the `>` count over the stretch, clamped at 0; never above the `<` count up to the chunk |
| CombineTools.NestLevelCountsAngles | src/combine_tools.cpp:435-461 | For every chunk: 0 outside a template; inside one, a stretch back to the previous real chunk outside the template (or the list start) exists, and the level is that stretch's `<` minus `>` count, clamped at 0 |
| CombineTools.TemplateRunFrom | src/combine_tools.cpp:445-459 | Scanning back from a template chunk always finds where the walk's stretch begins |
| CombineTools.NestLevelAfterPlainCode | src/combine_tools.cpp:435-461 | In `x template < int` the walk from `int` stops at `x`, which is outside the template, and the level is 1 |
| CombineTools.FlagSeries | src/combine_tools.cpp:407-432 | Only flags change, each chunk either unchanged or updated to `(flags - clear) + set`. With plain navigation exactly the chunks from start to end get the update, or those to the end of the list when end is never reached; a null start updates only end |
| CombineTools.FlagSeriesInScope | src/combine_tools.cpp:407-432 | With preprocessor-scoped navigation and an update that leaves `InPreproc` alone, exactly the chunks of the scoped chain get the update. Inside a directive the chain is the unbroken run of directive chunks from start; outside, every non-directive chunk from start. It stops at end when end is on it; otherwise end is left alone |
| CombineTools.MakeType | src/combine_tools.cpp:525-549 | The null chunk changes nothing and only the chunk's type can change. A word becomes a type. Otherwise a pointer mark after a type chunk becomes a pointer type. Otherwise an address mark not after `[` becomes a by-reference mark. Otherwise nothing changes; a missing previous chunk is neither a type nor `[` |
| CombineTools.MakeTypeIdempotent | src/combine_tools.cpp:525-549 | When the classifiers look at the token type, applying `make_type` a second time changes nothing |
| FixMark.MarkWhereChunk | src/combine_fix_mark.cpp:2581-2614 | `where` becomes a where-spec with the given parent and the flags gain `InWhereSpec`; other chunks keep the flags; inside a clause `:` becomes a where-colon and `class`/`struct` a word; the chunk carries `InWhereSpec` iff the returned flags do |
| FixMark.MarkWhereChunkIdempotent | src/combine_fix_mark.cpp:2581-2614 | Marking a chunk again with the returned flags changes nothing |
| FixMark.FirstOfKind | src/combine_fix_mark.cpp:983-997 | The first index from a position holding a given kind, or none |
| FixMark.MarkExecSql | src/combine_fix_mark.cpp:978-1012 | Chunks after `pc` up to the first semicolon get `pc`'s type as parent and words become SQL words; only after `EXEC SQL BEGIN` with a semicolon do the chunks strictly between it and the next `EXEC SQL END` go one level deeper; nothing else changes |
| FixMark.TagSqlStatement | src/combine_fix_mark.cpp:983-997 | The first loop tags exactly the chunks after `pc` through the first semicolon, and reports that semicolon |
| FixMark.IndentSqlBlock | src/combine_fix_mark.cpp:1005-1011 | The second loop deepens exactly the chunks from the start up to, not including, the first `EXEC SQL END` |
| FixMark.IndentSqlBody | src/combine_fix_mark.cpp:998-1011 | After `EXEC SQL BEGIN ...;`, deepening the block completes the marking `mark_exec_sql` promises at every index |
| FixMark.MarkVariableStack | src/combine_fix_mark.cpp:2525-2578 | The stack is handed back empty; an empty stack changes nothing; chunks not on the stack are unchanged; every type entry that is a word or type becomes a `VarType` type; the variable name, if a word, gets `VarDef` after other entries and becomes a type otherwise |
| FixMark.MarkDefineExpressions | src/combine_fix_mark.cpp:918-975 | Each chunk is left exactly as the directive state machine run over all chunks before it prescribes: flagged `ExprStart` when selected, otherwise unchanged |
| FixMark.FirstAfterDirectiveMarked | src/combine_fix_mark.cpp:927-970 | After `#define`/`#if`/`#else`, the first chunk of the line that is not a macro name is flagged |
| FixMark.EndOfDirectiveResets | src/combine_fix_mark.cpp:939-945 | A chunk outside the preprocessor or a new directive is never flagged and ends the directive |

## Left out

- `write_byte`, `write_char`, `write_string`, `write_bom` and the output half of `write_utf8` / `write_utf16` (src/unicode.cpp:431-580) write to the output file; only the byte sequences they emit are modelled.
- Partial output of a failed decode is not modelled. A failing decoder returns `None`, and `DecodeUnicode` reports empty text.
- The overflow report on the error stream, the log flush and the process exit in `scan_ib_line` become a `Failure` carrying the line, column and capacity.
- `AL_SIZE` is defined in a header that is not part of this model, so the table capacity is a parameter `cap`.
- `space_col_align` is defined elsewhere, so the slot width is an uninterpreted parameter `width`.
- Columns are unbounded naturals. The `int` conversions of column differences in `scan_ib_line` are exact only below 2^31, and wrap-around beyond that is not modelled.
- All `LOG_FMT` logging and `src/log_rules.cpp` are not modelled: they only write logs.
- `unc_toupper` is modelled as ASCII upper-casing; locale-dependent case mapping is not modelled.
- `make_type`'s pointer test (`IsStar`, `chunk_is_msref` or `chunk_is_nullable`), its address test (`chunk_is_addr`) and its type test (`chunk_is_type`) are defined elsewhere, so they are function parameters.
- The chunk navigation of `chunk.cpp` (`GetNext`, `GetNextNc`, `GetPrevNcNnl`, `GetPrevNcNnlNi`, `SkipToMatch`, scoped `GetNext`) is not part of this model. It is rebuilt in `Tokens` from the meaning of the names; the preprocessor scope skips a whole directive.
- The `ChunkStack` type is a sequence of chunk indices, top last.
- The remaining functions of `src/combine_fix_mark.cpp` (`fix_casts`, `mark_function`, `fix_typedef`, `mark_lvalue` and the other heuristics) depend on helpers and options that are not part of this model.
- `can_be_full_param`, `chunk_ends_type` and `set_paren_parent` in `src/combine_tools.cpp` are heuristics or depend on helpers that are not part of this model.
- `get_d_template_types` (src/combine_tools.cpp:464-490) is not modelled. Its loop guard `tmp->IsNullChunk() && …` never holds on a real chunk, so its body never runs.
- `src/combine_labels.cpp` and `src/flag_braced_init_list.cpp` rest on language options and lexer state that are not part of this model.
- CombineTools.GoOn: its contract is `go_on`'s own case split on the chunk's level, `;` and `for`-colon, stated as an equivalence; no separate reference definition exists to relate it to.
- CombineTools.FlagSeries: with preprocessor-scoped navigation and an update that sets or clears `InPreproc`, the updated flags change the navigation itself; only the per-chunk "unchanged or updated" bound is stated for that case.
- Utf16.DecodeUtf16: its contract states only the length rejections and the reported encoding. Decoding itself is stated by `DecodeWords` and the round-trip and rejection lemmas.
- Utf8.DecodeUtf8: its contract states only the length bound. Rejection, byte-order-mark skipping and round trips are separate lemmas.
