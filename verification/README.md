# Cargo Optic, verified

Cargo Optic captures what the compiler made of a crate: its concrete functions, where they were
placed, their source ranges, and their optimized LLVM. It keeps the result in a local store and
answers queries about it. This project models the path from LLVM text and driver records to a durable,
queryable capture, and proves what that path promises. It verifies with Dafny 4.11:
`dafny verify dfyconfig.toml`.

## Components

**Indexer.** `Stream.dfy` and `Indexer.dfy` are the loops of the LLVM indexer over an 8 KiB chunk and a
reader that splits its input as it likes. Each method is proved equal to a function of the complete
input (`Lexis.dfy`, `Grammar.dfy`), so the index cannot depend on reads. What those functions mean is
proved apart from their code: tokens are the longest words and whole quoted names, and groups are
balanced (`Tokens.dfy`); bodies end where an independent grammar of comments, quotations and braces
says, and where the stack-based group ends (`Bodies.dfy`); a header (`Headers.dfy`) is the parts that
stand in it, in terms of tokens and groups (`Parts.dfy`); an index succeeds exactly where the input has a
tiling, which is its only one, and is then its records, and fails where no tile stands (`Ranges.dfy`);
names are spelled where their record's header says (`Naming.dfy`); a token is decoded exactly to the
bytes that it stands for, and quoting is the inverse (`Symbols.dfy`); and how far a header's reads reach decides whether its budget matters, and which bytes
do (`Budgets.dfy`).

**Store.** `Store.dfy` publishes step by step through the bounded writer (`RecordIo.dfy`) and the chunked
copy (`Copies.dfy`), and can stop before any step. `Histories.dfy` proves what every sequence of attempts
keeps and what each request's candidate is after it. `Listings.dfy` proves the listing canonical.

**Capture.** `Wrapper.dfy` decides compiler invocations, `Prepared.dfy` classifies Cargo attempts, and
`Captures.dfy` proves over every run, with the project's inputs changing at any time, that a candidate
which Cargo can call fresh is what compiling the current inputs would give. `Sessions.dfy` is the
capture operation itself, against a Cargo that does anything its rules allow, and compiles whatever
the wrapper lets through. A session keeps what each Cargo run left, and this record decides what a probe
answers, what a collection returns, and whether a capture is reused. Its evidence is what `Drivers.dfy` reads back of the driver's own stream.

**Manifest stream.** `Wire.dfy`, `Protocol.dfy` and `Codec.dfy` prove that exactly the encodings are
accepted, and that no accepted stream continues another. `Writer.dfy`, over a file that can fail at any
byte, and `Decoder.dfy` are the two ends. `Utf8.dfy` says what text is, and `Paths.dfy` what paths are
equal. `Groups.dfy` proves what decoding makes of a record sequence
and that interleaving is irrelevant.

**Evidence.** `Records.dfy`, `Manifests.dfy` and `Collection.dfy` check and build the evidence graph, and
`Assembly.dfy` runs from the driver's bytes to a capture's manifest. `Aliases.dfy`, `Queries.dfy` and
`Search.dfy` are the queries, and `Answers.dfy` says what LLVM answers mean in terms of the definitions.
`Evidence.dfy` follows a query's range to the bytes that a copy writes, which for an LLVM body are a
whole definition of the function. `Sorting.dfy` has the orders of all listings.
`References.dfy` is the text of references.

## Assumptions

- Cargo calls a token fresh only if that token was compiled on the inputs of the moment of its check.
  That moment can be anywhere in the run, and inputs may change before the run returns.
- The file under a module's new ID that is published is the text that was disassembled and indexed. This is
  the hypothesis of `Evidence.CollectedTextsAreHeld`, and of nothing before it.
- What the driver makes of a compilation, its records and the files beside them, is a function of the
  request and the inputs, and collection finds these files.
- One Cargo run analyzes the selected target at most once, and that analysis reads one state of the
  inputs. Cargo may call the wrapper any number of times, and inputs may change between calls.
- Generated tokens were never used before. Capture IDs need no such assumption: a repeated one is refused.
- One operation runs at a time, and nothing else changes the store.
- Creating an existing directory fails, and a rename is one step.
- A file accepts a fixed number of bytes and then fails; a reader delivers a fixed content and then
  ends or fails. Both are arbitrary.

## Where code and documentation differ

All placements of one instance are said to agree on their source
(`crates/cargo-optic-compiler/src/manifest/mod.rs:83`). The code compares display paths by their
components, so two records may spell one path differently; the first spelling is kept.
`Groups.SpellingIsNoConflict` is an input, and `Groups.PlacementIsRejectedExactly` says exactly which
records are rejected.

## Model

| member | source | states |
|---|---|---|
| Streams.Reader.Fill | crates/cargo-optic-compiler/src/llvm_index/stream.rs:91-101 | The reader is an oracle: a read delivers any nonempty prefix of what is left, is interrupted finitely often, or reports the end. |
| Streams.Stream.Peek | crates/cargo-optic-compiler/src/llvm_index/stream.rs:82-88 | Looks at the byte at the absolute offset of the complete input, refilling when the chunk is exhausted, and consumes nothing. |
| Streams.Stream.Refill | crates/cargo-optic-compiler/src/llvm_index/stream.rs:91-101 | Retries interrupted reads and replaces an exhausted chunk by the next bytes of the input, without moving the offset; the end and a failure are told apart. |
| Streams.Stream.Take | crates/cargo-optic-compiler/src/llvm_index/stream.rs:104-122 | Consumes one byte, or fails exactly when the header budget or the u64 offset is used up; equals the read on the complete input. |
| Streams.Stream.BeginHeader | crates/cargo-optic-compiler/src/llvm_index/stream.rs:72-74 | Starts a header budget at an earlier offset and changes nothing else. |
| Streams.Stream.EndHeader | crates/cargo-optic-compiler/src/llvm_index/stream.rs:77-79 | Ends the header budget and changes nothing else. |
| Streams.Stream.SkipLine | crates/cargo-optic-compiler/src/llvm_index/stream.rs:125-133 | Equals skipping one line of the complete input, whatever the chunks. |
| Streams.Stream.SkipTrivia | crates/cargo-optic-compiler/src/llvm_index/stream.rs:145-163 | Equals skipping whitespace and comments of the complete input; a newline or comment ends it where asked. |
| Streams.Stream.ReadToken | crates/cargo-optic-compiler/src/llvm_index/stream.rs:139-183 | Returns the same token, offset or error as on the complete input, for every split into reads, and buffers no more than the header limit, also for tokens it rejects. Demands an active header budget, as the source asserts. |
| Streams.Stream.RequiredToken | crates/cargo-optic-compiler/src/llvm_index/stream.rs:186-189 | The same, with the end of the input as an error at its offset. |
| Streams.Stream.Expect | crates/cargo-optic-compiler/src/llvm_index/stream.rs:192-203 | The same, with any other token as an error at its offset. |
| Streams.Stream.CompleteToken | crates/cargo-optic-compiler/src/llvm_index/stream.rs:206-228 | Gathers exactly the bytes from the first one to the end of the token; no buffer on the way is longer than the header limit. |
| Streams.Stream.CompleteQuotedToken | crates/cargo-optic-compiler/src/llvm_index/stream.rs:231-247 | Gathers a quoted token through its closing quote, or fails where the complete input does. |
| Streams.Stream.CompleteQuotedEscape | crates/cargo-optic-compiler/src/llvm_index/stream.rs:250-273 | Gathers a doubled backslash or two hex digits, or fails where the complete input does. |
| Streams.Stream.ConsumeGroup | crates/cargo-optic-compiler/src/llvm_index/stream.rs:278-314 | The stack loop equals the recursive group of the complete input, and its stack is never deeper than what the header has consumed, so never deeper than the header limit. |
| Streams.Stream.SkipBody | crates/cargo-optic-compiler/src/llvm_index/stream.rs:330-395 | The loop over depth, quoted and escape digits equals the body automaton on the complete input. |
| Lexis.Take | crates/cargo-optic-compiler/src/llvm_index/stream.rs:104-122 | A read stays inside the input and the budget, and an exhausted budget is reported exactly one limit after the header started. |
| Lexis.ClassesAre | crates/cargo-optic-compiler/src/llvm_index/stream.rs:461-484 | Every class of bytes is exactly these ASCII codes, and each opening delimiter has its own closing one. |
| Lexis.QuotedIsEscaped | crates/cargo-optic-compiler/src/llvm_index/stream.rs:231-247 | An accepted quoted token holds only whole escapes and ends with its first bare quote. |
| Lexis.ReadToken | crates/cargo-optic-compiler/src/llvm_index/stream.rs:139-183 | A token is the input between two offsets, in the order read, and well formed for decoding. |
| Tokens.TokenIff | crates/cargo-optic-compiler/src/llvm_index/stream.rs:139-228 | A token is read exactly where its text stands after spaces, newlines and comments: the longest word with its sigil, a quoted text or name up to the first bare quote, or one byte of punctuation. |
| Tokens.LineTokenIff | crates/cargo-optic-compiler/src/llvm_index/stream.rs:139-183 | The same where a newline ends the header: the token stands after spaces on the same line. |
| Tokens.LineEndIff | crates/cargo-optic-compiler/src/llvm_index/stream.rs:139-163 | No token is found exactly where spaces, and a comment if there is one, are all that is left of the line. |
| Tokens.GroupIff | crates/cargo-optic-compiler/src/llvm_index/stream.rs:278-314 | A group is accepted exactly if its tokens are balanced, each delimiter closed by its own kind, and it ends at the delimiter that closes it. |
| Symbols.DecodeInPlace | crates/cargo-optic-compiler/src/llvm_index/stream.rs:400-442 | The in-place loop stays in bounds, writes behind its read index, and leaves exactly the unescaped text. |
| Symbols.DecodeEscape | crates/cargo-optic-compiler/src/llvm_index/stream.rs:445-458 | One escape yields the next byte of the unescaped text and moves past exactly that escape. |
| Symbols.DecodeSymbol | crates/cargo-optic-compiler/src/llvm_index/stream.rs:400-442 | Decoding a token gives its name, or an error at its offset for a non-global or non-UTF-8 one. |
| Symbols.DecodeIs | crates/cargo-optic-compiler/src/llvm_index/stream.rs:400-442 | A token is decoded exactly if it is a word, which is a number if it starts with a digit, or a quoted text, whose bytes stand for themselves, for a doubled backslash, or for two hex digits; any other token, and a name that is not UTF-8, is malformed where it starts. |
| Symbols.EscapedIs | crates/cargo-optic-compiler/src/llvm_index/stream.rs:231-247 | Quoted text is well formed exactly if it stands for some name, byte by byte. |
| Symbols.UnescapeInvertsQuote | crates/cargo-optic-compiler/src/llvm_index/stream.rs:400-442 | Unescaping inverts quoted-name escaping for every byte string. |
| Symbols.DecodeInvertsQuotedName | crates/cargo-optic-compiler/src/llvm_index/stream.rs:206-273 | Tokenizing and decoding a quoted global returns its name for every nonempty byte string that is UTF-8, and otherwise fails at its offset. |
| Indexer.ConsumeOpenedGroup | crates/cargo-optic-compiler/src/llvm_index/header.rs:233-247 | Consumes a token's own group exactly as on the complete input. |
| Indexer.ConsumeParenGroup | crates/cargo-optic-compiler/src/llvm_index/header.rs:29-30 | A parenthesis and its group, exactly as on the complete input. |
| Indexer.ConsumeConstant | crates/cargo-optic-compiler/src/llvm_index/header.rs:159-231 | A constant after its first token, exactly as on the complete input, on every branch. |
| Indexer.ConsumeTypedConstant | crates/cargo-optic-compiler/src/llvm_index/header.rs:145-157 | A typed constant, exactly as on the complete input. |
| Indexer.ReadFunctionName | crates/cargo-optic-compiler/src/llvm_index/header.rs:15-28 | The loop stops at the same first global token, with the same symbol, as on the complete input. |
| Indexer.ReadFunctionSuffix | crates/cargo-optic-compiler/src/llvm_index/header.rs:32-47 | The loop stops after the same opening brace as on the complete input. |
| Indexer.ReadFunction | crates/cargo-optic-compiler/src/llvm_index/header.rs:11-48 | A function header gives the same symbol, stop or error for every split of the input. |
| Indexer.ConsumeAliasType | crates/cargo-optic-compiler/src/llvm_index/header.rs:63-80 | An alias type through its comma, as on the complete input. |
| Indexer.ReadAliasOperand | crates/cargo-optic-compiler/src/llvm_index/header.rs:82-109 | An alias operand keeps only a direct global target, as on the complete input. |
| Indexer.ConsumeAliasSuffix | crates/cargo-optic-compiler/src/llvm_index/header.rs:111-140 | Partition and metadata suffixes through the end of the line, as on the complete input. |
| Indexer.ReadAliasTarget | crates/cargo-optic-compiler/src/llvm_index/header.rs:51-143 | A whole alias or ifunc gives the same target, stop or error for every split. |
| Indexer.ReadGlobalKind | crates/cargo-optic-compiler/src/llvm_index/scanner.rs:117-178 | The kind after any modifiers, or nothing after a variable's line, as on the complete input. |
| Indexer.ReadGlobalDefinition | crates/cargo-optic-compiler/src/llvm_index/scanner.rs:74-96 | One `@` line gives the same record, stop or error for every split. |
| Indexer.ReadKeywordPrefix | crates/cargo-optic-compiler/src/llvm_index/scanner.rs:99-115 | Probes at most six bytes, never past a newline, whatever the chunks. |
| Indexer.Scan | crates/cargo-optic-compiler/src/llvm_index/scanner.rs:25-72 | The scan loop returns the definitions of the rest of the input, or its first error, and ends because bytes run out; what these are is said by `Ranges.IndexIsExactly` and `Ranges.IndexFailsAt`. |
| Indexer.Index | crates/cargo-optic-compiler/src/llvm_index/scanner.rs:21-23 | The definitions, or the error with its offset, depend only on the input's bytes and how it ends, never on how reads split it; `Ranges.IndexIsExactly` says which inputs have them, and `Ranges.IndexFailsAt` where the others fail. |
| Bodies.BodyEndsWhereGroupEnds | crates/cargo-optic-compiler/src/llvm_index/stream.rs:231-395 | Where the stack-based group accepts a brace group, the constant-memory body scan accepts too and stops at the same offset. |
| Bodies.BodyAcceptsExactlyBodies | crates/cargo-optic-compiler/src/llvm_index/stream.rs:330-395 | The body scan accepts a text exactly when it is comments, quotations and nested braces, and ends just after the first brace at depth one outside them. |
| Ranges.IndexTilesInput | crates/cargo-optic-compiler/src/llvm_index/scanner.rs:25-72 | A successful scan cuts the whole input into tiles: functions, aliases and ifuncs of their symbol and kind with headers within the limit, `global` and `constant` lines, spaces, and single lines that start no function. |
| Ranges.TileIsDetermined | crates/cargo-optic-compiler/src/llvm_index/scanner.rs:25-72 | The text at an offset determines the tile there: its end, and its record or that there is none. No alias is also a variable, and no kind or symbol stands for another. |
| Ranges.IndexIsTheTiling | crates/cargo-optic-compiler/src/llvm_index/scanner.rs:25-72 | An input has one tiling, and the index is its records in order: none dropped, added or mistaken. |
| Ranges.IndexIsExactly | crates/cargo-optic-compiler/src/llvm_index/scanner.rs:25-72 | An index succeeds exactly if the input ends without a failure and can be cut into tiles, with every header within its limit, and it is then exactly the records of these tiles. |
| Ranges.IndexFailsAt | crates/cargo-optic-compiler/src/llvm_index/scanner.rs:11-69 | A failing scan has tiled the input up to a place where no tile stands. A malformed offset lies from there on and inside the input, a header over its budget starts there, and a failed read means that the reader failed. |
| Ranges.IndexRanges | crates/cargo-optic-compiler/src/llvm_index/scanner.rs:25-72 | Ranges are nonempty, strictly increasing, disjoint and inside the input; functions run from `define` to their closing brace, aliases from `@` to their line's end. |
| Headers.KindIsHeadThenLine | crates/cargo-optic-compiler/src/llvm_index/scanner.rs:117-178 | The kind is what the header says; a variable's is followed by the rest of its line, which has no budget. |
| Parts.LineHeadIs | crates/cargo-optic-compiler/src/llvm_index/scanner.rs:74-96 | An `@` header is read exactly where its parts stand in order, each described by tokens and balanced groups alone: symbol, equals sign, modifiers, keyword, and for aliases a type through its comma, an operand, and suffixes to the end of the line; the keyword and the operand decide the kind. |
| Parts.FunctionHeadIs | crates/cargo-optic-compiler/src/llvm_index/header.rs:11-48 | A function header is read exactly where its parts stand, described by tokens and balanced groups alone: result type and attributes without a global, the name, arguments, and suffixes up to the brace that opens the body. |
| Parts.ConstantIff | crates/cargo-optic-compiler/src/llvm_index/header.rs:159-231 | A constant is accepted exactly in its seven forms: a group, a global, a marked global, a string, a simple constant, or an opcode with flags and operands. |
| Parts.AliasIs | crates/cargo-optic-compiler/src/llvm_index/header.rs:51-143 | An alias is accepted exactly as a type, an operand and suffixes, and has a target exactly if the operand is a pointer to a global. |
| Grammar.WordsAre | crates/cargo-optic-compiler/src/llvm_index/header.rs:183-221 | Flags, opcodes, simple constants, modifiers and the words that end a header are exactly these. |
| Naming.IndexNames | crates/cargo-optic-compiler/src/llvm_index/scanner.rs:25-72 | A function's symbol is spelled between `define` and the brace that opens its body, an alias's at its start, and a direct target after the symbol and the comma that ends the alias's type. |
| Budgets.GroupBudget | crates/cargo-optic-compiler/src/llvm_index/stream.rs:72-122 | A group's reads reach one offset, found without any budget, and bytes beyond it do not matter to them. Under a header whose limit lies there or later the group gives the same value or the same error; under any other it fails over budget at exactly the header's start plus the limit. |
| Budgets.FunctionHeaderBudget | crates/cargo-optic-compiler/src/llvm_index/header.rs:11-48 | The same for a whole function header, well formed or not. |
| Budgets.FunctionItemBudget | crates/cargo-optic-compiler/src/llvm_index/scanner.rs:54-66 | A function is over budget exactly when its header reaches past the limit; otherwise it gives the header's error, the body's error, or its record, however long its body. The reach is that of the header under every budget, also if the header is malformed, and later bytes do not matter to it. |
| Budgets.AliasTargetBudget | crates/cargo-optic-compiler/src/llvm_index/header.rs:51-143 | The same for a whole alias or ifunc, well formed or not. |
| Budgets.LineHeadBudget | crates/cargo-optic-compiler/src/llvm_index/scanner.rs:74-96 | The same for the header of an `@` line from its start: symbol, equals sign, modifiers, keyword, and what follows it. |
| Budgets.GlobalItemBudget | crates/cargo-optic-compiler/src/llvm_index/scanner.rs:74-96 | An `@` line is over budget exactly when its header reaches past the limit. Otherwise it gives the header's error, a record that ends with the header, or the end of a variable's line, however long that is. The reach is that of the header under every budget, also if the header is malformed, and later bytes do not matter to it. |
| Stores.WriteRecord | crates/cargo-optic-store/src/record_io.rs:95-142 | Stages one record through the bounded writer: written whole if it fits, and otherwise left as a partial file. |
| Stores.CopyArtifact | crates/cargo-optic-store/src/artifacts.rs:126-155 | Copies one artifact in chunks; what is left after a failure is a prefix. |
| Stores.CopyArtifacts | crates/cargo-optic-store/src/artifacts.rs:101-161 | Succeeds exactly when every declared artifact exists with its length and no ID repeats, given room; then exactly the declared files are there. |
| Stores.Refusal | crates/cargo-optic-store/src/publish.rs:43-125 | A publication is refused for the first of: disagreeing IDs, an existing capture, leftover staging, an oversized record, bad artifacts; and is complete without one. |
| Stores.Store.Stage | crates/cargo-optic-store/src/publish.rs:78-105 | Fills only its own staging directory; success means a complete capture and its pointer. |
| Stores.Store.Publish | crates/cargo-optic-store/src/publish.rs:43-125 | Whatever step fails, the store is exactly as the reached step leaves it; success means committed; without faults the outcome is the first refusal or success. |
| Histories.ContentsAreWhole | crates/cargo-optic-store/src/publish.rs:78-105 | What a complete publication stages agrees on ID, lengths and declared artifacts. |
| Histories.PublicationKeepsConsistency | crates/cargo-optic-store/src/publish.rs:43-125 | One attempt, stopped anywhere, keeps every capture whole, staging apart from captures, and every pointer named or blocked. |
| Histories.EveryRunIsConsistent | crates/cargo-optic-store/src/publish.rs:43-125 | The same over every sequence of attempts. |
| Histories.CapturesAreCommitted | crates/cargo-optic-store/src/publish.rs:118-122 | The completed captures are exactly those of committed attempts, with the contents they published. |
| Histories.CapturesOnlyGrow | crates/cargo-optic-store/src/publish.rs:43-125 | Completed captures never change and never disappear. |
| Histories.CommittedIsReadable | crates/cargo-optic-store/src/captures.rs:89-112 | A committed capture's header, manifest and artifacts are read back unchanged after any later attempts. |
| Histories.DanglingForever | crates/cargo-optic-store/src/publish.rs:58-122 | A pointer to an absent capture never comes back to life: staging blocks its ID for good. |
| Histories.CandidateIsPresent | crates/cargo-optic-store/src/candidate.rs:69-138 | In a consistent store a candidate read never reports a mismatch: it is the named capture's evidence, or a miss. |
| Histories.CandidateIsChecked | crates/cargo-optic-store/src/candidate.rs:69-138 | In any store, however damaged, exactly an absent pointer file or an absent capture is a miss, evidence is returned exactly when pointer, header, manifest and artifacts agree, and exactly a readable pointer or header that disagrees is an invalid candidate. |
| Histories.ReadsAreChecked | crates/cargo-optic-store/src/captures.rs:89-146 | In any store a header, and a manifest with its artifacts, is read exactly if it is there in full, within its limit, under its own ID, and with every declared length. |
| Histories.PublicationEffect | crates/cargo-optic-store/src/publish.rs:98-124 | Before pointer replacement no request's candidate changes; after it exactly the own key misses; on success exactly the own key returns the new capture. |
| Histories.CandidateIsLatest | crates/cargo-optic-store/src/candidate.rs:69-138 | Over every run a request finds the capture of its latest pointer replacement if that attempt committed, and a miss otherwise. |
| Listings.ListCaptures | crates/cargo-optic-store/src/captures.rs:40-81 | Reads every entry's header, fails with the first failure in directory order, and sorts the records. |
| Listings.ListingIsCanonical | crates/cargo-optic-store/src/captures.rs:73-78 | In a consistent store the listing is by strictly descending time and, within one moment, ascending ID; it holds exactly the completed captures, and ignores directory order. |
| Listings.ListingIsHistory | crates/cargo-optic-store/src/captures.rs:40-81 | Over every run the listing succeeds and shows exactly the records that attempts committed. |
| Sorting.TextLeqIsLess | crates/cargo-optic-store/src/captures.rs:73-78 | Texts are ordered by the first byte in which they differ, and a text comes before its continuations. |
| RecordIo.BufferedFile.Flush | crates/cargo-optic-store/src/record_io.rs:167-169 | However short its writes, flushing keeps the accepted bytes and fails only when the file is full. |
| RecordIo.BufferedFile.WriteAll | crates/cargo-optic-compiler/rustc-driver/manifest.rs:206-208 | Repeats short writes to a file that can fail at any byte: accepts a prefix, all of it on success, and fails only when the file cannot take the bytes. |
| RecordIo.BoundedWriter.Write | crates/cargo-optic-store/src/record_io.rs:154-165 | Refuses bytes beyond the budget before the file sees any, and charges the budget for exactly what was accepted. |
| RecordIo.BoundedWriter.WriteAll | crates/cargo-optic-store/src/record_io.rs:133-165 | Repeats short writes: accepts a prefix, all of it on success, and exceeds exactly when the bytes do not fit. |
| RecordIo.Serialize | crates/cargo-optic-store/src/record_io.rs:104-109 | However the serializer splits its output, what was accepted is a prefix of the encoding, all of it on success. |
| RecordIo.WriteRecord | crates/cargo-optic-store/src/record_io.rs:95-142 | Succeeds exactly when encoding plus newline fits the limit and the file. Whatever fails, the file holds a prefix of the line within the limit, before and after the buffered bytes are written out on drop. |
| RecordIo.ReadBounded | crates/cargo-optic-store/src/record_io.rs:63-89 | Accepts exactly contents within the limit and reads at most one byte more. |
| RecordIo.ReadRecord | crates/cargo-optic-store/src/record_io.rs:28-57 | Rejects by the observed length, and again by the bytes if the file grew. |
| RecordIo.WriteThenRead | crates/cargo-optic-store/src/record_io.rs:28-142 | Every record that a writer completes is read back under the same limit. |
| Wrapper.VerifySelected | crates/cargo-optic-compiler/rustc-driver/wrapper.rs:76-124 | Accepts exactly one matching marker, the prepared compiler first, the prepared crate name, and a path to the prepared source. |
| Wrapper.Run | crates/cargo-optic-compiler/rustc-driver/wrapper.rs:22-71 | Says exactly when an invocation is forwarded unchanged, stopped with its receipt, or analyzed without its marker; probe mode never analyzes. |
| Wrapper.AnalysisArguments | crates/cargo-optic-compiler/rustc-driver/wrapper.rs:60-70 | Analyzed arguments start with the prepared compiler, hold no marker, and give the originals when the marker is put back. |
| Prepared.VerifiedStaleReceipt | crates/cargo-optic-compiler/src/prepared.rs:356-390 | Accepts exactly this marker's header, takes only an absent file for no receipt, and rejects the rest. |
| Prepared.ReceiptNamesItsMarker | crates/cargo-optic-compiler/rustc-driver/protocol.rs:117-130 | Receipts of different markers differ, so another token's receipt is never accepted. |
| Sessions.ReceiptsDiffer | crates/cargo-optic-compiler/src/prepared.rs:348-350 | The receipt of another token is foreign to a probe, because a marker names its token. |
| Prepared.Completed | crates/cargo-optic-compiler/src/observation.rs:41-80 | Succeeds exactly on one successful completion without errors and one valid artifact of the wanted freshness and target. |
| Prepared.ClassifyProbe | crates/cargo-optic-compiler/src/prepared.rs:261-307 | Fresh, Stale, a foreign receipt and a failed process are each characterized exactly by what the attempt left; every other attempt is unclassified. |
| Prepared.ClassifyCollection | crates/cargo-optic-compiler/src/prepared.rs:237-247 | A collection gives the artifact of exactly a successful attempt without a receipt that reports it, alone and newly made; which error it is otherwise is said by iff for a failed process and a foreign receipt. |
| Captures.StepKeepsSoundness | crates/cargo-optic-capture/src/lib.rs:68-103 | Every step keeps: each token compiled on at most one input state, and each capture holding what its token compiled. |
| Captures.EveryRunIsSound | crates/cargo-optic-capture/src/lib.rs:68-103 | The same over every run, with inputs changing at any time and any step failing. |
| Captures.FreshCandidateIsCurrent | crates/cargo-optic-capture/src/lib.rs:77-84 | At any moment of any run, a candidate that Cargo can call fresh holds exactly what compiling the current inputs would give. |
| Sessions.Session.Invoke | crates/cargo-optic-compiler/src/prepared.rs:309-334 | Whatever the arguments, a call is analyzed exactly in collection mode, and stopped with this token's receipt exactly in probe mode, where the wrapper finds the selected target; a receipt must also have a path and be writable. |
| Sessions.Session.RunCargo | crates/cargo-optic-compiler/src/prepared.rs:186-249 | A run in either mode compiles whatever the wrapper lets through. It compiles nothing in probe mode, and in collection mode its token on at most one state of the inputs; its check of freshness is true of a moment within the run. |
| Sessions.Session.RunProbe | crates/cargo-optic-compiler/src/prepared.rs:186-191 | Because the wrapper stops selected calls, a probe compiles nothing and leaves no manifest; freshness is claimed only of the inputs of a moment within it. |
| Sessions.Session.RunCollect | crates/cargo-optic-compiler/src/prepared.rs:228-249 | However often Cargo calls the wrapper while inputs change, the token is compiled on at most one state of the inputs, of a moment within the run, and a visible manifest is the whole stream of what the driver made of it. |
| Sessions.PreparedBuild.Probe | crates/cargo-optic-compiler/src/prepared.rs:173-207 | Rejects another key and a second probe. Otherwise it is one Cargo run, and what that run left decides: Fresh exactly if it succeeded and left nothing but the candidate's own artifact, fresh; Stale exactly if it failed, selected nothing and left this token's receipt, which only a stopped call writes; each error by iff. Fresh means the token was compiled on the inputs of a moment within the probe, and nothing changes. |
| Sessions.PreparedBuild.Collect | crates/cargo-optic-compiler/src/prepared.rs:215-259 | One Cargo run under the new token. It succeeds exactly if the run succeeded, left no receipt, a manifest, and one newly made artifact, and the driver's product is readable. It then holds that artifact, and the evidence that the driver's own stream and files make of the inputs of a moment within the run; failure leaves the store alone, and each error is named. |
| Sessions.IntoManifest | crates/cargo-optic-compiler/src/collection.rs:63-91 | Evidence becomes a capture's manifest exactly when it satisfies the manifest's contract. |
| Sessions.PublishCapture | crates/cargo-optic-capture/src/lib.rs:91-102 | Success makes the capture its request's candidate; failure completes nothing, and unhindered it is the first refusal that applies, if any. |
| Sessions.CollectAndPublish | crates/cargo-optic-capture/src/lib.rs:86-102 | The new record holds the supplied ID and time, the new token, and the artifact that Cargo reported. Its evidence was compiled under that token and is what the request finds afterwards; the first failing operation decides the error, and what decides each is said of its run, product, evidence and store. |
| Sessions.Capture | crates/cargo-optic-capture/src/lib.rs:68-103 | Preparation, initialization, candidate, probe, collection, validation and publication are called in order, with at most one Cargo run for the probe and one for the collection, and these runs decide. A capture is reused exactly if the policy reuses, a candidate is found, and the probe's run left nothing but its artifact, fresh; its evidence is what compiling the inputs of a moment within the operation would give, and nothing is written. New evidence is what the driver made of such a moment, valid, and found afterwards; a failure completes and hides no capture. |
| Sessions.CaptureTwice | crates/cargo-optic-capture/src/lib.rs:68-103 | What one capture publishes the next one probes: it reuses that record exactly if its probe's run reports, fresh and alone, the artifact that the first collection reported as newly made. |
| Wire.ValueIffOccurs | crates/cargo-optic-compiler/src/manifest/decoder.rs:351-356 | A little-endian value is read exactly where its bytes stand. |
| Wire.FieldIffOccurs | crates/cargo-optic-compiler/src/manifest/decoder.rs:333-363 | An integer or string is read exactly where its encoding stands, and the reader stops after it. |
| Wire.RowIffOccurs | crates/cargo-optic-compiler/src/manifest/decoder.rs:314-363 | A sequence of fields is read exactly where its encoding stands, and only encodable fields are ever read. |
| Utf8.Utf8IsEncoded | crates/cargo-optic-compiler/src/manifest/decoder.rs:333-341 | A string is accepted as UTF-8 exactly if it is the encoded forms of Unicode scalar values, one after the other. |
| Protocol.EntryIsRead | crates/cargo-optic-compiler/src/manifest/decoder.rs:99-178 | A record is read exactly where its documented fields stand and its constructors accept it. |
| Protocol.SourceIsRead | crates/cargo-optic-compiler/src/manifest/decoder.rs:253-282 | The same for each source availability. |
| Protocol.ConfigurationIsRead | crates/cargo-optic-compiler/src/manifest/decoder.rs:180-251 | The same for the configuration, with each code meaning one value. |
| Protocol.HeaderIsRead | crates/cargo-optic-compiler/src/manifest/decoder.rs:284-311 | The same for magic, version and marker. |
| Codec.AcceptedStreams | crates/cargo-optic-compiler/src/manifest/decoder.rs:57-97 | A byte string is accepted exactly when it is the encoding of what it decodes to, for every configuration and record sequence. |
| Codec.AcceptedStreamsArePrefixFree | crates/cargo-optic-compiler/src/manifest/decoder.rs:379-397 | No accepted stream continues another: strict prefixes and extensions are rejected. |
| Codec.OneStream | crates/cargo-optic-compiler/rustc-driver/manifest.rs:55-184 | Different configurations and records have different streams, also where no reader accepts them. |
| Writer.ManifestWriter.WriteString | crates/cargo-optic-compiler/rustc-driver/manifest.rs:186-196 | Writes length and text. It fails as not encodable only if a length does not fit into 32 bits, and as a failed write only if the file cannot take the promised text; the file then holds a prefix of it. |
| Writer.ManifestWriter.WriteEntry | crates/cargo-optic-compiler/rustc-driver/manifest.rs:77-175 | Writes a record's fields in the protocol's order, with the same two failures. |
| Writer.ManifestWriter.WriteConfiguration | crates/cargo-optic-compiler/rustc-driver/manifest.rs:123-150 | Writes the configuration's fields in order, with the same two failures. |
| Writer.ManifestWriter.WriteHeader | crates/cargo-optic-compiler/rustc-driver/manifest.rs:60-75 | Writes magic, version and marker, with the same two failures. |
| Writer.ManifestWriter.Finish | crates/cargo-optic-compiler/rustc-driver/manifest.rs:178-184 | The promised text becomes visible, whole and at once, exactly when the end record fits the file, it is flushed, and the rename succeeds. |
| Writer.WriteManifest | crates/cargo-optic-compiler/rustc-driver/manifest.rs:55-184 | Whatever fails at whatever byte, a visible manifest is the whole encoding of its records in order. One is visible exactly when the file is created, every string can be encoded, the file takes the stream, and the rename succeeds; the temporary file never holds more than a prefix. |
| Decoder.ManifestDecoder.TakeU32 | crates/cargo-optic-compiler/src/manifest/decoder.rs:351-356 | Takes four bytes in little-endian order, or reports truncation. |
| Decoder.ManifestDecoder.TakeU64 | crates/cargo-optic-compiler/src/manifest/decoder.rs:358-363 | Takes eight bytes in little-endian order, or reports truncation. |
| Decoder.ManifestDecoder.TakeBool | crates/cargo-optic-compiler/src/manifest/decoder.rs:343-349 | Takes a zero or a one. |
| Decoder.ManifestDecoder.TakeString | crates/cargo-optic-compiler/src/manifest/decoder.rs:333-341 | Takes a length-prefixed UTF-8 string. |
| Decoder.ManifestDecoder.TakeHeader | crates/cargo-optic-compiler/src/manifest/decoder.rs:284-311 | Takes the header of this marker. |
| Decoder.ManifestDecoder.TakeConfiguration | crates/cargo-optic-compiler/src/manifest/decoder.rs:180-251 | Takes the configuration, with the same first failure as the field order gives. |
| Decoder.ManifestDecoder.TakePlacement | crates/cargo-optic-compiler/src/manifest/decoder.rs:314-331 | Takes an instance key and a placement. |
| Decoder.ManifestDecoder.TakeSource | crates/cargo-optic-compiler/src/manifest/decoder.rs:253-282 | Takes a source relationship. |
| Decoder.ManifestDecoder.TakeInstancePlacement | crates/cargo-optic-compiler/src/manifest/decoder.rs:99-128 | Appends to the instance's group, which keeps its first source, or starts one, and rejects a source with another artifact, range, line, reason, or path by components. |
| Decoder.ManifestDecoder.TakeSourceFile | crates/cargo-optic-compiler/src/manifest/decoder.rs:130-142 | Appends a source artifact, and rejects a repeated ID. |
| Decoder.ManifestDecoder.TakeExpectedModule | crates/cargo-optic-compiler/src/manifest/decoder.rs:144-178 | Appends a module, and rejects unsupported, misplaced or repeated ones. |
| Decoder.ManifestDecoder.TakeEntries | crates/cargo-optic-compiler/src/manifest/decoder.rs:61-96 | The loop equals applying the records of the stream in order, up to an end record with nothing after it. |
| Decoder.KeysInOrder | crates/cargo-optic-compiler/src/manifest/mod.rs:106-108 | Iterating the ordered map yields its keys once each, ascending. |
| Decoder.OneOrder | crates/cargo-optic-compiler/src/manifest/mod.rs:106-108 | That order is determined by the keys alone. |
| Decoder.AscendingIsSorted | crates/cargo-optic-compiler/src/manifest/mod.rs:106-108 | The order is by crate, definition path, display name and symbol: the first that differs decides, by its first differing byte. |
| Paths.PathIsCounted | crates/cargo-optic-compiler/src/manifest/decoder.rs:99-128 | Paths are compared by the parts between their slashes: empty parts do not count, and a dot only at the very start. |
| Paths.ImmediateIsChild | crates/cargo-optic-compiler/src/manifest/decoder.rs:144-178 | A file lies directly in the directory exactly if its path is the directory's with one more part, which is not the parent. |
| Decoder.Assemble | crates/cargo-optic-compiler/src/manifest/mod.rs:106-122 | Builds one instance for each key in order, and fails if any constructor does. |
| Decoder.ManifestDecoder.Decode | crates/cargo-optic-compiler/src/manifest/decoder.rs:57-97 | Decodes the whole stream, reporting the first failure in stream order. |
| Groups.FoldIsProjection | crates/cargo-optic-compiler/src/manifest/decoder.rs:99-178 | Records are accepted exactly when the sources of each instance are equal up to the spelling of their path, source IDs are distinct, and modules are allowed, placed and distinct; groups then hold exactly their records in order. |
| Groups.PlacementIsRejectedExactly | crates/cargo-optic-compiler/src/manifest/decoder.rs:99-128 | A placement is rejected exactly when an earlier record of its instance states a source that differs in more than the spelling of its path. |
| Groups.RejectionIsNamed | crates/cargo-optic-compiler/src/manifest/decoder.rs:99-178 | Conflicting sources, repeated IDs, unexpected and repeated modules are each reported exactly when they occur. |
| Groups.SpellingIsNoConflict | crates/cargo-optic-compiler/src/manifest/decoder.rs:99-128 | Two records whose paths are `s/l` and `s//l` are both accepted, and the group keeps the first spelling. |
| Groups.AccumulatedIsProjection | crates/cargo-optic-compiler/src/manifest/decoder.rs:57-97 | Decoding accumulates this exactly for well-formed streams of acceptable records. |
| Groups.InterleavingDoesNotMatter | crates/cargo-optic-compiler/src/manifest/decoder.rs:99-128 | However different instances', files' and modules' records interleave, both streams are rejected or both give the same manifest. |
| Groups.DecodedInstances | crates/cargo-optic-compiler/src/manifest/mod.rs:106-122 | Instances are ascending and one per key, each with exactly its placements in stream order and the first spelling of their one source. |
| Groups.DecodedManifestIsCollectable | crates/cargo-optic-compiler/src/manifest/decoder.rs:130-178 | A decoded manifest has distinct source IDs, distinct named modules, and distinct instance identities. |
| Records.MakeRange | crates/cargo-optic-records/src/byte_range.rs:26-36 | Accepts a range exactly when its end is a u64, and keeps start and length. |
| Records.NewInstance | crates/cargo-optic-records/src/instance_record.rs:37-77 | Accepts exactly named instances with at least one placement and no codegen unit twice. |
| Records.NewModule | crates/cargo-optic-records/src/llvm.rs:138-166 | Accepts exactly named modules with no symbol twice. |
| Manifests.BuildTable | crates/cargo-optic-records/src/instance_manifest.rs:60-70 | Succeeds exactly when artifact IDs are distinct, and then finds each artifact by ID. |
| Manifests.CheckInstances | crates/cargo-optic-records/src/instance_manifest.rs:72-97 | Succeeds exactly when identities are distinct and every source range lies in a declared source artifact. |
| Manifests.CheckModule | crates/cargo-optic-records/src/instance_manifest.rs:244-270 | Succeeds exactly when the stage agrees with the LTO mode and every definition lies in a declared LLVM artifact. |
| Manifests.CheckLlvm | crates/cargo-optic-records/src/instance_manifest.rs:204-301 | Succeeds exactly when the LLVM joins hold: support, unique names and artifacts, covered placements, no orphans. |
| Manifests.New | crates/cargo-optic-records/src/instance_manifest.rs:53-109 | Builds a manifest exactly when all of its joins hold. |
| Collection.FirstId | crates/cargo-optic-compiler/src/artifacts.rs:167-172 | The first new ID is one above every source ID, or an error when there is none. |
| Collection.MaterializeOne | crates/cargo-optic-compiler/src/artifacts.rs:175-212 | One module succeeds exactly with nonempty bitcode that disassembles to an indexable text without a repeated symbol; it holds that index. |
| Collection.Materialize | crates/cargo-optic-compiler/src/artifacts.rs:118-217 | Succeeds exactly when the configuration is collectable, llvm-dis has the compiler's version, there is room for every ID, and every module is acceptable; modules and artifacts then correspond one to one. |
| Collection.IdsStayDistinct | crates/cargo-optic-compiler/src/artifacts.rs:167-185 | New IDs are distinct from all source IDs and from each other. |
| Collection.RangesFitText | crates/cargo-optic-compiler/src/artifacts.rs:198-213 | Every indexed range fits the declared length of its artifact. |
| Collection.MaterializedManifestIsValid | crates/cargo-optic-records/src/instance_manifest.rs:204-298 | After collection every ID, range, stage and orphan check passes; only the compiler's own joins are left to decide. |
| Assembly.Collect | crates/cargo-optic-compiler/src/artifacts.rs:44-116 | Succeeds exactly when the LLVM version is known for the LLVM backend, the configuration makes a provenance, every snapshot has its declared length, and, where modules are collected, every module's file is there, not empty, and disassembles to an indexable text without a repeated symbol, and there is room for their IDs. Each module then has its name, its stage, the index of its own text, and an artifact of that text's length; an unsupported configuration keeps its reason. |
| Assembly.DecodesExactly | crates/cargo-optic-compiler/src/manifest/mod.rs:94-122 | Decoding succeeds exactly on well-formed streams of acceptable records that make valid instances, and then keeps their configuration, snapshots and modules. |
| Assembly.JoinsAreRecords | crates/cargo-optic-records/src/instance_manifest.rs:72-97 | The joins that are left hold exactly when each placement record's source lies in a declared snapshot, and its codegen unit is a declared module where modules are collected. |
| Assembly.ReadEvidence | crates/cargo-optic-compiler/src/prepared.rs:248-249 | From bytes to evidence: succeeds exactly on streams of acceptable records for which compiler and files supply what they need, said file by file. There is one instance for each key with exactly its records, ascending, the declared snapshots, the configuration's provenance field by field, and for the k-th module record the index and the length of the text at its path. The evidence is valid exactly when the records join. |
| Assembly.Assemble | crates/cargo-optic-compiler/src/collection.rs:63-91 | From bytes to a capture's manifest: succeeds exactly if, besides, the records join; the manifest is then valid and holds that evidence. |
| Assembly.EvidenceIsDetermined | crates/cargo-optic-compiler/src/artifacts.rs:44-116 | Records, compiler and files determine the evidence. |
| Assembly.WrittenIsRead | crates/cargo-optic-compiler/src/manifest/decoder.rs:57-97 | A written stream is accepted exactly if its records are admissible and acceptable, and then decodes to the configuration and records that were written. |
| Drivers.Read | crates/cargo-optic-compiler/src/prepared.rs:248-249 | Reading back a written manifest succeeds exactly if its product is readable, and gives the evidence that the product makes. |
| Drivers.Write | crates/cargo-optic-compiler/rustc-driver/manifest.rs:55-184 | The product's whole stream becomes visible exactly if every string can be encoded and the file system takes all of it, and nothing else ever does. |
| Aliases.Resolve | crates/cargo-optic-evidence/src/llvm.rs:145-196 | Ends on every module: a cycle exactly for an endless alias chain, a body exactly where the chain ends at a function, with the path as its aliases. |
| Aliases.RevisitIsEndless | crates/cargo-optic-evidence/src/llvm.rs:159-167 | A revisited symbol means that the chain never ends. |
| Aliases.ResolvesOnce | crates/cargo-optic-evidence/src/llvm.rs:145-196 | A chain determines one result. |
| Queries.LlvmEvidenceOf | crates/cargo-optic-evidence/src/llvm.rs:89-137 | The first module whose alias chain is a cycle makes an alias-cycle error; without one, every module's body is returned, sorted, or the reason why there is none. What these are is said by `Answers.SelectedIs` and `Answers.CyclesAre`. |
| Answers.SelectedIs | crates/cargo-optic-evidence/src/llvm.rs:89-137 | The bodies are exactly the functions to which a module's direct aliases lead from the symbol, with that function's range, symbol, stage and artifact and the aliases passed, ascending by module; without one, an end that is no function is told apart from no definition. |
| Answers.CyclesAre | crates/cargo-optic-evidence/src/llvm.rs:139-190 | An alias-cycle error occurs exactly if some module's aliases lead from the symbol back to where they have been. |
| Queries.SourceEvidence | crates/cargo-optic-evidence/src/source.rs:41-59 | The referenced instance's own source range and artifact, or exactly its reason for having none, or an invalid reference. |
| Queries.ModuleOrderDoesNotMatter | crates/cargo-optic-evidence/src/llvm.rs:111-136 | The answer does not depend on the order of the modules. |
| Search.FindInstances | crates/cargo-optic-evidence/src/find.rs:97-175 | Returns the sorted prefix of the exact matches, or of the substring matches when there are none, with their number. |
| Search.SortedMatchesAreTheMatches | crates/cargo-optic-evidence/src/find.rs:114-167 | The results are exactly the instances of which a name is the query or, without any such, contains it, each once under its own ordinal, ascending by display name, definition path, crate and symbol. |
| Search.ManifestOrderDoesNotMatter | crates/cargo-optic-evidence/src/find.rs:114-167 | Permuting the manifest changes only ordinals. |
| Copies.CopyBytes | crates/cargo-optic-store/src/artifacts.rs:190-214 | Delivers exactly the requested bytes, or a prefix of them with an error that names an end which failed. |
| Copies.CopyCheck | crates/cargo-optic-store/src/artifacts.rs:45-87 | An artifact that is not declared is unknown, and a range past the first declared one's length is out of range, both by iff. |
| Copies.CopyEvidence | crates/cargo-optic-store/src/artifacts.rs:45-87 | Rejects mismatching files, unknown artifacts and ranges past the end in that order; otherwise delivers the range. |
| Copies.SourceEvidenceIsCopyable | crates/cargo-optic-evidence/src/source.rs:41-59 | Every source range that a query returns on a valid manifest passes the copy's checks. |
| Copies.LlvmEvidenceIsCopyable | crates/cargo-optic-evidence/src/llvm.rs:89-137 | Every LLVM range that a query returns on a valid manifest passes the copy's checks. |
| Evidence.PublishedBodiesDeliver | crates/cargo-optic-evidence/src/llvm.rs:89-137 | A selected body of a published capture passes every check of a copy after any later attempts, against the files that were published. |
| Evidence.SelectedBodiesAreFunctions | crates/cargo-optic-evidence/src/llvm.rs:89-137 | Where each module's published text is the one that was indexed, every selected body is a whole definition of the function to which the aliases lead: from `define` to the brace that closes it. |
| Evidence.CollectedTextsAreHeld | crates/cargo-optic-compiler/src/artifacts.rs:198-213 | Collected modules hold the index of the texts under their new IDs, without a repeated symbol. |
| Evidence.PublishedBodiesAreFunctions | crates/cargo-optic-evidence/src/llvm.rs:89-137 | The same of what is in the store after any later attempts: a selected body passes every check of a copy, and the bytes in its range are that function, whole. |
| Evidence.PublishedSourceDelivers | crates/cargo-optic-evidence/src/source.rs:41-59 | The same for an instance's source range. |
| Evidence.CopyPublished | crates/cargo-optic-store/src/artifacts.rs:45-87 | A copy of delivered evidence writes the range's bytes of the published file, all of them unless an end fails, and never anything but a prefix of them. |
| References.Encode | crates/cargo-optic-records/src/reverse_hex.rs:9-18 | Encodes each byte as two digits, high nibble first. |
| References.CanonicalMeansEncoded | crates/cargo-optic-records/src/reverse_hex.rs:21-23 | The accepted texts are exactly the encodings. |
| References.EncodingIsInjective | crates/cargo-optic-records/src/reverse_hex.rs:9-18 | Different byte strings have different encodings. |
| References.ParseU64 | crates/cargo-optic-records/src/instance_ref.rs:76 | Accepts exactly the digits of a u64, and returns their value. |
| References.Parse | crates/cargo-optic-records/src/instance_ref.rs:57-78 | Accepts exactly the displayed texts, and returns the reference that displays so. |
| References.DisplayIsInjective | crates/cargo-optic-records/src/instance_ref.rs:48-52 | A text denotes at most one reference. |
| References.DisplayThenParse | crates/cargo-optic-records/src/instance_ref.rs:48-79 | Parsing inverts display for every reference. |

## Left out

- Processes: Cargo and rustc invocations, their output parsing, `llvm-dis`, driver provisioning, and the
  compiler session that produces instances, placements and snapshots.
- Encodings of records as JSON, digests of requests, and generation of IDs. A record's file is the record
  with the length of its line, and its encoding is an arbitrary byte string.
- File-system detail: symbolic links, file types, permissions, the ignore file, and creation of the
  store's namespaces. A missing namespace is an empty one.
- Command-line arguments, rendering, warnings, error texts, replayed diagnostics, and accessors.
- Validity of LLVM types, attributes and instructions, which the indexer does not decide.
- Record formats of earlier releases, and build, compiler and target records, which only require fields.
- Finding the compiler's LLVM version and the disassembler's in their output: both are inputs of collection.
- Sessions.Session.RunCargo: a second analysis within one Cargo run is excluded by assumption.
- Stores.Store.Publish: error values do not say which file or which operating-system error was met.
- Prepared.Completed: the target comparison is one flag of the artifact message.
- Sessions.Capture: says nothing about which of several possible environment failures is reported.
- Assembly.Assemble: says when it fails, and not which of several failures is reported.
- Decoder.ManifestDecoder.Decode: the byte source is complete; an operating-system error while reading a
  manifest is not modelled.
- Reading the manifest inside `find_instances`, `llvm_evidence` and `source_evidence`: the queries start from
  the manifest, and `Stores.ReadInstances` is that read.
- Bytes of memory: the indexer's chunk is fixed and its stack is bounded, but vectors of records are values.
