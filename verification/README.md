# Verified model of the mail server's algorithmic core

This project models, in Dafny, the self-contained algorithms of a mail server and its tooling, and proves what they
are for. Each component has its own module (or a few, where the definition and its theorems are kept apart):

- `Receiver`, `ReceiverInvariant`, `ReceiverRoundTrip`, `ReceiverJunctures`, `ReceiverRejections`: the resumable IMAP /
  ManageSieve request receiver (section 4.3 of RFC 9051, section 3 of RFC 7888). A class updates its fields in place
  byte by byte and follows the pure step function; limits, the print/parse round trip, the blanks a client may leave
  out and what is refused with which error are theorems about runs of that step. The chunking result is
  `RequestReceiver.DrainAll`: the re-entered in-place `Parse` gives the same events and state under any framing.
  `Machine` holds the theory of byte machines it rests on.
- `Template`, `TemplateMeaning`, `TemplateRendering`, `TemplateWriting`, `TemplateEscaping`, `TemplateErrors`: the
  template compiler (block stack, back-patched jump targets) and the evaluator of the flat jump program, against a
  recursive-descent tree semantics and a writer of template text; what is escaped, and what is refused.
- `Topological`: the topological sort with in-place counters, against cycles of the inserted multigraph.
- `Glob`, `GlobForms`, `GlobCasing`: the matcher that remembers only the last star, against the existential meaning of
  wildcards; the hash-set and prefix/suffix fast forms; patterns compiled for lower case.
- `Utf7`, `Utf7Text`: modified UTF-7 (section 5.1.3 of RFC 3501) with its wrapping 32-bit accumulators, against base64
  over one stream of bits.
- `Id`: base-32 ids with the stop-bit printing loop.
- `DeadProperty`: scans and edits of flattened XML forests, against tree operations.
- `Pickle`, `PickleRoundTrip`, `PickleFormat`: the registry's binary encoding (LEB128 as in section 7.6 of DWARF 5) and
  its compressed envelope.
- `Snowflake`: ids drawn by concurrent callers from any number of generators and the static counter, as a transition
  system over their atomic steps.
- `Suite`: the suite records in an ordered byte-key store shared with account keys.
- `SubTrees`, `Macros`, `MacroExpansion`, `Signatures`, `DomainIndex`, `BuiltTables`, `Records`, `Converter`,
  `Migration`: the kernels of the v0.16 migration script, from settings and principals to the exported operations.
  `Migration` says what becomes of each principal and signature without client ids or indexes. `Sorting` is Python's
  `sorted`.
- `Ossify`: the licence-snippet stripper.
- `Common`, `DivMod`: shared datatypes, powers and division facts.

Where the source updates state in place the model is a class or a method with loops, proved against a specification
function or predicate; the main results are lemmas about that specification.

Behaviour kept as the code has it, where a reader might expect something else:

- A closing template tag outside every block is ignored, and an `each` nested in an `each` has its body rendered once.
- An empty quoted string costs nothing of the request size budget; an empty literal and every other token does.
- Punctuation is not remembered as the last byte, so a quote or `{` right behind `a)` is read as text and one behind
  ` (` is not; a plain literal right behind the atom `~` swallows the atom. `ReceiverJunctures.RoundTripExactly` gives
  the exact condition.
- `GlobSet` strips every backslash of a pattern it stores as an entry, so a doubled backslash is not globbed;
  `GlobForms.EntriesAgreeExactly` gives the exact condition.
- The inverse base-32 table accepts the upper-case letters K to Z but not A to J.
- Strings and maps of 2^32 elements or more are pickled with a truncated length; `PickleRoundTrip.RoundTripExactly`
  and `PickleRoundTrip.EnvelopeRoundTripExactly` give the exact conditions.
- Aliases of mailing lists and the default domain are not validated: each is created in time exactly if its domain has
  an acceptable name (`Converter.Converter.Run`), and `Converter.DanglingAlias` converts a list on an
  accepted domain that has an address on a rejected one.
- `generate` and `global_id` draw from separate counters, so their ids can coincide (`Snowflake.SourcesCollide`).

## Model

| member | source | states |
|---|---|---|
| Receiver.ChunkIndependence | crates/imap-proto/src/receiver.rs:145-391 | The step of `RequestReceiver.DrainAll` that is about runs alone: running frame after frame equals running the concatenated stream. |
| Receiver.RequestReceiver.constructor | crates/imap-proto/src/receiver.rs:80-99 | A new receiver is fresh: empty buffer and request, the configured start state, nothing charged. |
| Receiver.RequestReceiver.ErrorReset | crates/imap-proto/src/receiver.rs:101-112 | Reports the error under the tag read so far and leaves the receiver fresh. |
| Receiver.RequestReceiver.PushArgumentToken | crates/imap-proto/src/receiver.rs:117-131 | Closes the buffered argument: charged to the size budget and refused above it, `Nil` for an empty quoted string without charge. |
| Receiver.RequestReceiver.PushPlainToken | crates/imap-proto/src/receiver.rs:133-143 | Adds a punctuation token for one unit of the size budget, or fails and resets when the budget is spent. |
| Receiver.RequestReceiver.PushChecked | crates/imap-proto/src/receiver.rs:408-416 | Buffers a byte below the limit of the state, or resets with the state's error. |
| Receiver.RequestReceiver.ConsumeTag | crates/imap-proto/src/receiver.rs:156-178 | One byte of a tag moves fields and reports exactly as the step function says: end at a blank, UTF-8 check, length limit. |
| Receiver.RequestReceiver.ConsumeCommand | crates/imap-proto/src/receiver.rs:179-216 | One byte of a command name: upper-casing, the `UID` prefix, unknown or empty names, length limit. |
| Receiver.RequestReceiver.ConsumeArgument | crates/imap-proto/src/receiver.rs:217-276 | One byte of the argument list: quoting, literal opening, punctuation, blanks, atoms and the end of the request. |
| Receiver.RequestReceiver.ConsumeQuoted | crates/imap-proto/src/receiver.rs:277-310 | One byte of a quoted string with its escapes; a line break in it fails. |
| Receiver.RequestReceiver.ConsumeLiteral | crates/imap-proto/src/receiver.rs:311-356 | One byte of a literal size: digits, `+`, the closing brace with parsing of the size, the budget check and the prompt. |
| Receiver.RequestReceiver.ConsumeSeek | crates/imap-proto/src/receiver.rs:357-373 | Between the brace and the literal only a line end (optional CR) is accepted; an empty literal is stored at once. |
| Receiver.RequestReceiver.ConsumeData | crates/imap-proto/src/receiver.rs:374-386 | One octet of literal data; the last one stores the whole literal. |
| Receiver.RequestReceiver.Parse | crates/imap-proto/src/receiver.rs:145-391 | Consumes bytes up to the first thing to report; the consumed bytes, run through the step function, give exactly that event and the new state, and without an event all bytes were consumed. |
| Receiver.RequestReceiver.Drain | crates/imap-proto/src/receiver.rs:145-391 | Re-entering `parse` until it needs more data yields all events of the frame and the state behind it. |
| Receiver.RequestReceiver.DrainAll | crates/imap-proto/src/receiver.rs:145-391 | Chunk independence: the in-place receiver, re-entered until it needs more data, reports the same requests, prompts and errors and ends in the same state however the stream is cut into frames. |
| ReceiverInvariant.FreshIsValid | crates/imap-proto/src/receiver.rs:80-99 | A fresh receiver satisfies the invariant exactly for start states that are no unannounced or oversized literal. |
| ReceiverInvariant.StepKeepsInv | crates/imap-proto/src/receiver.rs:145-391 | Every byte keeps the buffer limit of every state, the size budget over token bytes, and for literals in flight buffered plus outstanding bytes within the budget; every event respects the budget. |
| ReceiverInvariant.RunKeepsInv | crates/imap-proto/src/receiver.rs:145-391 | The invariant holds after every byte of every run, and every reported request or prompt fits the budget. |
| ReceiverInvariant.ReportLeavesFresh | crates/imap-proto/src/receiver.rs:101-112 | After every completed request and every error the receiver equals a new one. |
| ReceiverInvariant.SizesFitWord | crates/imap-proto/src/receiver.rs:117-131 | The size sums never wrap a 64-bit word when the limit leaves room for one literal. |
| ReceiverInvariant.AcceptedLiteral | crates/imap-proto/src/receiver.rs:357-386 | A literal whose size was accepted never fails on size: after k octets exactly these are buffered, and the last stores the literal. |
| ReceiverRoundTrip.ItemRun | crates/imap-proto/src/receiver.rs:217-386 | Feeding one printed item where it joins what stands before it, with or without a blank: punctuation, an atom, a quoted string, a literal or a binary literal (`~{`), synchronising or not, adds exactly its token behind a pending atom's, charges its cost, prompts exactly for synchronising literals and leaves the place the next item joins or not. |
| ReceiverRoundTrip.ItemsRun | crates/imap-proto/src/receiver.rs:217-386 | Feeding a printed argument list, blanks left out wherever the items join, yields the prompts in order and then the request with those tokens, and leaves the receiver fresh. |
| ReceiverRoundTrip.RoundTrip | crates/imap-proto/src/receiver.rs:145-391 | Any request with a legal tag, a known command and any joined arguments within the budget comes back token for token, after one prompt per synchronising literal, and leaves the receiver fresh. |
| ReceiverRoundTrip.UntaggedRoundTrip | crates/imap-proto/src/receiver.rs:145-391 | The same for a receiver that starts at the command name. |
| ReceiverRoundTrip.PipelineRoundTrip | crates/imap-proto/src/receiver.rs:145-391 | Any number of printed requests, cut into frames anywhere, come back one after the other. |
| ReceiverJunctures.RoundTripExactly | crates/imap-proto/src/receiver.rs:217-386 | A request within the limits comes back token for token, with its prompts and nothing else, if and only if each argument joins what stands before it: behind a blank, a quoted string or a literal anything does, behind an atom punctuation only, behind punctuation that follows an atom also atoms and binary literals. |
| ReceiverJunctures.UntaggedExactly | crates/imap-proto/src/receiver.rs:217-386 | The same for a receiver that starts at the command name. |
| ReceiverJunctures.SpoiltRun | crates/imap-proto/src/receiver.rs:217-386 | Once a token is wrong, or the buffered text has outgrown it, no continuation yields a request with that token in its place. |
| ReceiverJunctures.AtomRunsOn | crates/imap-proto/src/receiver.rs:263-274 | A value right behind an atom runs into it: the atom is not among the tokens, whatever follows. |
| ReceiverJunctures.QuoteIsText | crates/imap-proto/src/receiver.rs:217-222 | A quote that follows no separator opens no quoted string: the argument is not read, whatever follows. |
| ReceiverJunctures.HeaderEndsEarly | crates/imap-proto/src/receiver.rs:223-233 | A literal header that follows no separator is text even where the literal spells its own header: the request then ends with the header. |
| ReceiverJunctures.LagRun | crates/imap-proto/src/receiver.rs:223-233 | Once a literal has swallowed the atom `~`, no further arguments make up for the lost token. |
| ReceiverRejections.UnknownCommand | crates/imap-proto/src/receiver.rs:187-196 | A legal tag and a legal name that the command table does not hold: exactly one error, of its own kind, under that tag, and a fresh receiver. |
| ReceiverRejections.OnlyKnownCommands | crates/imap-proto/src/receiver.rs:179-216 | Every request any run reports carries a command that the table returned for some name. |
| ReceiverRejections.BadName | crates/imap-proto/src/receiver.rs:180-213 | A name of more than 15 characters, or with a byte that no name may hold, is refused under its tag. |
| ReceiverRejections.NameRejected | crates/imap-proto/src/receiver.rs:179-216 | The same three rejections from any receiver at the start of a command name, tagged or not. |
| ReceiverRejections.TagRejected | crates/imap-proto/src/receiver.rs:156-178 | A line that ends behind its tag, a tag of more than 128 bytes and a tag that is not UTF-8 are refused without a tag. |
| ReceiverRejections.FaultReported | crates/imap-proto/src/receiver.rs:145-391 | Behind any arguments, a line break in a quoted string, text beyond 8000 bytes, and each malformed or oversized literal give the prompts of the arguments and then exactly the error of that fault under the tag. |
| ReceiverRejections.FaultRejected | crates/imap-proto/src/receiver.rs:217-373 | Each fault, written out byte by byte, is refused with its own error at its last byte. |
| ReceiverRejections.OverBudget | crates/imap-proto/src/receiver.rs:117-143 | A request whose arguments exceed the size budget is never reported: the first thing behind its prompts is the error under its tag, that of the first argument that does not fit. |
| ReceiverRejections.NameLine | crates/imap-proto/src/receiver.rs:197-206 | A line feed right behind the command name ends a request without arguments. |
| ReceiverRejections.BlankRun | crates/imap-proto/src/receiver.rs:263-267 | Any blanks between arguments count as one. |
| ReceiverRejections.LeadingBlanks | crates/imap-proto/src/receiver.rs:148-154 | Blanks and line ends in front of a tag or a command name count for nothing. |
| ReceiverRejections.TagSkips | crates/imap-proto/src/receiver.rs:168 | Tabs and carriage returns behind a tag are dropped. |
| ReceiverRejections.BackslashKept | crates/imap-proto/src/receiver.rs:298-309 | In a quoted string a backslash in front of any byte but a quote, a backslash or a line feed is kept. |
| ReceiverRejections.SeekSkips | crates/imap-proto/src/receiver.rs:357-373 | Blanks between the brace of a literal and its line end are skipped. |
| Template.Parse | crates/utils/src/template.rs:36-126 | The one-pass parser with its block stack and patched jump targets returns what the piecewise specification says, errors included. |
| Template.AddPiece | crates/utils/src/template.rs:47-111 | One tag: opening pushes a block, closing checks name and kind and patches the jump target, a value adds an item. |
| Template.Eval | crates/utils/src/template.rs:128-196 | The loop that reassigns its item slice renders the run of the flat program from its first item, with every slice in range. |
| Template.EvalEntry | crates/utils/src/template.rs:165-186 | The inner loop renders one entry of an `each`; a skipped `if` replaces the slice from its end to the end of the block. |
| Template.EvalEach | crates/utils/src/template.rs:162-188 | The entry loop concatenates the renderings of all entries. |
| Template.HtmlEscape | crates/utils/src/template.rs:199-210 | Appends the escaped text. |
| TemplateMeaning.ParsesDoc | crates/utils/src/template.rs:36-126 | On the pieces of any document the stack parser appends its compiled items, in front of any rest and on any stack. |
| TemplateMeaning.TreeSound | crates/utils/src/template.rs:36-126 | Recursive descent reads back exactly the pieces of the tree it returns, well nested. |
| TemplateMeaning.ParseNeedsTree | crates/utils/src/template.rs:36-126 | The stack parser fails on every text without a tree. |
| TemplateMeaning.ParseCompilesTree | crates/utils/src/template.rs:36-126 | The stack parser accepts exactly the texts that have a tree, and its flat items are that tree compiled. |
| TemplateMeaning.WrittenDocParses | crates/utils/src/template.rs:36-126 | The pieces of every well-nested document whose names resolve parse to its own compilation. |
| TemplateRendering.CompiledJumps | crates/utils/src/template.rs:90-97 | Every compiled jump target lies behind its block and inside the program, and blocks are nested or disjoint. |
| TemplateRendering.EntryRenders | crates/utils/src/template.rs:165-186 | Inside an `each`, running the compiled items of a document renders its tree for the entry and continues behind it. |
| TemplateRendering.ProgramRenders | crates/utils/src/template.rs:128-196 | Running the compiled items of a document renders its tree under all bindings and continues behind it. |
| TemplateRendering.TemplateMeans | crates/utils/src/template.rs:36-196 | Compiler correctness: for every text that parses, the items are a safe jump program and running them renders the tree of the text. |
| TemplateWriting.LexReadsPieces | crates/utils/src/template.rs:41-119 | Reading back what was written: a text written from pieces is split into exactly those pieces, for trimmed names, text that opens no tag, and no two adjacent texts. |
| TemplateWriting.ClassifiesTag | crates/utils/src/template.rs:49-111 | A written tag is recognised as itself: block start, block end, escaped or plain value. |
| TemplateWriting.WrittenTextRenders | crates/utils/src/template.rs:36-196 | The text of every well-nested document that can be written parses to its compilation, which runs to its rendering. |
| TemplateRendering.EscapeRoundTrip | crates/utils/src/template.rs:199-210 | Escaping loses nothing: resolving the entities returns the text, whatever follows it. |
| TemplateRendering.EscapedIsInert | crates/utils/src/template.rs:199-210 | Escaped text holds no angle bracket and no quote. |
| TemplateEscaping.TagRenders | crates/utils/src/template.rs:140-150 | The text `{{name}}` renders as the escaped value and `{{!name}}` as the value itself. |
| TemplateEscaping.TagsRender | crates/utils/src/template.rs:160-190 | Inside an `each` the same holds of every entry, in order. |
| TemplateEscaping.RunParts | crates/utils/src/template.rs:128-197 | Every rendering is cut into static texts of the program, escaped values, and raw values, these only if the program holds a `{{!...}}`. |
| TemplateEscaping.PlainProgramIsInert | crates/utils/src/template.rs:128-211 | A program without `{{!...}}` emits angle brackets and quotes only from its own static texts, whatever is bound. |
| TemplateErrors.PieceRefused | crates/utils/src/template.rs:36-126 | Behind whole nodes and any open blocks, an unknown variable, a closing tag of another name or kind and a malformed tag each fail with their own error. |
| TemplateErrors.EndRefused | crates/utils/src/template.rs:120-125 | A template that ends inside a block is refused. |
| TemplateErrors.UnmatchedTag | crates/utils/src/template.rs:36-49 | A tag that is never closed is refused. |
| TemplateErrors.NoKeyword | crates/utils/src/template.rs:50-81 | A block tag that starts with neither `if` nor `each` is refused as a start or as an end. |
| TemplateErrors.SpacesDropped | crates/utils/src/template.rs:49-50 | Spaces of any of the 25 Unicode kinds around the content of a tag do not count. |
| Topological.TopologicalSort.Insert | crates/utils/src/topological.rs:24-28 | Adds one edge; the edge lists and counters keep describing the inserted multigraph. |
| Topological.TopologicalSort.IntoIterator | crates/utils/src/topological.rs:30-46 | Moves exactly the nodes without incoming edges to the queue and keeps the counters of the others. |
| Topological.TopologicalSortIterator.Next | crates/utils/src/topological.rs:59-75 | Emits the node at the back of the queue and keeps the balance of counters, queue and emitted nodes. |
| Topological.TopologicalSortIterator.Release | crates/utils/src/topological.rs:62-72 | Takes one edge per neighbour off the counters, never below zero, and queues the nodes that reach zero. |
| Topological.TopologicalSortIterator.IsValid | crates/utils/src/topological.rs:79-81 | Holds when no counter is left. |
| Topological.TopologicalSortIterator.Exhaust | crates/utils/src/topological.rs:56-82 | The whole iteration emits distinct nodes, each after all its predecessors, exactly those not behind a cycle; nothing is left iff the graph is acyclic, and then all nodes were emitted. |
| Topological.EmittingReleases | crates/utils/src/topological.rs:62-72 | Emitting a node lowers the pending edges of another by exactly its multiplicity in the target list. |
| Topological.PopKeepsBalance | crates/utils/src/topological.rs:60-62 | Taking a node off the queue keeps the counting invariant, with its targets up for release. |
| Topological.ReleaseKeepsBalance | crates/utils/src/topological.rs:63-71 | Releasing one edge keeps the counting invariant in each branch of the loop. |
| Topological.CountedIsBehindCycle | crates/utils/src/topological.rs:79-81 | A node left over when the queue is empty is behind a cycle (pigeonhole over a backward walk). |
| Topological.EmittedIsNotBehindCycle | crates/utils/src/topological.rs:59-75 | No emitted node is behind a cycle. |
| Topological.ExhaustedExactly | crates/utils/src/topological.rs:56-82 | In an exhausted iterator the emitted nodes are exactly those not behind a cycle; no counter is left iff the graph is acyclic. |
| Glob.Compile | crates/utils/src/glob.rs:34-75 | The compiling loop produces the specified pattern: escapes, runs of stars, lower-casing. |
| Glob.GlobMatches | crates/utils/src/glob.rs:108-150 | The loop that remembers only the last star terminates and accepts exactly the values for which some assignment of substrings to the stars matches. |
| Glob.LaterStarSuffices | crates/utils/src/glob.rs:134-146 | If a match exists through an earlier star, one exists from the later star on, so forgetting the earlier one is safe. |
| Glob.StarStep | crates/utils/src/glob.rs:134-139 | Passing a star keeps the loop's decision equal to the existential meaning. |
| Glob.CharStep | crates/utils/src/glob.rs:122-133 | Matching a character keeps the loop's decision equal to the existential meaning. |
| GlobForms.TryCompile | crates/utils/src/glob.rs:77-105 | A pattern with an unescaped wildcard compiles; any other comes back with its backslashes removed. |
| GlobForms.EntriesAgreeExactly | crates/utils/src/glob.rs:77-105 | Looking a pattern up as entry or glob agrees with globbing on every key exactly if it is globbed or holds no doubled backslash. |
| GlobForms.GlobSet.InsertPattern | crates/utils/src/glob.rs:170-179 | Remembers one more pattern. |
| GlobForms.GlobSet.InsertEntry | crates/utils/src/glob.rs:181-183 | Remembers one more exact entry. |
| GlobForms.AnyHitGlobs | crates/utils/src/glob.rs:165-188 | Over patterns without doubled backslashes, finding a key in the set is globbing it with some pattern or equalling some entry. |
| GlobForms.GlobSet.Contains | crates/utils/src/glob.rs:185-187 | True exactly if some inserted entry equals the key or some inserted pattern finds it; without doubled backslashes, exactly if some entry equals the key or some pattern globs it. |
| GlobForms.FastFormGlobs | crates/utils/src/glob.rs:228-252 | Equality, prefix, suffix and match-all forms agree with the compiled glob where the literal part is plain. |
| GlobForms.FastFormAgreesExactly | crates/utils/src/glob.rs:228-252 | The fast form of a pattern agrees with globbing on every value exactly if its literal part holds no `*`, `?` or backslash, or it is globbed anyway. |
| GlobCasing.WrittenCompiles | crates/utils/src/glob.rs:34-75 | Compiling the text a pattern is written as gives the pattern back: escaped signs are literal, runs of stars are one wildcard. |
| GlobCasing.LowerCompiles | crates/utils/src/glob.rs:60-66 | Compiling for lower case is compiling the text in lower case, where no pattern sign has a case. |
| GlobCasing.LowerMatches | crates/utils/src/glob.rs:60-105 | A plain text compiled for lower case matches exactly the values whose lower case is the text with each of its characters in lower case. |
| GlobCasing.LowerPrefixMatches | crates/utils/src/glob.rs:60-105 | With a star behind it, exactly the values whose lower case starts with that. |
| Utf7.Encode | crates/imap-proto/src/utf7.rs:72-118 | The encoding loop with its wrapping accumulator writes the specified encoding. |
| Utf7.PushUnit | crates/imap-proto/src/utf7.rs:100-106 | Shifting a code unit in writes exactly the symbols it completes; wrapped-off bits never matter. |
| Utf7.CloseRun | crates/imap-proto/src/utf7.rs:110-115 | Ends a run with the zero-padded last sextet and the hyphen. |
| Utf7.Decode | crates/imap-proto/src/utf7.rs:21-70 | The decoding loop with its wrapping accumulator computes the specified decoding, errors included. |
| Utf7.PushSymbol | crates/imap-proto/src/utf7.rs:43-49 | Shifting a symbol in appends exactly the unit it completes. |
| Utf7.ShiftedIn | crates/imap-proto/src/utf7.rs:100-106 | The wrapping 32-bit accumulator yields the symbols of the exact bit string and keeps its leftover bits. |
| Utf7.SymbolShiftedIn | crates/imap-proto/src/utf7.rs:43-49 | The decoder's wrapping accumulator yields the exact unit and keeps its leftover bits. |
| Utf7.Utf16RoundTrip | crates/imap-proto/src/utf7.rs:69-78 | UTF-16 units of any text convert back to it. |
| Utf7.RunRoundTrip | crates/imap-proto/src/utf7.rs:21-118 | Decoding what is encoded from any point on, inside or outside a run, returns the lagging unit and all units to come. |
| Utf7.NameRoundTrip | crates/imap-proto/src/utf7.rs:21-118 | Decoding an encoded mailbox name returns the name, for every text. |
| Utf7.EncodedIsPrintable | crates/imap-proto/src/utf7.rs:72-118 | An encoded name consists of printable ASCII only. |
| Utf7Text.SymbolAt | crates/imap-proto/src/utf7.rs:21 | The symbol of rank k is character k of the alphabet, written out. |
| Utf7Text.RankExactly | crates/imap-proto/src/utf7.rs:10-19 | A character has a rank exactly if it is in that alphabet, and the rank is its place. |
| Utf7Text.EncodesModified | crates/imap-proto/src/utf7.rs:71-120 | The encoder writes modified base64: printable characters as they are with `&` as `&-`, and each maximal run of other units as the base64 of its bits between `&` and `-`. |
| Utf7Text.PrintableTextStays | crates/imap-proto/src/utf7.rs:79-94 | A text of the characters from space to tilde encodes to itself but for its ampersands. |
| Utf7Text.OnlySymbols | crates/imap-proto/src/utf7.rs:96-117 | A run is written in symbols of the alphabet only, one for every six bits. |
| Utf7Text.DecodesRun | crates/imap-proto/src/utf7.rs:31-52 | A run of symbols decodes to the units its bits make up, 16 each, and ends with a dash or with the text. |
| Utf7Text.TextRefused | crates/imap-proto/src/utf7.rs:36-43 | A run that holds a character outside the alphabet is refused. |
| Utf7Text.DecodesPlain | crates/imap-proto/src/utf7.rs:53-68 | Outside runs `&-` and a last `&` are ampersands, and any other character is its own unit, cut to 16 bits. |
| Utf7Text.Surrogates | crates/imap-proto/src/utf7.rs:78 | Characters above U+FFFF are two units from the two surrogate ranges. |
| Id.FromStr | crates/types/src/id.rs:22-39 | Reads a text of alphabet characters as a base-32 numeral modulo 2^64 and refuses any other character. |
| Id.AsString | crates/types/src/id.rs:52-101 | The stop-bit loop ends and prints the canonical base-32 numeral of the id. |
| Id.FirstWord | crates/types/src/id.rs:74-89 | The initial shift skips leading zeros by whole digits or prints the top four bits. |
| Id.WordStep | crates/types/src/id.rs:93-96 | One round of the loop: the top five bits are the next digit and the shifted word stands for the rest. |
| Id.StopsAtTheEnd | crates/types/src/id.rs:93-96 | The word equals the stop bit exactly when no digit is left, so the loop stops neither early nor late. |
| Id.WholeDigitsSkipped | crates/types/src/id.rs:77-81 | After skipping leading zero bits by fives the first printed digit is not zero. |
| Id.CanonicalIsUnique | crates/types/src/id.rs:52-101 | A number has only one numeral without a leading zero. |
| Id.AlphabetAt | crates/types/src/id.rs:55-98 | Digit d is written as character d of the alphabet, written out. |
| Id.TextReadExactly | crates/types/src/id.rs:22-39 | A text is read exactly if each octet is a letter `a` to `z` or `K` to `Z` or one of `792013`. |
| Id.ReadExactly | crates/types/src/id.rs:22-39 | Each octet stands for its place in the alphabet; the upper-case letters for their lower-case ones. |
| Id.Numeral | crates/types/src/id.rs:52-101 | Every number has a numeral without a leading zero digit that denotes it; zero is the single zero digit. |
| Id.PrintingIsInjective | crates/types/src/id.rs:52-101 | Different ids are printed differently. |
| Id.PrintParseInverse | crates/types/src/id.rs:22-101 | The printed numeral parses back to the id, and the only canonical numeral below 2^64 that does is the printed one. |
| DeadProperty.Property.FindTag | crates/types/src/dead_property.rs:58-97 | The scan with depth and flag returns what the recursive specification of the search says. |
| DeadProperty.Property.RemoveElement | crates/types/src/dead_property.rs:101-124 | The retain loop leaves what the recursive specification of the removal says. |
| DeadProperty.Property.AddElement | crates/types/src/dead_property.rs:126-130 | Appends the element with its values. |
| DeadProperty.BalancedIsForest | crates/types/src/dead_property.rs:57-130 | The balanced tag streams are exactly the flattened forests. |
| DeadProperty.FindIsTreeSearch | crates/types/src/dead_property.rs:58-97 | On a flattened forest the search returns the flattened children of the first top-level element of the name. |
| DeadProperty.RemoveIsTreeDrop | crates/types/src/dead_property.rs:101-124 | On a flattened forest the removal drops exactly the top-level elements of the name. |
| DeadProperty.AddIsTreeAppend | crates/types/src/dead_property.rs:126-130 | On flattened forests adding appends a top-level element. |
| DeadProperty.EditLaws | crates/types/src/dead_property.rs:57-130 | On every balanced stream the edits keep balance; find after remove is none, other names are untouched, find after add returns the added values when the name was absent, and remove undoes add. |
| Pickle.LebRun | crates/utils/src/codec/leb128.rs:121-135 | Reading the groups of a number from any point of its encoding returns the number and the position behind it. |
| Pickle.LebRoundTrip | crates/utils/src/codec/leb128.rs:87-135 | Every number of 16, 32 or 64 bits is read back from its LEB128 form, between any bytes. |
| Pickle.PickleInto | crates/registry/src/pickle.rs:114-265 | Appends exactly the specified encoding of a value. |
| Pickle.WriteLeb128 | crates/utils/src/codec/leb128.rs:108-119 | The loop appends the LEB128 form of a number. |
| Pickle.PickledStream.Read | crates/registry/src/pickle.rs:77-79 | Returns the next octet and advances, or nothing at the end. |
| Pickle.PickledStream.ReadBytes | crates/registry/src/pickle.rs:92-96 | Returns the next octets and advances, or leaves the position when too few are left. |
| Pickle.PickledStream.ReadLeb128 | crates/registry/src/pickle.rs:81-89 | Reads one number and advances behind it, or leaves the position. |
| Pickle.PickledStream.Unpickle | crates/registry/src/pickle.rs:114-265 | Decodes a value of the type in place: result and position are those of the specified decoder. |
| Pickle.PickledStream.UnpickleMap | crates/registry/src/pickle.rs:230-239 | The insertion loop of a hash map decodes the specified map. |
| Pickle.PickledStream.UnpickleList | crates/registry/src/pickle.rs:255-264 | The loop of an ordered map keeps all pairs in order. |
| PickleRoundTrip.RoundTrip | crates/registry/src/pickle.rs:114-265 | Unpickling a pickled value followed by any tail returns the value and stops exactly at the tail, for nested options, strings and maps in any iteration order. |
| PickleRoundTrip.InsertionKeepsAll | crates/registry/src/pickle.rs:230-239 | Inserting pairs with distinct keys in any order keeps every pair. |
| PickleRoundTrip.DecodedFits | crates/registry/src/pickle.rs:114-265 | Whatever any bytes decode to has lengths below 2^32. |
| PickleRoundTrip.RoundTripExactly | crates/registry/src/pickle.rs:168-265 | A value survives pickling between any bytes exactly if all its strings and maps are shorter than 2^32. |
| PickleRoundTrip.OrderIsIrrelevant | crates/registry/src/pickle.rs:216-240 | Two iteration orders of the same map decode to the same value. |
| PickleRoundTrip.EnvelopeRoundTripExactly | crates/registry/src/pickle.rs:28-75 | Sealing and opening returns payload and version exactly for versions below 128 and payloads below 2^32 bytes or that compression does not shorten. |
| PickleFormat.LebIsGroups | crates/utils/src/codec/leb128.rs:108-119 | A number is written in groups of seven bits, the lowest first, all but the last marked, none superfluous. |
| PickleFormat.DecodeLocal | crates/registry/src/pickle.rs:114-265 | What is decoded does not depend on the bytes behind it. |
| PickleFormat.TruncationIsRefused | crates/registry/src/pickle.rs:114-265 | An encoding that is cut off anywhere is refused. |
| PickleFormat.BadBytesAreRefused | crates/registry/src/pickle.rs:114-209 | Bytes above one for a truth value or an option, text that is not UTF-8 and numbers of too many groups are refused. |
| PickleFormat.SealedShape | crates/registry/src/pickle.rs:28-52 | Exactly payloads of more than 8192 bytes that compression shortens are compressed; the mark is the top bit of the version byte, and the size follows in four bytes, the lowest first. |
| PickleFormat.ShortEnvelope | crates/registry/src/pickle.rs:56-75 | Empty data and marked data without a size are refused. |
| Snowflake.Fields | crates/utils/src/snowflake.rs:113-123 | Milliseconds (43 bits), sequence (12) and node (9) can be read back from a composed id. |
| Snowflake.OrAdds | crates/utils/src/snowflake.rs:122-122 | Or of words without a common bit is addition. |
| Snowflake.StepKeepsInv | crates/utils/src/snowflake.rs:52-123 | Every atomic step of every caller keeps each source's wrapping counter in line with the numbers drawn from it. |
| Snowflake.StepKeepsTickets | crates/utils/src/snowflake.rs:78-123 | No step hands out or spends a number of a source twice. |
| Snowflake.CountersMove | crates/utils/src/snowflake.rs:114-120 | A step moves at most one counter, that of the generator or the static one it draws from, by one. |
| Snowflake.CollisionsExactly | crates/utils/src/snowflake.rs:78-123 | In every interleaving over any generators and the static counter, two ids coincide exactly if both calls read the same millisecond (43 bits) and node and their places in the draws of their sources agree modulo 4096; within a source two places are never equal. |
| Snowflake.WindowIsUnique | crates/utils/src/snowflake.rs:113-123 | Among any 4096 consecutive draws of one source all ids differ, whatever clock and node settings do. |
| Snowflake.SourcesCollide | crates/utils/src/snowflake.rs:83-123 | Across sources uniqueness fails: the first `generate` and the first `global_id` of a millisecond issue the same id. |
| Snowflake.NodesApart | crates/utils/src/snowflake.rs:39-60 | Ids issued under different node numbers never collide, across generators too. |
| Snowflake.NodeIsLastSet | crates/utils/src/snowflake.rs:52-60 | Every id of every run carries the node number that was set last before its call finished, cut to nine bits, or 1. |
| Snowflake.GenerateIssues | crates/utils/src/snowflake.rs:114-123 | Among any other callers' steps, a call of `generate` issues the id of the clock it read, the number it drew and the node at its end; a clock before the epoch counts as zero. |
| Snowflake.GlobalIdIssues | crates/utils/src/snowflake.rs:83-94 | `global_id` draws first; a clock before the epoch loses the drawn number and issues nothing. |
| Snowflake.PastIdSeparates | crates/utils/src/snowflake.rs:101-107 | A past id is above exactly the issued ids of earlier milliseconds, in the 43 bits kept. |
| Snowflake.TimestampOfId | crates/utils/src/snowflake.rs:96-98 | An issued id tells the second its clock was read in. |
| Snowflake.TimestampRoundTrip | crates/utils/src/snowflake.rs:62-98 | A timestamp turned into an id and back is late by the whole seconds between the two clock reads; there is an id exactly if the timestamp is not in the future and not before the epoch. |
| Suite.InRangeExactly | crates/common/src/suite.rs:72-75 | Of all keys in the store, the scanned range holds exactly the records of its kind, whatever their length, and no key equals its end. |
| Suite.AccountsSortBelow | crates/common/src/suite.rs:10-15 | Account keys sort below every record of the suite. |
| Suite.Utf8BelowSentinel | crates/common/src/suite.rs:30-36 | No octet of a UTF-8 text reaches the octets that end the range. |
| Suite.KeyInjective | crates/common/src/suite.rs:30-36 | Distinct kinds or ids never share a key. |
| Suite.SuiteStore.Put | crates/common/src/suite.rs:46-51 | Writes one record; every other record of every kind and every account key is unchanged, and a value that does not serialise changes nothing. |
| Suite.SuiteStore.Get | crates/common/src/suite.rs:54-62 | Returns the decoded record, or none. |
| Suite.SuiteStore.Delete | crates/common/src/suite.rs:65-69 | Removes one record and changes nothing else. |
| Suite.SuiteStore.WriteAccountKey | crates/common/src/suite.rs:10-15 | Writes of the server to account keys leave every record alone. |
| Suite.SuiteStore.Iterate | crates/common/src/suite.rs:80-89 | The range scan returns exactly the keys in the range, ascending. |
| Suite.SuiteStore.List | crates/common/src/suite.rs:72-90 | Lists exactly the live records of a kind, once each and ascending by id; the first record that does not decode is the error. |
| Suite.AscendingIsUnique | crates/common/src/suite.rs:72-90 | Given ids have only one ascending order, so what a listing returns is determined. |
| Suite.SuiteStore.Replay | crates/common/src/suite.rs:46-69 | After any history of puts, deletes and account writes, every record holds what its own last write left. |
| SubTrees.RecordIds | resources/scripts/migrate_v016.py:552-561 | Finds exactly the record ids named by discriminator keys, once each. |
| SubTrees.RecordIdExactly | resources/scripts/migrate_v016.py:555-559 | A key names exactly the record that stands between the prefix and the discriminator. |
| SubTrees.Claim | resources/scripts/migrate_v016.py:566-573 | One record takes exactly the unclaimed settings under its head. |
| SubTrees.FirstClaimOwns | resources/scripts/migrate_v016.py:561-573 | In order of falling length, the first head to claim a key is the longest that prefixes it. |
| SubTrees.BuildSubTrees | resources/scripts/migrate_v016.py:546-574 | One tree per record id, holding exactly the settings of which it is the longest heading record, values unchanged. |
| SubTrees.OwnerIsUnique | resources/scripts/migrate_v016.py:565-573 | A setting has at most one longest heading record. |
| SubTrees.ExactlyOneTree | resources/scripts/migrate_v016.py:546-574 | Every setting under some record head lands in exactly one tree, with its value. |
| SubTrees.OwnDiscriminator | resources/scripts/migrate_v016.py:546-574 | With a discriminator free of dots every tree holds its own discriminator. |
| Macros.MacroIsSeen | resources/scripts/migrate_v016.py:641-649 | A text in which the pattern finds a macro passes the early test for `%{`. |
| Macros.NoErrorsBelow | resources/scripts/migrate_v016.py:655-667 | If expansion reports no error, every setting referred to exists, is not being expanded already and expands without error itself. |
| Macros.CleanMeansAcyclic | resources/scripts/migrate_v016.py:643-690 | Expansion ends for all settings, and when it reports no error no chain of references repeats a setting or names a missing one. |
| MacroExpansion.ScanMacro | resources/scripts/migrate_v016.py:641 | The pattern takes a macro, as it is written, where one starts. |
| MacroExpansion.ScanPlain | resources/scripts/migrate_v016.py:641 | Where none starts a single character is passed over. |
| MacroExpansion.ScanLosesNothing | resources/scripts/migrate_v016.py:641 | The pieces of a text, written one after the other, are the text; no argument holds a closing brace. |
| MacroExpansion.BareStays | resources/scripts/migrate_v016.py:648-649 | A text without `%{` comes back as it is. |
| MacroExpansion.ResolveFollows | resources/scripts/migrate_v016.py:684-690 | Without errors all macros are replaced at once, from left to right, up to eight times; the result is the text in which nothing is left to replace, or the eighth. |
| MacroExpansion.OneRound | resources/scripts/migrate_v016.py:648-690 | If what is put in holds no macro, the result is the plain characters and the replacements in order. |
| MacroExpansion.OneMacro | resources/scripts/migrate_v016.py:652-682 | A macro between two texts is replaced by the content of the file, the value of the variable, or the expansion of the setting it names. |
| MacroExpansion.OneComplaint | resources/scripts/migrate_v016.py:655-682 | A macro that names nothing, or a setting being expanded, is dropped with exactly its complaint. |
| Signatures.KeyIsContent | resources/scripts/migrate_v016.py:1212-1216 | A private key given as `%{file:...}%` is the stripped content of that file. |
| Signatures.SettingsRead | resources/scripts/migrate_v016.py:1188-1211 | Algorithm, selector, domain and canonicalization are read from their own keys, with the default where it is missing or blank. |
| DomainIndex.InferredIsNamed | resources/scripts/migrate_v016.py:834-866 | Whatever domain is inferred for an individual, group or list is one that principal brings into the index. |
| DomainIndex.InferredFromEmails | resources/scripts/migrate_v016.py:932-945 | The address search only ever returns the domain of one of the addresses. |
| DomainIndex.InferredExactly | resources/scripts/migrate_v016.py:932-945 | The first address whose local part is the name decides; without one the first address that has a domain; otherwise there is none. |
| DomainIndex.LastDeclaredExactly | resources/scripts/migrate_v016.py:869-874 | The principal behind which none declares the domain decides. |
| DomainIndex.VotesAreVoters | resources/scripts/migrate_v016.py:905-914 | The votes of a domain are the number of individuals, groups and lists at it. |
| DomainIndex.AddressSplits | resources/scripts/migrate_v016.py:410-418 | An address splits at its last `@`, its domain stripped and in lower case. |
| DomainIndex.ResolutionNeverMisses | resources/scripts/migrate_v016.py:964-990 | Against a built index no domain is ever missing: a mail principal fails to resolve exactly if its name is malformed or nothing names any domain, and otherwise resolves to an indexed domain. |
| Signatures.SignatureTrees | resources/scripts/migrate_v016.py:1183-1187 | The signature subtrees of the settings, in the order of their ids. |
| DomainIndex.DefaultExactly | resources/scripts/migrate_v016.py:899-921 | There is a default domain exactly if there is any domain. |
| BuiltTables.AliasIndexed | resources/scripts/migrate_v016.py:992-1021 | A built alias keeps the local part of its address and refers to the record of the address's domain. |
| BuiltTables.BuiltIsLinked | resources/scripts/migrate_v016.py:992-1078 | Domain, alias domains and tenant of a built account or list are all indexed. |
| BuiltTables.FailureIsNotMissing | resources/scripts/migrate_v016.py:1023-1036 | Building accounts never fails with a domain missing from the index. |
| BuiltTables.TablesLinked | resources/scripts/migrate_v016.py:812-1243 | Every reference of the built records names a built record. |
| BuiltTables.TablesApart | resources/scripts/migrate_v016.py:751-758 | No client id stands for two built records: tables are numbered one after the other, accounts keep their old ids. |
| BuiltTables.InOrderOfIds | resources/scripts/migrate_v016.py:1132-1133 | Lists are numbered by rising old id, a missing one standing at zero, equal ones in their order. |
| Converter.Converter.BuildTenants | resources/scripts/migrate_v016.py:812-832 | One record per tenant principal with a name, numbered in the order of names; the index leads to the last record of each name. |
| Converter.Converter.CollectDomainNames | resources/scripts/migrate_v016.py:834-866 | Collects exactly the domains named by domain principals, names and addresses of mail principals, and signatures. |
| Converter.Converter.DeclaredDomains | resources/scripts/migrate_v016.py:869-874 | Maps each declared domain to the last principal declaring it. |
| Converter.Converter.BuildDomains | resources/scripts/migrate_v016.py:868-897 | The index holds exactly the named domains, names and client ids in bijection, numbered in the order of names, each owned by the tenant of its last declaring principal. |
| Converter.Converter.PickDefaultDomain | resources/scripts/migrate_v016.py:899-921 | No default iff there is no domain; otherwise the domain most mail principals use, ties to the name that sorts first, in all three branches. |
| Converter.Converter.CountInferred | resources/scripts/migrate_v016.py:907-914 | Counts for each domain the mail principals whose own domain it is. |
| Converter.Converter.TenantDefaultDomainCid | resources/scripts/migrate_v016.py:947-962 | The tenant's own domain that sorts first, or none when it owns none. |
| Converter.Converter.ResolveNameAndDomain | resources/scripts/migrate_v016.py:964-990 | Resolves in the order: domain of the name, inferred domain, tenant default, default; with the errors of each. |
| Converter.Converter.BuildAliases | resources/scripts/migrate_v016.py:992-1021 | The aliases are exactly the other indexed addresses with a local part, each once. |
| Converter.Converter.BuildAccount | resources/scripts/migrate_v016.py:1038-1078 | A user or group under its old id with resolved name, aliases and tenant, or the reason it cannot be built. |
| Converter.Converter.BuildAccounts | resources/scripts/migrate_v016.py:1023-1036 | Exactly one account per individual and group with pairwise different ids, or an error some principal justifies. |
| Converter.Converter.BuildMailingLists | resources/scripts/migrate_v016.py:1131-1158 | One record for exactly the lists that resolve, numbered by old id with equal ids in their order; the others are skipped. |
| Converter.Converter.SortedLists | resources/scripts/migrate_v016.py:1132-1133 | The lists ordered by old id, a missing one counting as zero, and stably. |
| Sorting.LexExactly | resources/scripts/migrate_v016.py:561 | A string sorts before another exactly if it is a proper prefix of it or has the smaller character where they first differ. |
| Converter.Converter.BuildSignature | resources/scripts/migrate_v016.py:1186-1242 | A signature is kept exactly if algorithm, selector, domain and private key are good, with those settings; a key given as `%{file:...}%` is the content of the file. |
| Converter.Converter.BuildDkimSignatures | resources/scripts/migrate_v016.py:1182-1243 | One record for exactly the signatures of indexed domains with a known algorithm, a selector and a key that expands, numbered in the order of their ids, with the domain's own tenant. |
| Converter.Converter.Build | resources/scripts/migrate_v016.py:760-767 | The tables are exactly those of the input (tenants, domains, accounts, lists, signatures, and as many certificates as the settings hold), under client ids drawn table after table; no error is about a missing domain. |
| Converter.Converter.Run | resources/scripts/migrate_v016.py:760-810 | The exported operations hold exactly the validated tables of the input, certificates in their number, followed by exactly the updates of the system settings and of the other singletons in their fixed order; every reference of every record, account aliases included and mailing-list aliases excepted, names a record created by an earlier operation; no client id is created twice; a mailing-list alias and the default domain are created in time exactly if the domain has an acceptable name. |
| Converter.ExportConverts | resources/scripts/migrate_v016.py:1858-2015 | Validation and staged export of the built tables meet all of these promises. |
| Converter.Convert | resources/scripts/migrate_v016.py:726-810 | The same from settings and principals: the signatures are those of the settings, their macros expanded against the settings, and an error is that of an account under the index of this very input. |
| Converter.AliasDangles | resources/scripts/migrate_v016.py:1131-1158 | For every name check that accepts `g.co` and rejects `b`, as that of lines 423-436 does: the list `l@g.co` with the address `x@b` is exported, with an alias whose domain no operation creates. |
| Converter.DanglingAlias | resources/scripts/migrate_v016.py:1934-1943 | Converting that list succeeds, and the export refers to a domain it never creates. |
| Migration.EveryAccount | resources/scripts/migrate_v016.py:726-810 | Said of the principals alone: every individual and group has one address (its own name, else its name at the domain of its own or first address, the first domain of its tenant, or the most used domain). At an accepted domain, with a name that can be repaired, it is exported under its old id at that address, within its tenant, with exactly its other addresses at accepted domains as aliases, each once, all behind the domains and the tenant they name; otherwise it is not exported. |
| Migration.OnlyPrincipals | resources/scripts/migrate_v016.py:1023-1036 | No other account is exported, and no two principals share an id. |
| Migration.EveryList | resources/scripts/migrate_v016.py:1131-1158 | Every mailing list that has an address is exported there if the domain is accepted, with its other addresses at accepted domains among its aliases. |
| Migration.EverySignature | resources/scripts/migrate_v016.py:1182-1243 | Every usable signature of an accepted domain is exported behind that domain with its settings; a key given as `%{file:...}%` is the content of the file. |
| Migration.ResolvedIsHome | resources/scripts/migrate_v016.py:923-990 | A resolved name is that address. |
| Migration.OwnsExactly | resources/scripts/migrate_v016.py:947-962 | A domain belongs to the tenant of the last principal that declares it, if that names one. |
| Migration.TenantsAre | resources/scripts/migrate_v016.py:812-832 | The indexed tenants are exactly the named tenant principals, each under its own client id. |
| Records.ValidateDomains | resources/scripts/migrate_v016.py:1865-1879 | Drops exactly the domains without an acceptable host name. |
| Records.ValidateAccounts | resources/scripts/migrate_v016.py:1881-1932 | Keeps exactly the accounts of accepted domains whose name is or can be repaired, with repaired names and filtered aliases, everything else unchanged. |
| Records.WithoutAtExactly | resources/scripts/migrate_v016.py:1895-1897 | The repair of a name takes out every `@` and nothing else. |
| Records.ValidateLists | resources/scripts/migrate_v016.py:1934-1943 | Drops exactly the lists of rejected domains. |
| Records.ValidateDkim | resources/scripts/migrate_v016.py:1945-1956 | Drops exactly the signatures of rejected domains. |
| Records.ValidationKeepsLinks | resources/scripts/migrate_v016.py:1858-1956 | Validation drops every record whose domain it rejects, so kept references stay good. |
| Records.BuildExportOps | resources/scripts/migrate_v016.py:1991-2015 | Operations conserve the records exactly, each under its object type, and are staged: tenants, domains, groups, users, lists, signatures, certificates, then exactly the singletons present, in their order. |
| Records.CreatedInOrder | resources/scripts/migrate_v016.py:1991-2015 | Tenants, domains, groups, users, mailing lists, signatures and certificates are created in this order. |
| Records.DomainComesBefore | resources/scripts/migrate_v016.py:1991-2015 | A domain is created before any record that can refer to it exactly if it is exported at all. |
| Records.ReferencesInTime | resources/scripts/migrate_v016.py:1991-2015 | In staged operations every reference to an exported record is created in time. |
| Records.ExportKeepsOrder | resources/scripts/migrate_v016.py:1858-2015 | Validation and export together: each reference of each exported record is created by an earlier operation. |
| Records.ExportIsUnique | resources/scripts/migrate_v016.py:1991-2015 | No client id is created by two operations. |
| Records.ListAliasExactly | resources/scripts/migrate_v016.py:1934-1943 | The reference of a mailing-list alias is created in time exactly if its domain has an acceptable name. |
| Records.DomainExactly | resources/scripts/migrate_v016.py:1865-1879 | By the end of the export a domain is created exactly if it has an acceptable name. |
| Ossify.RemoveProprietarySnippets | resources/scripts/ossify.py:75-112 | The nested scan returns the text without exactly the lines lying in some proprietary snippet and counts the dropped blocks. |
| Ossify.ContainsJoined | resources/scripts/ossify.py:98-99 | The marker is in the joined snippet exactly if it is in one of its lines. |
| Ossify.SameEnd | resources/scripts/ossify.py:92-96 | Snippets opened inside a snippet end where it ends, so skipping the outer one skips them. |
| Ossify.OpenSnippetStaysWhole | resources/scripts/ossify.py:104-107 | A snippet that is not proprietary and does not start inside one that is stands whole in the output: its lines are contiguous behind the lines kept before it, and it ends there where it ended. |
| Ossify.NothingProprietaryRemains | resources/scripts/ossify.py:75-112 | The stripped text holds no proprietary snippet. |
| Ossify.UnchangedExactly | resources/scripts/ossify.py:75-112 | A text comes back as it is exactly if it holds no proprietary snippet. |
| Ossify.Idempotent | resources/scripts/ossify.py:75-112 | A second pass changes nothing and drops nothing. |
| Ossify.MarkedBlock | resources/scripts/ossify.py:75-112 | A block between its two markers, spelled out, is dropped as a whole if it names the proprietary licence and kept as a whole if not. |

## Left out

- Pickle.PickledStream.Unpickle: an offset plus length is not wrapped at the word size; enumerations and event keys, which are tables over `u16`, are not modelled.
- ReceiverInvariant.RunKeepsInv: does not bound the number of tokens, since an empty quoted string is free of charge.
- Glob.Compile: lower-casing is an abstract function, as the Unicode tables are not part of this model.
- Topological.TopologicalSort.IntoIterator: the order in which nodes leave the hash map is left open.
- Converter.Converter.BuildTenants: the logo and the quotas of a tenant are not modelled; they are copied field by field.
- Converter.Converter.BuildDomains: the description and the logo of a domain are not modelled.
- Converter.Converter.BuildAccount: credentials, group membership, quotas and descriptions are not modelled.
- Converter.Converter.BuildMailingLists: the recipients and the description of a list are not modelled.
- Converter.Converter.Run: the check for duplicate addresses and the contents of certificates and singletons are not modelled; references of group membership are not claimed.
- Records.ReferencesInTime: aliases of mailing lists are excepted, see `Records.ListAliasExactly`.
- Receiver errors carry a kind and the tag, not their message texts; warnings printed by the migration script are omitted.
- JSON coercion of principals, `strip`, `lower` and the host name pattern are abstract functions or already applied.
- The table of commands, UTF-8 validity in the receiver, LZ4 (its inversion, and that it never returns more than the declared size) and the record codecs of the suite are parameters.
- `GlobMap` and the serde deserialiser of globs: the same lookup as `GlobSet` with a value attached.
- `DeadProperty::size`, the template's size hint, buffer capacities and other performance hints.
- `Id::from_parts`, `document_id` and `prefix_id`: shifts by 32, easy.
- Positions recorded in glob pattern characters, which no code reads.
- Batching and backend errors of the suite store; one write is one step.
- `apply_path_patches`, the store sections and the drivers of the migration script.
- The crontab arithmetic of crates/utils/src/cron.rs, BlobId, API keys and application passwords.
- HTTP, DAV, JMAP, SMTP and POP3 handlers, the bridge, the extension and the web front end: input, output and dispatch.
