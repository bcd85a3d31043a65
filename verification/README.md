# mruby-zig: a verified model of its hard core

mruby-zig embeds mruby in Zig. This project models five of its components in Dafny and proves what
they are for:

* **StateCapsule codec.** A Ruby value graph is walked breadth-first, numbered by first encounter and
  written as bytes; a capsule is parsed, admitted, normalized for C, re-validated there and rebuilt in
  another interpreter while the collector may run at every allocation.
* **Hash-work admission.** The parser simulates the interpreter's open-addressing Hash insertion, and
  charges every probe against fixed budgets.
* **Allocator ownership and accounting.** Reference-counted owner tokens outlive the cells that pay
  for memory.
* **Sandbox execution.** The instruction hook, gas generations, preflight and verdict of an execution,
  admission of threads, and the load-once CodeDB loader.
* **The syscall filter compiler.** Allow lists are rendered to classic BPF.

`dafny verify dfyconfig.toml` checks the whole project.

## How the files fit together

* `Graph`, `Wire`, `Payload`, `Envelope`, `Visit`: values, bytes and the parser's walk as functions, with
  exact inverses. `Streams`, `CapsuleWriter`, `Parser`, `Admission`, `Exporter`: the same operations as the
  program runs them, cursor by cursor and buffer by buffer, each tied to its function.
* `Layout`, `EnvelopeLaws`, `Refusals`: the format written out byte by byte, what the checksum commits to, and what
  each error says.
* `HeapExport`, `Canonical`, `Distances`, `Numbering`: export as a walk over a heap, what it accepts, and why
  its numbering is canonical. A heap is a map from address to record; a graph is the same records keyed by
  position; `Holds` says a heap is a graph laid out at given addresses.
* `HashKeys`, `HashCodes`, `Probing`, `HashTable`, `HashWork`, `HashWorkLaws`, with `Arith`, `Bits`, `BigEndian`, `Sets`
  underneath. `Accumulate` ties loops that append to a list to functions that build it from the front.
* `Capsule`, `Transfer`: whole capsules and the laws between parse and export.
* `NormalGraph`, `Interpreter`, `Shells`, `Materializer`: the C side. The interpreter is a small class with a
  memory, an arena and a collector that at every allocation may free anything no root reaches.
* `RoundTrip`: the whole journey, from heap to bytes to heap and back to the same bytes.
* `Ledger`, `Allocation`: the allocator call by call. `OwnerTokens`: the same tokens under every interleaving of
  lock sections. `Charges`: the counters of the cells under the same interleavings.
* `Gas`, `Lifecycle`, `Hook`, `Execution`, `EntryProtocol`, `CodeDb`, `Loader`: the sandbox. One outer execution is
  a relation between states, `Executed`, that the methods are proved to establish; `ExecutionLaws` says what follows
  for any history of them, and `HookLaws` what one fetch and one verdict say in plain terms.
* `Seccomp`: the filter compiler and the interpreter for its output.

Modelling decisions:

* SHA-256 is a parameter: any function from bytes to 32 bytes. Nothing proved depends on which.
* `usize` is 64 bits. A checked addition that overflows is refused with the same error as the limit it feeds,
  and caller limits are themselves `usize`, so totals are unbounded numbers compared with the limit. Where
  width is visible (u32 wrap-around in probing, saturating counters, u32 lengths on the wire, the shift in the
  capacity rule) it is written out. Laws that mention `lim.encodedBytes < U64` only say that this limit is a
  `usize`.
* A borrowed C pointer is a number that is zero exactly when null, beside the bytes it points to.
* The duplicate-key map of the parser is modelled as a search for an equal key; `EqualKeysHashAlike` is what makes
  a hash map equivalent to that search.
* Choices outside the program are inputs quantified over: what a collection frees, where an object lands, which
  integers are boxed, whether an allocation succeeds, what the backing allocator returns, when `terminate`, the
  clock or a memory cap records a cause, what guest code does.
* The cause bits and the memory flags are sets and booleans; `fetchOr` and `fetchAnd` are single steps on them.

Where the code and its documentation part:

* `src/seccomp.zig:9-12`, `src/seccomp.zig:75-83`, `src/seccomp.zig:127-130` and `docs/workers.md:291-294` present an
  argument-gated entry as allowing its number only when the argument equals the entry's value. Two families of
  calls pass against that, and the model follows the code. The rendered block loads only the low 32 bits of the
  argument, so a call whose argument agrees there and differs above is let through: `prlimit64` with a non-null new
  limit at a multiple of 2^32 (`Seccomp.NonNullLimitPasses`), and `ioctl` with a request that is TCGETS in its
  low word only. And a number mismatch skips only the argument load, so the next comparison sees
  the number itself: a call whose number equals some entry's `value` is let through. With the shipped lists that is
  0x5401 on both architectures and, on aarch64, 0, which is `io_setup`; on x86_64 number 0 is `read`, which is listed
  (`Seccomp.ShippedOnX86`, `Seccomp.ShippedOnAarch64`). `Seccomp.DepartsExactly` says for every call when the program
  and its documentation differ, and `Seccomp.MeansWhatIsDocumented` says for which tables they never do.

## Model

| member | source | states |
|---|---|---|
| Wire.ReadWrittenRef | src/artifact.zig:555-584 | Reading a written value reference gives back that reference and the bytes after it, for every reference within its widths. |
| Wire.WriteReadRef | src/artifact.zig:555-584 | Whatever reference the reader accepts, writing it reproduces exactly the bytes consumed: the reference encoding is canonical. |
| Wire.ReadWrittenHeader | src/artifact.zig:603-640 | A node record header reads back as written. |
| Wire.WriteReadHeader | src/artifact.zig:603-640 | Every accepted node record header re-encodes to the bytes it was read from; reserved bytes and flag masks leave no second spelling. |
| Layout.FourByteInteger | src/artifact.zig:520-539 | Integers are most significant byte first. |
| Layout.ReferenceLayout | src/artifact.zig:555-584 | Tags 0 to 6 and the payload of each, written out. |
| Layout.HeaderLayout | src/artifact.zig:603-640 | The twelve bytes of a node record header, written out. |
| Layout.BodyLayout | src/artifact_value.zig:527-553 | A body is a count and what it counts; a Hash counts pairs and leaves its default out. |
| Layout.SelfArrayPayload | src/artifact_value.zig:517-554 | The whole payload of the array that contains itself, byte for byte. |
| Layout.SchemaLayout | src/artifact.zig:336-356 | Where a schema's ID, major and minor go, with zeros everywhere else. |
| Envelope.EnvelopeExactly | src/artifact.zig:157-228 | The envelope parser accepts exactly the writer's outputs within the byte limit, and returns what was written. |
| Envelope.ValidateExactly | src/artifact.zig:306-382 | State validation accepts exactly the envelopes of a payload with a well-formed schema that the caller's schema accepts, and returns both. |
| EnvelopeLaws.ChecksumCovers | src/artifact.zig:214-218 | An accepted envelope carries the digest of the domain text, everything before the checksum, 32 zeros and everything after it, payload included. |
| EnvelopeLaws.TamperingIsCollision | src/artifact.zig:660-674 | Two different accepted envelopes with the same checksum field are two different messages with one digest. |
| EnvelopeLaws.EnvelopeVerdict | src/artifact.zig:183-228 | On every byte string, by position: accepted with the stated fields, or refused for the first reason that applies; one that is wrong only in its checksum is a checksum mismatch. |
| EnvelopeLaws.StateVerdict | src/artifact.zig:360-382 | The state checks on the bytes: kind, flags, unused metadata, and then the schema. |
| EnvelopeLaws.SchemaVerdict | src/artifact.zig:60-65 | A capsule with a schema is for callers of the same ID and major and no lower minor, one without is for callers without; everything else is a schema mismatch. |
| Streams.Reader.ReadValueRef | src/artifact.zig:555-568 | The cursor reader computes the reading function on the remaining bytes, and advances past exactly what it consumed. |
| Streams.Reader.ReadNodeRecordHeader | src/artifact.zig:603-619 | The cursor reader computes the header-reading function. |
| Streams.Reader.ReadInt | src/artifact.zig:469-488 | Reading an integer takes its big-endian width off the remaining bytes, or reports a truncated stream. |
| Streams.Reader.ReadBytes | src/artifact.zig:490-497 | Reading bytes takes exactly that many off the remaining ones, or reports a truncated stream. |
| Streams.Writer.WriteValueRef | src/artifact.zig:571-584 | The buffer writer appends exactly the encoding of the reference, or reports that it does not fit. |
| Streams.Writer.WriteNodeRecordHeader | src/artifact.zig:622-632 | The buffer writer appends exactly the twelve header bytes, or reports that they do not fit. |
| Streams.Writer.WriteInt | src/artifact.zig:520-539 | Writing an integer appends its big-endian bytes, or reports that they do not fit. |
| Streams.Writer.WriteBytes | src/artifact.zig:541-552 | Writing bytes appends them, or reports that they do not fit. |
| Payload.ParseEncoded | src/artifact_value.zig:558-642 | Parsing the encoding of any graph succeeds exactly when the numbering walk accepts the graph, with the same error otherwise, and returns that graph. |
| Payload.ParsedIsEncoded | src/artifact_value.zig:558-730 | Every accepted payload is the encoding of the graph it parses to. |
| Payload.ParseIsInverse | src/artifact_value.zig:517-730 | Payload parsing is exactly the inverse of encoding on graphs the walk accepts. |
| CapsuleWriter.PayloadLength | src/artifact_value.zig:495-515 | The measuring pass returns the length of the encoding, and refuses exactly when a body length or the total does not fit. |
| CapsuleWriter.BodyLength | src/artifact_value.zig:505-515 | The measured body length is the length of the encoded body, refused exactly when it does not fit 32 bits. |
| CapsuleWriter.WriteNode | src/artifact_value.zig:527-553 | One record: header and body are appended as encoded, exactly when they fit. |
| CapsuleWriter.EncodePayloadInto | src/artifact_value.zig:517-554 | The writing pass succeeds exactly on a buffer of the measured length, and leaves the encoding in it. |
| CapsuleWriter.EncodeEnvelopeInto | src/artifact.zig:157-181 | Filling the envelope in place, checksum last, leaves exactly the specified envelope bytes. |
| HeapExport.ExportSound | src/artifact_value.zig:168-476 | If export numbers a heap, the heap really holds the numbered graph at the recorded addresses, and the parser's walk accepts that graph with the very same depths and totals. |
| Canonical.ExportComplete | src/artifact_value.zig:303-463 | If a heap holds a graph the parser's walk accepts, export returns exactly that graph. |
| Canonical.ExportExactly | src/artifact_value.zig:238-463 | Export returns a graph with an address order if and only if the heap holds it there and the walk accepts it within 32-bit counts. |
| Canonical.IsomorphicHeapsExportAlike | src/artifact_value.zig:303-323 | Renaming the addresses of a heap by any root-preserving isomorphism renames the address order and changes nothing else: the same graph, or the same error at the same point of the walk. |
| Canonical.AcceptedGraphIsCanonical | src/artifact_value.zig:841-854 | An accepted graph laid out as a heap exports to itself. |
| Canonical.IsomorphicGraphsAreEqual | src/artifact_value.zig:841-854 | A root-preserving isomorphism between two accepted graphs is the identity on node IDs, and the graphs are equal. |
| Distances.DepthIsDistance | src/artifact_value.zig:611-642 | The depth recorded for every accepted node is the length of a shortest path from the root, and IDs are ordered by depth. |
| Numbering.AcceptedExactly | src/artifact_value.zig:611-642 | The walk accepts a graph if and only if IDs appear in first-encounter order covering every node, and node, edge, string, symbol and true-distance quotas hold. |
| Exporter.NumberHeap | src/artifact_value.zig:168-236 | The exporter's cursor loop with its address map computes the export function on every heap, errors included. |
| Exporter.ExportContext.ExportRef | src/artifact_value.zig:238-324 | One reference: the address map, the node list and the quotas move exactly as the specification of export says. |
| Exporter.ExportContext.AddNode | src/artifact_value.zig:303-323 | A first encounter appends the address at the next ID with its depth and maps the address to that ID. |
| Exporter.ExportContext.ReserveEdges | src/artifact_value.zig:481-493 | Edges are reserved in bulk before any is visited, within the quota and the 32-bit count. |
| Exporter.EncodeCapsule | src/artifact_value.zig:203-222 | Measure, fill and frame: the bytes are the wrapped encoding, or the limit error. |
| Exporter.ExportContext.Inspect | src/artifact_value.zig:326-464 | One node: state checks, edge reservation, key checks and edges, with the finished record stored at its ID. |
| Exporter.ExportValue | src/artifact_value.zig:168-236 | The whole of exportValue, preflight admission included, computes `ExportCapsule`. |
| HashKeys.EqualKeysHashAlike | src/artifact_value.zig:1087-1135 | Equal keys feed the duplicate map's hasher the same bytes, both zero signs included. |
| HashKeys.ZeroSignsWouldHashApart | src/artifact_value.zig:1110-1135 | Without zero normalization the law fails: the two zeros are equal and would hash apart. |
| HashKeys.EqualKeysSameCode | src/artifact_value.zig:1049-1085 | Equal keys have the same 32-bit interpreter hash code. |
| HashKeys.KeyEquality | src/artifact_value.zig:1098-1107 | Keys are equal when they are the same, except that the two zeros are equal and a NaN is not even to itself, by bit pattern. |
| HashKeys.LegalKeys | src/artifact_value.zig:1110-1135 | Which references are legal keys and what each is compared as. |
| HashCodes.MixBit | src/artifact_value.zig:1062 | Bit i of the mixed code is the sum of bits i - 2, i and i + 2 of the base. |
| HashCodes.MixSeparates | src/artifact_value.zig:1062 | The final mix is one-to-one on 32-bit words. |
| HashCodes.IntegerCodes | src/artifact_value.zig:1049-1063 | Integers have the same code if and only if their low 32 bits agree. |
| HashCodes.OneByteApart | src/artifact_value.zig:1065-1072 | Byte strings that differ in exactly one byte have different hashes. |
| HashCodes.FnvKnown | src/artifact_value.zig:1065-1072 | The known FNV-1 answers for the empty string and "a". |
| HashCodes.NameCodes | src/artifact_value.zig:1049-1063 | String and symbol keys that differ in one byte have different codes; a symbol and a string of the same bytes have the same. |
| HashCodes.FloatCodes | src/artifact_value.zig:1052-1057 | Float keys are hashed by their bits, low byte first, and both zeros have code 0. |
| Probing.PositionMeaning | src/artifact_value.zig:961-976 | The probe position computed with wrapping u32 arithmetic is the start plus the triangular number, modulo the capacity, for capacities up to 2^31. |
| Probing.ProbesDistinct | src/artifact_value.zig:961-976 | Distinct steps below the capacity probe distinct buckets. |
| Probing.ProbesCoverEveryBucket | src/artifact_value.zig:961-976 | The first `capacity` probes reach every bucket, so an insertion always finds an empty one. |
| HashTable.Capacity | src/artifact_value.zig:1040-1047 | The doubling rule returns the least power of two above the pair count with load at most 3/4, and it is below 8n/3. |
| HashTable.TableIndexes | src/artifact_value.zig:950-976 | In the filled table every key is stored at its own first free probe, with only earlier keys before it. |
| HashTable.TableAgreesWithList | src/artifact_value.zig:950-976 | Looking a key up in the simulated table answers exactly like searching the key list from the front. |
| HashTable.CostBound | src/artifact_value.zig:950-995 | Filling a table with n keys costs between n and n(n+1)/2 probes under any hash codes. |
| HashTable.CollisionCost | src/artifact_value.zig:950-995 | Keys that agree modulo the capacity cost exactly n(n+1)/2 probes. |
| HashWork.Meter.AddHashProbe | src/artifact_value.zig:979-995 | A probe is counted before the per-hash and the total budget are compared. |
| HashWork.Meter.AddStringComparison | src/artifact_value.zig:997-1020 | Comparing two strings of equal length costs their length, within the total budget. |
| HashWork.Meter.InsertKey | src/artifact_value.zig:950-976 | One insertion walks its probe sequence to the first empty bucket, paying for every probe and string comparison, and leaves the table of the specification. |
| HashWork.Meter.Simulate | src/artifact_value.zig:903-995 | The simulation, budgets checked probe by probe and early exits included, charges exactly `Admit`: total pairs, probes and comparison bytes, or the limit error. |
| HashWork.BudgetCrossing | src/artifact_value.zig:1022-1038 | The per-hash budget covers the triangular worst case exactly up to 23 pairs. |
| HashWork.SmallHashesNeverRefused | src/artifact_value.zig:908-995 | With at most 23 pairs no key codes can exceed the per-hash budget. |
| HashWork.FullCollisionsRefused | src/artifact_value.zig:908-995 | From 24 pairs on, fully colliding keys always exceed it. |
| HashWork.EqualLowWordsCollide | src/artifact_value.zig:1049-1063 | Integers with equal low 32 bits collide at every capacity. |
| HashWorkLaws.SpreadCost | src/artifact_value.zig:950-976 | Keys whose codes select pairwise different buckets cost exactly one probe each. |
| HashWorkLaws.CostAfterPrefix | src/artifact_value.zig:950-995 | After any prefix the rest costs no more than in the triangular worst case. |
| HashWorkLaws.TwentyFourIntegers | src/artifact_value.zig:908-995 | The Hash with the keys 0 to 23 is admitted, at no more than 285 of its 288 probes. |
| HashWorkLaws.ComparisonsMeaning | src/artifact_value.zig:997-1020 | If each comparison costs c bytes, a hash costs c bytes for every probe beyond one per pair. |
| HashWorkLaws.EqualLengthStrings | src/artifact_value.zig:915-935 | Up to 16 equally long strings are compared with all before them, byte by byte. |
| HashWorkLaws.AdmitVerdict | src/artifact_value.zig:896-916 | The verdict on one hash in numbers; the ceiling of 4,000,000 probes can never be the reason. |
| HashWorkLaws.AdmissionExactly | src/artifact_value.zig:859-1020 | A capsule's hashes are admitted if and only if each has legal, unequal keys within its own budget, there are at most 250,000 pairs, and comparisons stay within 128 MiB. |
| Capsule.HashCheckMeaning | src/artifact_value.zig:859-895 | Admitted graphs have legal, pairwise unequal keys in every hash, and graphs with such keys are refused only for their work. |
| Capsule.ParseExactly | src/artifact_value.zig:558-651 | parse returns a graph and schema if and only if the bytes are the capsule of that graph and schema, the graph is numbered, within quotas and admitted, and the schema is accepted. |
| Capsule.AcceptableIsWellFormed | src/artifact_value.zig:558-730 | Parsed graphs have well-shaped records, IDs in range and frozen-string or scalar hash keys. |
| Parser.ParseContext.ParseRef | src/artifact_value.zig:803-857 | One reference: seen flags, depths, next ID and quotas move as the walk says, and the normalized reference is the decoded one. |
| Parser.ParseContext.ParseEdgeRun | src/artifact_value.zig:732-801 | A run of edges is read, visited and stored in order at the edge cursor. |
| Parser.ParseContext.ParseNodeBody | src/artifact_value.zig:668-730 | A body is read by kind, and its normalized node stored with the right offset and count. |
| Parser.ParseContext.ParseNodeRecord | src/artifact_value.zig:617-730 | One node record: header, body and announced length are checked as specified, and the normalized node and edges are stored. |
| Parser.ParseAll | src/artifact_value.zig:574-651 | The imperative parser, with its buffers and cursors, computes the payload parser and returns the normalized graph. |
| Admission.CollectKeys | src/artifact_value.zig:859-895 | One hash node: its keys are collected from the normalized edges exactly when they are legal and pairwise unequal. |
| Admission.ValidateParsedHashKeys | src/artifact_value.zig:859-895 | The pass over all hash nodes has the outcome of the specification, running totals included. |
| Admission.Parse | src/artifact_value.zig:558-651 | The whole of parse: same result and same error as `ParseCapsule`, and the returned C graph is the normalization of the parsed one. |
| Transfer.ExportMeaning | src/artifact_value.zig:168-236 | Export returns the canonical capsule exactly when the numbered graph is acceptable; on heaps whose hashes hold no two equal keys it never ends in a construction failure. |
| Transfer.ExportThenParse | src/artifact_value.zig:168-236 | Parsing an exported capsule succeeds and returns a graph the exporting heap holds, root included. |
| Transfer.ParseThenExport | src/artifact_value.zig:558-651 | Any heap holding a parsed graph exports, under the same limits and schema, to the very bytes that were parsed. |
| Transfer.IsomorphicHeapsSameBytes | src/artifact_value.zig:168-236 | Isomorphic heaps export to equal bytes or fail alike, with the same error, whichever stage it comes from. |
| Transfer.SelfReferenceTravels | src/artifact_value.zig:168-236 | An array containing itself is exported, as one node whose only edge is node 0, under any limits with room for one node and one edge. |
| Refusals.VisitErrors | src/artifact_value.zig:803-857 | Each answer to one reference, exactly when it is given. |
| Refusals.PayloadErrors | src/artifact_value.zig:574-730 | Payload parsing reports two errors; wider limits change a refusal for a limit and nothing else. |
| Refusals.OnlyQuotasRefuse | src/artifact_value.zig:574-730 | The encoding of a numbered graph is refused if and only if it exceeds a quota, and for that. |
| Refusals.ExportErrors | src/artifact_value.zig:238-476 | Export refuses only what deserves it: an unsupported value, an odd state or a bad key reachable from the root, or a limit. |
| NormalGraph.CheckGraph | src/shim.c:1845-1898 | The three C validation passes return true exactly on graphs meeting the C contract. |
| NormalGraph.NormalIsValid | src/shim.c:1845-1898 | The normalization of every well-formed graph meets the C contract. |
| Shells.FillingAdvances | src/shim.c:1998-2040 | Appending a decoded edge to a shell after any collection leaves every other shell, its owner table and its boxed numbers as they were. |
| Materializer.DecodeRef | src/shim.c:1906-1939 | A decoded reference denotes the right value, is safe from the next collection, and costs at most one arena slot. |
| Materializer.DecodeScalar | src/shim.c:1906-1939 | A scalar decodes to itself or to a fresh box, and anything above the node tag is invalid. |
| Materializer.TrimArena | src/shim.c:1941-1948 | Trimming leaves exactly the caller's roots and the root table on the arena, or reports exhaustion when protecting the table cannot grow the arena. |
| Materializer.AllocateShell | src/shim.c:1964-1995 | The first pass adds an empty shell of the right kind, owned by the root table. |
| Materializer.InsertPair | src/shim.c:2018-2027 | Inserting a pair reports an invalid graph only if two keys of the node are equal, and otherwise appends it in order. |
| Materializer.StorePair | src/shim.c:2010-2029 | A key is still safe after its value was decoded, and the arena is trimmed after the pair is stored. |
| Materializer.PushEdge | src/shim.c:2000-2008 | An array element is decoded and appended in order. |
| Materializer.StoreDefault | src/shim.c:2030-2039 | The default is stored after the pairs, as a default and not as a pair. |
| Materializer.Seal | src/shim.c:2042-2045 | A flagged container is frozen only once it is complete. |
| Materializer.FillNode | src/shim.c:1996-2046 | The second pass fills a node with all its edges and default, freezes it last if flagged, and ends normally only if its keys are pairwise unequal. |
| Materializer.MaterializeBody | src/shim.c:1949-2049 | Under any collections and allocation failures: a finished graph has every record, edge, default and frozen flag in place; the arena never exceeds its saved index by more than three. |
| Materializer.Materialize | src/shim.c:2063-2135 | Success means a valid graph with unequal keys stands in memory and exactly the result was added to the arena; a failure adds nothing, reports exhaustion or an unexpected exception only if an allocation or a protection failed, and reports an invalid graph only if it is one; an invalid graph is refused before anything is touched. |
| RoundTrip.BuiltHolds | src/shim.c:1949-2049 | What was built from a parsed graph is, seen as a heap, that graph at the shell addresses. |
| RoundTrip.ParsedKeysDistinct | src/artifact_value.zig:859-895 | Keys the parser found unequal are unequal on the C side, so each insertion grows the Hash by one. |
| RoundTrip.ParsedIsBuildable | src/artifact_value.zig:558-651 | A parsed graph meets every requirement of the materializer. |
| RoundTrip.MaterializedExportsSame | src/shim.c:1949-2049 | Exporting a materialized capsule under the same limits and schema gives back its bytes. |
| RoundTrip.HoldersAreIsomorphic | src/artifact_value.zig:168-236 | Two heaps that hold the same graph are isomorphic object by object: cycles, aliases, pair order, frozen flags, defaults and scalar bits. |
| RoundTrip.ImportedIsIsomorphic | src/artifact_value.zig:168-236 | A value exported from one heap and imported into another is isomorphic to the original. |
| RoundTrip.Import | src/sandbox.zig:689-737 | Parse, the sticky cap check, then materialize in a running interpreter, with the program's error for each outcome: a parse error or a sticky cap touches nothing, after them only the interpreter raising can fail the import, a success is byte-identical on re-export, and everything reachable before is still there unchanged either way. |
| Allocation.OwnerToken.Prepare | src/alloc.zig:185-226 | Accepts exactly within both caps and without a sticky hard breach, records the breach otherwise, and takes a reference only on acceptance. |
| Allocation.OwnerToken.AccountNew | src/alloc.zig:228-235 | Charges a new block and raises the peak if it is passed. |
| Allocation.OwnerToken.AccountResize | src/alloc.zig:237-248 | Moves the charge from the old size to the new for the same owner, and adds a block for an adopted one. |
| Allocation.OwnerToken.Release | src/alloc.zig:258-272 | Drops one reference, and the charge when a block is freed, and says when it was the last. |
| Allocation.OwnerToken.Retire | src/alloc.zig:274-282 | Detaches the cell, drops its reference and says when it was the last. |
| Allocation.BlockRemoved | src/alloc.zig:376-397 | Removing a block lowers its owner's charge and count by exactly that block, and no one else's. |
| Allocation.ChargeBounded | src/alloc.zig:376-448 | No owner's charge exceeds the process-wide total, so no counter saturates. |
| Allocation.Allocator.InitOwnership | src/alloc.zig:149-154 | A cell without a token gets a fresh one with one reference, or nothing changes; the books balance afterwards if and only if the cell brings no charge. |
| Allocation.Allocator.RetireOwnership | src/alloc.zig:156-160 | The token outlives its cell exactly when some header still names it. |
| Allocation.Allocator.PushIsolate | src/alloc.zig:313-318 | Attribution moves to the cell and the previous one is remembered. |
| Allocation.Allocator.RestoreIsolate | src/alloc.zig:320-323 | Attribution returns to what the guard remembered. |
| Allocation.Allocator.Free | src/alloc.zig:384-396 | Freeing removes the block, its charge and its reference, and the token with its last one. |
| Allocation.Allocator.Place | src/alloc.zig:412-445 | In-place growth is tried first, and a new allocation only where it declines; only a declined new allocation counts as a backing failure. |
| Allocation.Allocator.AllocFunc | src/alloc.zig:376-448 | Every call that overlaps no other keeps the books: each live cell's bytes and blocks are the sum and count of the blocks its token owns, each token's references are one for its cell plus its headers, the process totals match. The header's owner pays if there is one, and otherwise the isolate running on this thread; for it a new or adopted block is refused exactly past its hard cap or then its soft cap, which latches the breach, and a served one raises its bytes by the size and its blocks by one. A served request keeps the old prefix; a failed one changes no block, charge or reference, and is due to an overflow, a cap, or a backing failure, which is counted; a token goes exactly when nothing names it. |
| OwnerTokens.TouchedExists | src/alloc.zig:185-283 | No lock section works on a destroyed token. |
| OwnerTokens.InvKept | src/alloc.zig:376-448 | Every lock section, by any thread in any order, keeps the reference count equal to its holders. |
| OwnerTokens.TokenLifetime | src/alloc.zig:161-283 | In every interleaving: the count is one for an unretired cell plus live headers plus references in flight, and a token is destroyed exactly once, when that is zero. |
| OwnerTokens.HeaderNamesPayer | src/alloc.zig:376-448 | In every interleaving a new header names the owner of the block the call started from, or else the token the call was made under. |
| Charges.ChargeConservation | src/alloc.zig:228-272 | In every interleaving, absent saturation: a live cell's bytes and blocks are the sum and count of the blocks its token owns, corrected by exactly what calls in flight have written and not yet accounted or freed and not yet released; with none in flight they are equal; and no subtraction ever exceeds the counter. |
| Charges.ChargesInFlight | src/alloc.zig:376-448 | The correction, in the program's own terms: headers written count at the size already paid, through new, adopting, in-place and moving reallocation, and freed blocks count until released. |
| Charges.BookKept | src/alloc.zig:376-448 | Every lock section, by any thread in any order, keeps every charge with the block or the call it belongs to, and every live cell's counters equal to the charges on its token. |
| Charges.NeverBelowZero | src/alloc.zig:237-272 | What a lock section is about to subtract from a live cell is there. |
| Gas.ObservedThenCharged | src/gas.zig:77-92 | `used + remaining == limit` survives observing and charging a fetch. |
| Gas.NextGeneration | src/gas.zig:94-103 | A fresh generation starts with the full allowance and the next, saturating, number. |
| Gas.FirstGeneration | src/gas.zig:35-75 | The isolate's allowance is generation 1, and so is that of the first execution. |
| Hook.Isolate.FetchHook | src/sandbox.zig:1394-1474 | The hook computes `Step`: what it records, delivers, enforces and charges, with `terminate` and memory breaches of other threads arriving before or between its reads. |
| Hook.Isolate.Record | src/sandbox.zig:1403-1418 | Limit conditions become recorded causes, and depth and fetches are observed. |
| Hook.Isolate.DeliverArmed | src/sandbox.zig:1420-1437 | An armed raise goes out at a covered fetch or after the full wait, naming the selected cause. |
| Hook.Isolate.TerminationException | src/sandbox.zig:1508-1515 | Raising grants grace once per arming. |
| Hook.SelectedSpeaks | src/sandbox.zig:1490-1497 | A cause is selected exactly when one is recorded, it is a recorded one, and gas only when it is alone. |
| HookLaws.RaisesExactly | src/sandbox.zig:1424-1437 | The hook raises if and only if it is armed with no grace left, no exception is pending, the position is covered or 4096 fetches were waited, and a cause is on record. |
| HookLaws.RecordsExactly | src/sandbox.zig:1403-1418 | After a fetch each cause is on record exactly where it was or its own condition holds. |
| HookLaws.CountersExactly | src/sandbox.zig:1407-1464 | The peak depth is the greatest seen under a depth limit, and the published gas is the meter's, one less after a paid fetch. |
| HookLaws.AlarmExactly | src/sandbox.zig:1424-1457 | With a cause on record a fetch raises and grants 1024 fetches of grace once, or spends grace, or waits, or arms the next raise. |
| HookLaws.FirstCoveredRaises | src/sandbox.zig:1420-1437 | Armed, the first covered fetch without a pending exception raises, and none before it, while patience lasts. |
| HookLaws.SelectedRanks | src/sandbox.zig:1490-1497 | Memory outranks script, script the deadline, the deadline the call depth, and all of them gas. |
| Hook.RaisesOnlyCauses | src/sandbox.zig:1424-1436 | A policy exception is raised only for a recorded cause, only where it can be caught or after the full wait, never while unwinding or in grace. |
| Hook.EveryFetchCounts | src/sandbox.zig:1424-1457 | Once a cause is recorded every fetch without a pending exception raises or uses up one unit of a bounded slack. |
| Hook.BoundedDelivery | src/sandbox.zig:1394-1474 | For every schedule: fetches that pass without raising are at most the slack plus 4097 per raise plus 1024 of grace granted once. |
| Hook.FirstDelivery | src/sandbox.zig:1424-1457 | From the enforcement that first sees a cause, the 4097th fetch without a pending exception at the latest raises. |
| Hook.NextDelivery | src/sandbox.zig:1424-1457 | After a raise the next one follows within 4097 quiet fetches, plus 1024 the first time. |
| Hook.WorstCase | src/sandbox.zig:1424-1436 | The bound is met: code that is never covered is left alone for exactly the slack. |
| Hook.StepBalanced | src/sandbox.zig:1405-1463 | The gas law and the generation survive every fetch. |
| Hook.EveryCauseRecorded | src/sandbox.zig:1394-1474 | A termination, memory breach or call depth brought by any fetch of a run is on record at its end, whatever the hook was doing. |
| Hook.LateMemoryRecorded | src/sandbox.zig:1439-1457 | A memory breach another thread publishes in the middle of a fetch is on record at the end of the run too, unless that fetch raised. |
| Hook.GasLaw | src/sandbox.zig:1405-1463 | With nothing else pending, n fetches charge n units or all there are, and exhaustion is recorded exactly by the fetch after the last unit. |
| Hook.GasShowsOnNext | src/sandbox.zig:1405-1463 | With nothing else pending, exhaustion is on record exactly when there were more fetches than units left, and nothing is raised before that. |
| Hook.ClockIsPolled | src/sandbox.zig:1465-1473 | The clock is looked at once in every 1024 paid fetches. |
| Execution.Runner.RunFetches | src/sandbox.zig:1394-1474 | Guest code moves the hook's state exactly as one step per fetch does, and takes no recorded cause away. |
| Execution.Runner.RenewExecutionGas | src/sandbox.zig:1094-1101 | A fresh generation is installed unless a cause other than gas arrived, and then only the gas bit has changed. |
| Execution.Runner.PrepareCapabilities | src/sandbox.zig:1053-1077 | Capabilities are applied at most once, under the hook like any guest code; a cause found afterwards outranks the failure; an earlier failure is final and runs nothing. |
| Execution.Runner.RejectPending | src/sandbox.zig:1045-1051 | The check refuses exactly on a recorded cause, gas excepted when it is about to be forgiven. |
| Execution.Runner.FinishExecution | src/sandbox.zig:1079-1108 | Finishing a per-execution generation closes its meter with no unit refunded, forgives its gas and disarms delivery; under any other meter it changes nothing of the hook's state. |
| Execution.Runner.Arbitrate | src/sandbox.zig:1012-1025 | The final check: every cause arriving at its reads is recorded, and a recorded cause outranks the result of the body. |
| Execution.Runner.Preflight | src/sandbox.zig:993-1003 | Everything before the phase is marked running: refused at the first read that found a cause, or clean with a fresh generation where gas renews. |
| Execution.Runner.EnterOuterExecution | src/sandbox.zig:988-1025 | One execution is exactly the relation `Executed`; in it a cause other than gas is never cleared, rejects the execution before its body when recorded before and decides the outcome when recorded after, what the body's fetches recorded reaches the final check, and what they charged stays charged. |
| Execution.CausesDecide | src/sandbox.zig:988-1051 | Whatever any read found is on record afterwards; a cause on record at the end makes the outcome a policy error; a body that ran saw no cause at any read before it. |
| Execution.Runner.RunAll | src/sandbox.zig:988-1101 | Any sequence of executions is a linked history of such records, outcome by outcome. |
| ExecutionLaws.NeverCleared | src/sandbox.zig:1045-1101 | In any history a cause other than gas, once recorded, stays recorded. |
| ExecutionLaws.NoLostTermination | src/sandbox.zig:988-1051 | A cause on record when an execution ends decides that execution and keeps every later one from its body. |
| ExecutionLaws.FetchedTerminationCounts | src/sandbox.zig:1012-1025 | A `terminate` seen by any fetch of a body that ran, whatever that fetch did, ends the execution in a policy error. |
| ExecutionLaws.ReadTerminationCounts | src/sandbox.zig:988-1025 | A cause landing before any read, in an execution or since the one before, is recorded and decides it; before the body, the body is not entered. |
| ExecutionLaws.RecordedForGood | src/sandbox.zig:1045-1101 | Any cause but gas, once on record, is on record after every later execution, decides each of them and keeps their bodies from running. |
| ExecutionLaws.ReadForGood | src/sandbox.zig:988-1051 | Any cause but gas that lands before a read is on record afterwards and decides the execution. |
| ExecutionLaws.FetchForGood | src/sandbox.zig:1394-1474 | A termination or memory breach seen by a fetch of the body is on record and decides the execution. |
| ExecutionLaws.DeliveryRestarts | src/sandbox.zig:1079-1108 | Per-execution bodies start with nothing recorded, delivery disarmed and a full allowance, and leave delivery disarmed; otherwise the alarm carries over. |
| HookLaws.ReportedCause | src/sandbox.zig:1012-1025 | An execution reports a cause on record, the highest in rank, and gas only when it is alone. |
| ExecutionLaws.NothingElseRefuses | src/sandbox.zig:988-1008 | With capabilities to be had and nothing recorded but renewable gas, the body runs: gas alone never blocks the next per-execution run. |
| ExecutionLaws.GenerationsCountCommits | src/sandbox.zig:1094-1101 | Over any history the generation counter is the number of committed renewals, saturating. |
| ExecutionLaws.PerIsolateGas | src/gas.zig:77-92 | Under isolate-wide gas an execution uses one unit per fetch or all that is left, and ends in exhaustion exactly when it wanted more. |
| ExecutionLaws.GasIsCumulative | src/gas.zig:77-92 | Over any history isolate-wide gas is one allowance: units used are units asked for until it is gone, and from the first execution that asks for one more every outcome is exhaustion. |
| ExecutionLaws.GasIsFresh | src/gas.zig:94-103 | Every body that runs under per-execution gas has the full allowance, exhausts it exactly with fetch limit+1, and leaves none of it on record. |
| EntryProtocol.ActAgrees | src/sandbox.zig:893-986 | Every admission and bracket step leaves lock, phase and attribution agreeing with where the thread is, and touches no other thread's lock. |
| EntryProtocol.EntryDiscipline | src/sandbox.zig:893-986 | In every run: the phase is non-idle only under the lock, at most one bracket is open per isolate, no unlock is doubled or foreign, and a thread outside every bracket holds nothing. |
| EntryProtocol.AttributionComesBack | src/alloc.zig:313-323 | In every run, what a thread's attribution is after leaving a bracket is what it was before entering it, whatever happened in between. |
| EntryProtocol.AdmissionIsExact | src/sandbox.zig:924-978 | Nested execution is granted exactly to the thread whose body is running there; an unlocked isolate admits any unattributed thread. |
| CodeDb.CompileGraph | src/codedb.zig:80-115 | The graph is resolved exactly when names are legal and unique, metadata complete and each dependency named once and before its user; each index carries the right name. |
| CodeDb.ManifestMeaning | src/codedb.zig:81-105 | What a legal manifest is, entry by entry, written out. |
| CodeDb.ResolveNames | src/codedb.zig:97-106 | Names resolve to indices of earlier entries exactly when each is distinct and precedes. |
| Loader.Sweep | src/sandbox.zig:560-570 | The single descending sweep marks exactly the transitive dependencies of the request. |
| Loader.ClosedContainsReachable | src/sandbox.zig:560-570 | A dependency-closed set containing an entry contains everything it reaches. |
| Loader.CompiledIsOrdered | src/codedb.zig:100-106 | Compiled graphs list dependencies before their users. |
| Loader.CodeDbLoader.Initialize | src/sandbox.zig:589-599 | Initializers run in ascending order after their dependencies; an entry is started exactly when it is due and none due before it failed; the pass succeeds exactly when none fails, the loaded set staying closed. |
| Loader.CodeDbLoader.Load | src/sandbox.zig:539-607 | Over any sequence of loads and failures each initializer starts at most once, after all its dependencies. Every refusal is given exactly for its own reason, in the order of the checks, and changes nothing; an execution succeeds exactly when its checks, every wanted initializer and the final verdict do, and then exactly the closure is added; otherwise it poisons for good. |
| Seccomp.RenderProgram | src/seccomp.zig:150-190 | The rendering loops leave exactly the specified program, of length `programLength`, in the buffer and nothing after it. |
| Seccomp.FilterMeaning | src/seccomp.zig:144-190 | For arbitrary lists the rendered program always returns, and allows exactly the calls `Allows` describes. |
| Seccomp.DepartsExactly | src/seccomp.zig:75-190 | It never refuses a documented call, and lets a call through beyond the documentation exactly when no entry documents it and its number is another entry's value, or is an entry's own with an argument equal to the value in the low 32 bits only. |
| Seccomp.MeansWhatIsDocumented | src/seccomp.zig:75-190 | It has the documented meaning for every call if and only if every gated number and value is listed anyway, that is, if nothing is really gated. |
| Seccomp.MeansWhatIsDocumentedNarrowly | src/seccomp.zig:75-190 | On calls whose arguments fit 32 bits it has the documented meaning if and only if each gated value is its entry's own number or is listed. |
| Seccomp.ShippedOnX86 | src/seccomp.zig:63-134 | With the shipped lists and the x86_64 call numbers, the program lets through what is documented and exactly three kinds of call more: number 0x5401, `prlimit64` with a non-null limit whose low word is zero, and `ioctl` with a request that is TCGETS in its low word only. |
| Seccomp.ShippedOnAarch64 | src/seccomp.zig:63-134 | With the shipped lists and the aarch64 call numbers, it is the same three kinds and a fourth: number 0, which is `io_setup` and on no list. |
| Seccomp.NonNullLimitPasses | src/seccomp.zig:127-134 | A concrete call on each architecture: `prlimit64` with its new limit at address 2^32 is let through, against the documentation. |

## Left out

- Interpreter.Vm: mruby's Hash, arena, exceptions and collector are an assumed interface (an insertion-ordered map with the key equality of the parser, a stack of roots, reachability), because their C source is not part of the repository.
- Interpreter.Vm.Allocate: running out of memory is a return value instead of a longjmp; the protected call that catches it is the caller's match.
- Transfer.ExportMeaning: that the interpreter never holds two equal keys in one Hash is a condition (`HeapHashesValid`) of its last clause, since the Hash is assumed.
- HashWork.Meter.Simulate: a refused simulation states the error only, because the totals are discarded with the parse.
- Allocation.Allocator.AllocFunc: limit callbacks are not modelled; they run after the lock is released and touch no allocator state.
- Charges.ChargeConservation: the process-wide `live_bytes` and `live_allocs` are moved by separate atomic steps and are stated for calls that do not overlap only, as are the caps.
- Execution.Runner.EnterOuterExecution: guest work is a finite list of hook calls and a result, chosen freely; native code that never fetches is a list without fetches. Causes recorded by other threads, the clock or the caps are an input read by read; the error view and the statistics are not modelled.
- Materializer.Materialize: the exception object a failed protected call leaves behind is not modelled, and growing the arena may fail but runs no collection.
- RoundTrip.Import: the operation lock around it is the bracket `EntryProtocol` models, and attribution is `Allocation`'s; whether a sticky cap is hit before or after materializing is an input.
- Seccomp.ShippedOnX86: the call numbers come from the Linux system call tables, which the program reads through its standard library.
- EntryProtocol.EntryDiscipline: host code calls in only from outside every bracket or from inside an attributed one.
- The diagnostics beside the results (failure paths, offsets, `ArtifactDiagnostic`) and the inert error view.
- Capability tables and freezing, `seal`, host operations other than their admission bracket, and statistics snapshots.
- RITE images other than the admission result the loader consults.
- The Wyhash and SHA-256 computations themselves.
- The kernel calls that install the filter, and the platform branches for other systems.
- Process, pipe, cgroup and clock plumbing, and the wrappers over mruby's C API.
- The build-time authority checks of a CodeDB manifest and its compatibility fingerprint.
