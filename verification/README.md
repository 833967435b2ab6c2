# BML back end, codecs, streaming and campaign tools: a verified model

BML computes with one binary operator, `bml(x, y) = 2^x - log2(y)`. Expressions over it are
DAGs in struct-of-arrays form; a small compiler lowers them to a stack machine, wraps scalar
code into indexed vector loops, cuts programs into fragments and ships them as files and
shards. This project models that back end and three neighbours of it, and proves what each is
for. `dafny verify dfyconfig.toml` checks everything.

**The compiler and its machine.** `Machine` and `HotLoop` give the opcodes, the flat result
buffer and the dispatch loop as a class that updates its stack and the buffer in place.
Machine values are a type parameter `V`; the operator, addition and multiplication are fields
of a record about which nothing is assumed, so the theorems hold for doubles with whatever
rounding they have. Where a program needs an exact conversion (a loop counter that survives
the trip through a value, an index computed by doubling, an operator that is exact on small
dyadic numbers) that is a named hypothesis. `Dag`, `Scalar`, `Linearize`, `StageLowering` and
`CompactStage` hold the two lowerings and the hash-consing between them; `VectorLowering`,
`Rope`, `Matmul`, `Rebinding`, `DyadicLiterals`, `Swiglu` and `RopePair` the vector programs;
`CompactLowering` joins both passes. `RopeLayout`, `RopeInPlace` and `QuarterTurn` settle when the
vector rotation is right; `RmsProgram` and `RmsRun` are the bounded RMS compiler, its rewriting of
loads and its run; `ArrayPass` is the preflight that evaluates DAGs forward over shared scratch and
`Preflight` what it is worth to the runs; `FragmentEval` and
`Fragmentation` the fragment interpreter, which pushes no loop counter and is therefore a
second semantics, and the fragmenter. `OpcodeMeaning` says what every opcode does on explicit
operands, `FragmentMeaning` joins the interpreters to the dispatcher and to the DAG's recursive
value, and `RmsLiterals` says over the reals what the bound constants of the RMS program are for.

**Files and shards.** `Bytes`, `OpCodec` and `GraphCodec` are the `.bmlgraph` format;
`ShardReader`, `ShardFormat`, `ShardDirectory` and `ShardFiles` the distributed container;
`FormatTable`, `GraphLayout` and `ShardLayout` describe the same files apart from the codecs, by
tags, byte positions and values, and prove that the readers accept exactly what they describe;
`StoredDag` is the way of a DAG through a file. `Chunking` and `SubFragments` are the greedy
partitioners; `Columns` is the column-partitioned matrix product. Constants and weights are
carried as bit patterns.

**Streaming text.** `Utf8` writes down the byte syntax of section 4 of RFC 3629 and the
replacement of maximal subparts of section 3.9 of the Unicode Standard, independently of any
decoder, and proves the scanner against them. `Streaming` and `Generation` are the pending
buffer and the two generation loops; a text is its UTF-8 bytes.

**Tools.** `FnvHash` is the 64-bit FNV-1a hash on binary digits; `Embedding` is the in-place move
of a payload inside one file with that hash and its reader. `Strides`, `Campaign`, `Outcomes`,
`Merge` and `MergeShards` are round-robin sharding and exactly-once merging of mutation campaigns.

Code that changes things step by step is a method or a class proved against a specification
function; what the code promises is then proved about that function.

Findings, kept as theorems:

- The vector RoPE documentation asks that outputs do not overwrite inputs needed by *later*
  pairs. That is not enough: the odd component of a pair is computed after the even one is
  stored. The compiled rotation of a single pair by a right angle in place goes wrong
  (`QuarterTurn.InPlacePairGoesWrong`); over the reals a vector rotated in place comes out right
  exactly when every pair has sine zero or keeps its first coordinate
  (`RopeInPlace.InPlaceExactly`); and a layout is safe for every pair DAG exactly when no pair
  reads a cell written before its odd component runs (`RopeLayout.LayoutFreshExactly`).
- Fragmenting a program preserves evaluation exactly when no cut falls inside a loop body
  (`Fragmentation.FragmentationExact`); the fragmenter does not check this. A cut inside a loop
  of zero iterations may go unnoticed (`Fragmentation.EmptyLoopMayBeNoticed`).
- The remote generation loop streams lossily decoded text but decodes strictly at the end. A
  run that streamed U+FFFD for ill-formed bytes therefore ends in an error, while the local
  loop returns the lossy text (`Generation.GenerateRemote`, `Generation.GenerateLocal`); one
  token of the byte 0xFF is enough (`Generation.LoopsDiffer`). Where a space prefix is added, the
  remote loop also takes the space off the first token and the local loop keeps it
  (`Generation.PrefixSpace`).
- A distributed directory keeps one file per fragment id and one configuration for all: it
  returns every fragment exactly when no two different ones share an id and all share the
  configuration (`ShardDirectory.DirectoryRoundTrip`). Otherwise a load may silently return another
  fragment (`ShardDirectory.LoadsBackExactly`, `ShardDirectory.SharedIdLosesFragment`).

## Model

| member | source | states |
|---|---|---|
| Machine.ResultBuffer.constructor | crates/runtime/src/buffer.rs:136-143 | a new buffer of the given shape holds zeros everywhere |
| Machine.ResultBuffer.Read | crates/runtime/src/buffer.rs:168-173 | an absolute read returns the cell, and NaN when the address leaves u32 or the buffer |
| Machine.ResultBuffer.Write | crates/runtime/src/buffer.rs:148-152 | a slot write changes exactly the cell `slot * width + offset`, and nothing when slot or offset is out of shape |
| Machine.SlotIndex | crates/runtime/src/buffer.rs:187-194 | an address exists exactly for slot and offset inside the shape, and is then inside the data |
| HotLoop.HotLoop.Dispatch | crates/runtime/src/hot_loop.rs:218-324 | the dispatch loop on its own stack and buffer ends in the state the machine semantics gives, and panics exactly when that has none |
| HotLoop.HotLoop.ExecuteFull | crates/runtime/src/hot_loop.rs:69-83 | a run starts from an empty stack and delivers the top of the final stack, NaN if it is empty |
| HotLoop.RunConcat | crates/runtime/src/hot_loop.rs:218-324 | running concatenated loop-free code is running the parts in order |
| HotLoop.RunConcatClosed | crates/runtime/src/hot_loop.rs:218-324 | the same for code whose loop bodies all end inside it |
| OpcodeMeaning.OnTwo | crates/runtime/src/hot_loop.rs:218-324 | on top of any stack, with b above a: Bml, FAdd, FMul and FMax leave bml(a, b), a + b, a * b and max(a, b) in place of both |
| OpcodeMeaning.Moves | crates/runtime/src/hot_loop.rs:218-324 | Swap, Drop, Dup and Pick on the two topmost values |
| OpcodeMeaning.Loads | crates/runtime/src/hot_loop.rs:218-324 | a load replaces the offset on top by the input, constant or buffer cell at base plus offset, and by NaN when that leaves the slice or 32 bits |
| OpcodeMeaning.Store | crates/runtime/src/hot_loop.rs:218-324 | a store takes offset and value and changes the cell slot * width + offset only, or nothing outside the shape |
| OpcodeMeaning.MissingOperands | crates/runtime/src/hot_loop.rs:218-324 | arithmetic reads zeros and keeps a lone operand, selection reads NaN and consumes it, Dup panics on an empty stack, Swap and Drop do nothing |
| OpcodeMeaning.LoopRuns | crates/runtime/src/hot_loop.rs:218-324 | a loop runs its body count times, on what the earlier runs left, under the counters 0, 1, 2, ..., then goes on behind it; a body that leaves the program ends the run |
| OpcodeMeaning.FragmentDiffers | crates/compiler/src/fragment.rs:93-168 | where the fragment interpreter differs: buffer loads give NaN, stores vanish, Bml panics without two operands, additions consume a lone operand |
| Dag.PostOrderOf | crates/compiler/src/rpn.rs:545-588 | the visiting order has no repeats, puts children first and the root last, and has at most as many entries as the DAG has nodes |
| Dag.PostOrderReaches | crates/compiler/src/rpn.rs:545-588 | the visiting order lists exactly the nodes the root depends on |
| Dag.GrowthKeepsValues | crates/domain/src/soa.rs:84-124 | appending nodes never changes the value of an existing node |
| Dag.PopStep | crates/compiler/src/rpn.rs:550-587 | one turn of the explicit traversal stack keeps the order that draining it will produce, and the pending work shrinks |
| Linearize.LinearizeDag | crates/compiler/src/rpn.rs:545-594 | the imperative lowering, with its slot table and traversal stack, emits the post-order code followed by the drops of everything below the root |
| Linearize.LinearizeCorrect | crates/compiler/src/rpn.rs:545-594 | the emitted code stays within its own stack and leaves exactly the recursive value of the root above any stack, in any environment and arithmetic |
| StageLowering.CountUses | crates/compiler/src/symbolic_bounded_rms.rs:45-75 | the counting pass yields, for every node, how often the remaining computation reads it |
| StageLowering.LinearizeStage | crates/compiler/src/symbolic_bounded_rms.rs:45-127 | the use-counting lowering emits the code of its symbolic stack: duplicate while a value is read again, consume it at its last read, drop it when dead |
| StageLowering.StageProgramCorrect | crates/compiler/src/symbolic_bounded_rms.rs:45-127 | that code also leaves exactly the recursive value of the root, although last reads consume operands in place |
| StageLowering.StageSize | crates/compiler/src/symbolic_bounded_rms.rs:45-127 | that code has at most five opcodes per node, drops included |
| CompactStage.CompactStageDag | crates/compiler/src/symbolic_bounded_rms.rs:9-40 | hash-consing a stage returns the compacted DAG and the images of its roots |
| CompactStage.CompactCorrect | crates/compiler/src/symbolic_bounded_rms.rs:9-40 | every node evaluates to the same value as its image in the compacted DAG |
| CompactStage.CompactShares | crates/compiler/src/symbolic_bounded_rms.rs:9-40 | no two compacted nodes have the same kind and children, and compaction never grows the DAG |
| VectorLowering.IndexedScalarBody | crates/compiler/src/bml_ops.rs:338-364 | the body replaces each variable by its load at the current local height, and the height counter ends at one |
| VectorLowering.BodyRun | crates/compiler/src/bml_ops.rs:338-364 | the indexed body simulates the scalar program above any base stack, when each load fetches the value of its variable |
| VectorLowering.VectorOutputProgram | crates/compiler/src/bml_ops.rs:366-389 | for a scalar program over the variables 0 and 1 the vector program is one counter loop over the indexed body followed by Swap and StoreResult |
| VectorLowering.VectorLoweringCorrect | crates/compiler/src/bml_ops.rs:338-389 | for every scalar program that leaves one value: output element i receives the scalar result on elements base[id]+i, no other cell changes, the stack is restored, if no output overwrites an element read later |
| VectorLowering.CompiledVectorCorrect | crates/compiler/src/bml_ops.rs:366-389 | the same for a linearized DAG: each output element is the DAG's recursive value on its own elements |
| Rebinding.Builder.Bml | crates/domain/src/transformer.rs:99-102 | a pushed operator gets the next identifier and no existing node changes |
| Rebinding.Append | crates/compiler/src/bml_ops.rs:494-511 | the copying loop binds leaves to given nodes and literals and pushes operators, in template order |
| Rebinding.RebindingPreservesMeaning | crates/compiler/src/bml_ops.rs:475-511 | every mapped node evaluates to the template node's value with inputs and literals substituted, and all existing builder nodes keep their values |
| DyadicLiterals.Build | crates/compiler/src/bml_ops.rs:513-557 | the 23 literal constructions extend the builder term by term and the table names the node of each literal |
| DyadicLiterals.TermMeanings | crates/compiler/src/bml_ops.rs:517-540 | each constructed term evaluates to its intended dyadic number for any operator that is exact on integers and powers of two |
| DyadicLiterals.TableHolds | crates/compiler/src/bml_ops.rs:541-557 | every entry of the literal table names a node that evaluates to the number its bit pattern encodes, so the hypotheses of rebinding are met |
| DyadicLiterals.TableNumbers | crates/compiler/src/bml_ops.rs:541-557 | read as binary64, the keys of the table are 0, 1, 2, 4, 16, 32, 64, 128, 256, 512, 1/2, 1/16, 1/32 and -16 |
| DyadicLiterals.DecodingRepresents | crates/compiler/src/bml_ops.rs:541-557 | whoever decodes bit patterns as binary64 meets the hypothesis of the rebinding theorems |
| Swiglu.BuildSwiglu | crates/compiler/src/bml_ops.rs:559-589 | the SwiGLU DAG: external constants, dyadic literals, the rebound product, its power as one more literal, the rebound activation |
| Swiglu.SwigluDagMeaning | crates/compiler/src/bml_ops.rs:559-589 | if the built minimum has the value of the literal exp(-16), the DAG evaluates to the SwiGLU template's own value on the gate and up variables |
| Swiglu.SwigluVars | crates/compiler/src/bml_ops.rs:559-589 | gate and up are the only variables of the DAG, so the two-base lookup of the vector program never fails |
| Swiglu.BmlSwigluProgram | crates/compiler/src/bml_ops.rs:412-470 | the SwiGLU program is the vector program of the linearized DAG over the gate and up bases; the obsolete scale constant is not used |
| Swiglu.SwigluProgramCorrect | crates/compiler/src/bml_ops.rs:392-470 | under the same hypothesis, running the program writes, for each i, the template's value on gate[i] and up[i], changes no other cell and restores the stack |
| Swiglu.SwigluProgramBuilt | crates/compiler/src/bml_ops.rs:392-589 | without that hypothesis: the program writes the template's value with the literal exp(-16) standing for what the construction computes, when the literal is neither dyadic nor log2(e) |
| RopePair.BmlRopeProgram | crates/compiler/src/bml_ops.rs:605-657 | the single-pair program is the code of both converted roots, each followed by its offset constant and a store |
| RopePair.RopePairCorrect | crates/compiler/src/bml_ops.rs:594-657 | it writes the template's two roots on the two inputs and two external constants to the first two elements of the slot, nothing else, and leaves the stack as it was |
| Rope.Coefficients | crates/compiler/src/bml_ops.rs:770-786 | the coefficient table exists exactly when every pair's coefficient is finite, and restarts at each head |
| Rope.BuildRopeProgram | crates/compiler/src/bml_ops.rs:745-835 | compilation succeeds exactly for admitted dimensions, frequency, addresses, input bound and finite coefficients; it yields one loop over all pairs of all heads and the pool with the owned coefficients at the end, restarted at each head |
| Rope.RopeProgramCorrect | crates/compiler/src/bml_ops.rs:787-827 | for every coefficient table, output elements 2i and 2i+1 receive the two DAG roots on x[2i], x[2i+1] and entry i; every other cell and the stack are unchanged |
| Rope.BuiltRopeCorrect | crates/compiler/src/bml_ops.rs:745-835 | what the compiler returns, run: output elements 2i and 2i+1 receive the two roots on x[2i], x[2i+1] and coefficient i modulo half the head dimension; every other cell and the stack are unchanged |
| Rope.SizeCompiles | crates/compiler/src/bml_ops.rs:787-827 | every pair DAG of at most 70 million nodes compiles within the u32 length fields |
| RopeLayout.LayoutFreshNecessary | crates/compiler/src/bml_ops.rs:674-679 | if a coordinate is among the outputs written before its pair's odd component, some pair DAG and some buffer of that shape exist on which the compiled program, run, leaves a wrong cell |
| RopeLayout.LayoutFreshExactly | crates/compiler/src/bml_ops.rs:674-679 | every compiled pair DAG rotates every buffer of a shape if and only if no pair reads a cell written before its odd component runs |
| RopeInPlace.InPlaceRun | crates/compiler/src/bml_ops.rs:787-827 | run in place, every even output is right and every odd output is the odd root on the already rotated first coordinate |
| RopeInPlace.InPlaceExactly | crates/compiler/src/bml_ops.rs:674-679 | over the reals, for any DAG whose roots mean the plane rotation, a vector rotated in place comes out right if and only if every pair has sine zero or keeps its first coordinate |
| QuarterTurn.RotationDag | crates/compiler/src/bml_ops.rs:727-737 | such a DAG exists: with an operator that generates sums and products, two compiled roots mean the components of the rotation |
| QuarterTurn.InPlacePairGoesWrong | crates/compiler/src/bml_ops.rs:674-679 | the documented condition, that outputs spare the inputs of later pairs, is not enough: the compiled rotation of the single pair (1, 0) by a right angle in place leaves (0, 0) instead of (0, 1) |
| Matmul.DotProgramCorrect | crates/compiler/src/bml_ops.rs:11-49 | the dot program leaves the left-to-right fold of x[i]*w[i] from zero on the stack and no trace in the buffer |
| Matmul.MatmulProgram | crates/compiler/src/bml_ops.rs:61-102 | the matrix program is one dot loop per column, with the column offset taken from constant j and stored at that offset |
| Matmul.MatmulProgramCorrect | crates/compiler/src/bml_ops.rs:52-102 | it stores the fold of each column at offset j, restores the stack and touches no other cell, when constant j holds j and outputs spare the operands |
| Matmul.BmlMatmul | crates/cli/src/bml_inference.rs:22-54 | the projection succeeds exactly for matching dimensions, addressable widths and weights inside the pool; then row r is the fold over its own weights although one scratch buffer serves all rows |
| ArrayPass.Evaluate | crates/compiler/src/operation_rms.rs:16-32 | whatever the scratch held, the forward pass reports the first BML node outside the domain, or fills every cell of the stage with the recursive evaluator's value; cells behind the stage are untouched |
| ArrayPass.OutcomeIsExact | crates/compiler/src/operation_rms.rs:16-32 | the pass succeeds exactly when every BML node's operands are in the domain, and otherwise names the first node that is not |
| ArrayPass.ValidateVectorDag | crates/compiler/src/bml_ops.rs:311-336 | vector preflight accepts exactly the inputs that keep all BML nodes in the domain and all roots finite |
| ArrayPass.ValidateValues | crates/compiler/src/operation_rms.rs:72-100 | RMS preflight with one shared scratch array gives the recursive evaluator's outcome over all three stages and all elements, and reports the first failure |
| RmsProgram.AppendStage | crates/compiler/src/symbolic_bounded_rms.rs:144-173 | a stage is appended with its variables replaced by loads at the current height exactly when it has no Zero and no other variable |
| RmsProgram.AppendPrepared | crates/compiler/src/symbolic_bounded_rms.rs:256-283 | the preparation block computes every node in order on top of the total, and rejects Zero and other variables |
| RmsProgram.CompileRms | crates/compiler/src/symbolic_bounded_rms.rs:187-333 | the program is accepted exactly within the node, opcode and byte budgets; it is the initial total, the reducing loop, the retained preparation DAG, the emitting loop, the drops and one administrative value |
| RmsProgram.RewriteRms | crates/compiler/src/operation_rms.rs:171-179 | rewriting every context load of the compiled program yields the program compiled with buffer loads, lengths and loop headers included |
| RmsProgram.CompileRmsFragment | crates/compiler/src/operation_rms.rs:147-201 | the checked constructor accepts exactly valid configurations with addressable operands; after rewriting its array in place and dropping the last value it holds the program with buffer loads |
| RmsRun.ReduceTurns | crates/compiler/src/symbolic_bounded_rms.rs:230-254 | the reducing loop carries its total on the stack: after all iterations it is the left-to-right fold of the reducing DAG over the elements |
| RmsRun.PrepareRun | crates/compiler/src/symbolic_bounded_rms.rs:256-283 | the preparation block leaves the recursive values of all its nodes above the total |
| RmsRun.RmsProgramCorrect | crates/compiler/src/symbolic_bounded_rms.rs:187-333 | the whole program, on any stack and on buffers whose outputs spare operands read later: output i is the output DAG on x[i], w[i] and the two preparation roots at the final total; every other cell and the stack are kept |
| RmsLiterals.TotalIsMeanSquare | crates/domain/src/transformer/bounded.rs:131-155 | over the reals, with the seventeen configuration literals bound, the loaded literal 4 is right: the final total times literal 5 is the mean square plus epsilon, over the squared input bound |
| Preflight.ValidateRope | crates/compiler/src/bml_ops.rs:699-724 | RoPE preflight accepts exactly when the shape fits and every pair is within the bound, in the domain at every node and finite at both roots |
| Preflight.RopePreflightSound | crates/compiler/src/bml_ops.rs:674-724 | once every pair passes, the run under any operator that agrees in the domain rotates as the checked operator does, and all outputs are finite |
| Preflight.RmsPreflightSound | crates/compiler/src/operation_rms.rs:72-100 | once the preflight accepts, the run under any operator that agrees in the domain writes the preflight's own outputs: the program never depends on BML outside its domain |
| FragmentEval.EvaluateOnStackWithCtx | crates/compiler/src/fragment.rs:93-338 | the hand-unrolled interpreter ends with the stack of its level semantics, a counter program with that of the checked interpreter, and panics exactly when the level semantics has no result |
| FragmentEval.RunTop | crates/compiler/src/fragment.rs:101-338 | the top-level loop of the interpreter over positions, opcodes and loop bodies |
| FragmentEval.RunIndexed | crates/compiler/src/rpn.rs:449-523 | the checked counter interpreter pushes the iteration index and fails on underflow, a third level or a body that leaves its range |
| FragmentEval.InterpreterUnrolls | crates/compiler/src/fragment.rs:169-333 | on every program nested at most two deep the three-level interpreter gives the same stack as running the unrolled loop-free list, panics included |
| FragmentMeaning.StepsAgree | crates/compiler/src/fragment.rs:101-168 | wherever the operands are present, one opcode acts on the stack as in the dispatcher, buffer opcodes aside |
| FragmentMeaning.LinearizedOnFragments | crates/compiler/src/fragment.rs:93-338 | for every DAG both fragment interpreters leave exactly its recursive value above any stack when they run the lowered code |
| FragmentMeaning.IndexedIsDispatch | crates/compiler/src/rpn.rs:449-523 | a counter run that succeeds is a run of the dispatcher with the same final stack |
| FragmentMeaning.CountersAreNewer | crates/compiler/src/rpn.rs:437-447 | a program needs counters exactly when it holds an opcode that version 2 of the file format lacks |
| FragmentMeaning.GraphByTrace | crates/compiler/src/fragment.rs:391-411 | a graph is evaluated fragment by fragment over one stack, under one interpreter for all; the value is the top of the last stack or NaN; a failing fragment gives NaN under counters and a panic otherwise |
| FragmentMeaning.FragmentedDag | crates/compiler/src/fragment.rs:391-411 | a DAG compiled, cut at any threshold and evaluated as a graph gives its recursive value |
| StoredDag.StoredDagKeepsMeaning | crates/compiler/src/fragment.rs:391-659 | the whole way: a DAG lowered, cut, written to a file, read back within the budgets and evaluated gives its recursive value |
| Chunking.GreedyLossless | crates/compiler/src/fragment.rs:676-698 | greedy chunks concatenate to the input and none is empty |
| Chunking.GreedyBounded | crates/compiler/src/fragment.rs:676-698 | each chunk is within the bound when every single item is |
| Chunking.GreedyOptimal | crates/compiler/src/distributed.rs:819-899 | no contiguous partition within the bound has fewer chunks than the greedy one |
| Chunking.GreedyExactly | crates/compiler/src/fragment.rs:676-698 | the greedy chunks are the only division of the items into nonempty chunks, each one item or within the bound, that the next item would exceed |
| Fragmentation.FragmentProgram | crates/compiler/src/fragment.rs:676-698 | the accumulating loop produces the greedy chunks of the opcodes |
| Fragmentation.FragmentsFit | crates/compiler/src/fragment.rs:382-386 | fragments concatenate to the program and fit the threshold when one opcode does |
| Fragmentation.EvaluateGraph | crates/compiler/src/fragment.rs:391-411 | graph evaluation runs all fragments over one stack, with counters for all of them as soon as one needs counters |
| Fragmentation.FragmentationPreserves | crates/compiler/src/fragment.rs:676-698 | when no cut falls inside a loop body, the fragmented graph delivers what the uncut program delivers, on either interpreter |
| Fragmentation.LoopFreeFragmentation | crates/compiler/src/fragment.rs:745-757 | loop-free programs are always cut cleanly |
| Fragmentation.FragmentationExact | crates/compiler/src/fragment.rs:676-698 | for a program that evaluates, the fragmented stack equals the uncut one if and only if no cut falls inside a loop; on the uncounted path cuts inside a loop of zero iterations are left out |
| Fragmentation.CutLoopGoesWrong | crates/compiler/src/fragment.rs:676-698 | a two-opcode loop cut after its header no longer evaluates |
| Fragmentation.EmptyLoopCut | crates/compiler/src/fragment.rs:101-338 | cutting a loop of zero iterations behind its header runs the body once |
| Fragmentation.EmptyLoopMayBeNoticed | crates/compiler/src/fragment.rs:676-698 | such a cut changes the result of one program and not of another |
| OpCodec.ParseEncoded | crates/compiler/src/fragment.rs:446-484 | an encoded opcode decodes to itself and leaves the bytes behind it, in every version that admits it |
| OpCodec.ParsedIsEncoded | crates/compiler/src/fragment.rs:543-617 | whatever decodes is byte for byte the encoding of the opcode it decodes to |
| Bytes.WrittenBytes | crates/compiler/src/fragment.rs:414-490 | a 32-bit number is written as its four bytes, least significant first |
| Bytes.ReadBytes | crates/compiler/src/fragment.rs:505-534 | 32- and 64-bit reads weigh byte k with 256^k |
| FormatTable.TagsDistinct | crates/compiler/src/fragment.rs:446-484 | the opcode table: the tags 0 to 16, one for each opcode, and an opcode is determined by its tag and operands |
| FormatTable.EncodedAsTable | crates/compiler/src/fragment.rs:446-484 | every opcode is written as the table's tag and its operands at their byte positions, and nothing else |
| FormatTable.DecodesTable | crates/compiler/src/fragment.rs:543-617 | the decoder reads an opcode exactly when the version is not older than the table's and the bytes begin with tag and operands as the table says |
| FormatTable.UnknownExactly | crates/compiler/src/fragment.rs:606-621 | a tag is reported as unknown exactly when the table has no opcode of the version with it |
| FormatTable.ShardDecodesTable | crates/compiler/src/distributed.rs:435-487 | the shard decoder reads exactly what the same table describes, without the context loads |
| GraphCodec.Serialize | crates/compiler/src/fragment.rs:414-490 | the writer appends header, fragments and constant pool; its version is the one required by the opcodes present |
| GraphCodec.DeserializeWithLimits | crates/compiler/src/fragment.rs:498-659 | the offset-driven reader is the parser with the three allocation budgets, truncation, overflow and trailing-byte checks |
| GraphCodec.VersionAdmits | crates/compiler/src/fragment.rs:417-441 | the chosen version admits every opcode written, and no smaller one from 2 on does |
| GraphCodec.GraphRoundTrip | crates/compiler/src/fragment.rs:414-659 | reading a written graph returns its fragments and constant patterns exactly when the three budgets cover its counts, and an error otherwise |
| GraphCodec.LimitsAreExact | crates/compiler/src/fragment.rs:497-534 | bounded reading of any bytes is unbounded reading plus the three counts |
| GraphCodec.DecodedIsCanonical | crates/compiler/src/fragment.rs:505-653 | an accepted file of version 2 or later re-serializes to the same bytes outside the version field, which can only become smaller; a version 1 file gains the empty pool |
| GraphCodec.ExtensionRejected | crates/compiler/src/fragment.rs:646-653 | no proper extension of an accepted file is accepted, so no accepted file is a proper prefix of another |
| GraphCodec.SerializedInjective | crates/compiler/src/fragment.rs:414-490 | different graphs are never written to the same bytes |
| GraphLayout.WrittenAsLaidOut | crates/compiler/src/fragment.rs:414-490 | the written bytes are the graph's file by positions: the letters GBML, the version at 4, the fragment count at 8, counted fragments, the counted pool; the version is the oldest from 2 on that knows every opcode |
| GraphLayout.ReadsExactly | crates/compiler/src/fragment.rs:498-659 | the reader gives a graph if and only if the bytes are laid out as its file in a version from 1 to 4 that knows every opcode and the three counts are within the budgets |
| Utf8.ScanMeetsStandard | crates/api/src/main.rs:486-499 | the scanner finds a character, an error of the length of a maximal subpart, or an incomplete beginning, exactly as section 4 of RFC 3629 and section 3.9 of the Unicode Standard define them |
| Utf8.CharsAreScalarValues | crates/api/src/main.rs:486-499 | the accepted characters are exactly the six-bit encodings of the Unicode scalar values, each of one, and the replacement is that of U+FFFD |
| Utf8.LossyIsStandard | crates/api/src/main.rs:656 | lossy decoding replaces each maximal subpart by one U+FFFD, as the Unicode Standard recommends |
| Utf8.StrictIsWellFormed | crates/inference/src/tokenizer.rs:312-318 | strict decoding accepts exactly the well-formed strings, and lossy decoding keeps those |
| Streaming.CompleteUtf8Prefix | crates/api/src/main.rs:486-499 | the returned cut is where the trailing incomplete sequence starts; the iteration bound of one turn per byte always suffices |
| Streaming.LossySplits | crates/api/src/main.rs:486-499 | lossy decoding of the whole is lossy decoding up to the cut followed by lossy decoding of what is held back |
| Streaming.HeldIsProperPrefix | crates/api/src/main.rs:648-659 | the pending bytes are at most three and the beginning of a character they do not yet make |
| Streaming.CompleteTextGrows | crates/api/src/main.rs:536-547 | the text shown of a longer stream extends the text shown before, by what the held bytes and the new ones show |
| Streaming.TextBuffer.TakeDecodedText | crates/api/src/main.rs:648-659 | decoding drains the buffer up to the cut, or completely when finishing |
| Streaming.ChunkInvariance | crates/api/src/main.rs:648-659 | for every split of a stream into pieces, the texts shown are those of the whole stream, and finishing yields its lossy decoding |
| Generation.DecodedBytesGrow | crates/inference/src/tokenizer.rs:353-376 | decoded bytes only grow by appending when a token other than the end token is added, in spite of prefix-space and start-token removal |
| Generation.TokenPiecesAt | crates/inference/src/tokenizer.rs:322-343 | tokens have pieces exactly when each is in the vocabulary with a well-formed entry, and piece k is the entry of token k |
| Generation.DecodeBytesJoins | crates/inference/src/tokenizer.rs:353-376 | decoding succeeds exactly when all tokens are in the vocabulary and those kept are well formed; the bytes are the joined pieces without one initial start token and one final end token, and lack the first byte exactly when a space prefix is added, no start token was skipped and the first piece begins with a space |
| Generation.GenerateLocal | crates/api/src/main.rs:622-646 | unless the receiver refuses a piece inside the loop, the result is the lossy decoding of all bytes generated before the end token, whether or not it takes the final tail; an error means unusable logits or a token that does not decode |
| Generation.GenerateRemote | crates/api/src/main.rs:523-558 | emitted text is never retracted and both non-prefix errors are unreachable; because the last decoding is strict, a run whose pieces are taken inside the loop succeeds exactly when the generated bytes are well formed, and then returns them unchanged |
| Generation.StrayBytes | crates/api/src/main.rs:536-549 | the byte 0xFF is shown as U+FFFD at once and a lone 0xE2 is held back; neither is well formed |
| Generation.LoopsDiffer | crates/api/src/main.rs:523-646 | on a token of either byte the local loop returns U+FFFD, while the remote loop ends in an error, after streaming U+FFFD for the first |
| Generation.PrefixSpace | crates/api/src/main.rs:523-646 | with a prefix space, one token " Hi" becomes "Hi" in the remote loop and stays " Hi" in the local one |
| SubFragments.SubFragmentWithThreshold | crates/compiler/src/distributed.rs:819-899 | the accumulating loop returns the greedy chunks, numbered and chained, with all weight references on the first |
| SubFragments.SubFragmentsPartition | crates/compiler/src/distributed.rs:800-899 | opcodes are kept in order; each piece fits the target when every opcode does; dependencies form the chain 0, 1, 2, ...; empty pieces occur only for an empty shard |
| SubFragments.FirstRefersToAll | crates/compiler/src/distributed.rs:826-842 | the first sub-fragment refers to every tensor by its name, its offset and its number of elements, saturated at the largest u32 |
| SubFragments.SubFragmentsOptimal | crates/compiler/src/distributed.rs:819-899 | no partition of the opcodes within the target has fewer pieces, in spite of widths 1, 5 and 9 |
| SubFragments.BytecodeSizeIsEncodedLength | crates/compiler/src/distributed.rs:766-798 | the size bound counts exactly the bytes the encoder writes |
| SubFragments.DefaultTargetFits | crates/compiler/src/distributed.rs:724-774 | with the default target the encoded bytes of every sub-fragment fit |
| ShardReader.DistributedReader.TakeBytes | crates/compiler/src/distributed.rs:234-241 | the cursor hands out the next bytes or reports truncation |
| ShardReader.DistributedReader.U32 | crates/compiler/src/distributed.rs:242-244 | four bytes little-endian, and the cursor behind them |
| ShardReader.DistributedReader.Text | crates/compiler/src/distributed.rs:248-251 | the next bytes if they are well-formed UTF-8 |
| ShardReader.DistributedReader.Prefix | crates/compiler/src/distributed.rs:252-261 | magic and one of the two supported versions |
| ShardFormat.DecodersAgree | crates/compiler/src/distributed.rs:435-487 | the shard opcode decoder accepts exactly what the version 4 graph decoder accepts, except context loads, and decodes it alike |
| ShardFormat.BytecodeBack | crates/compiler/src/distributed.rs:289-302 | the available-bytes guard on the opcode count never rejects a written shard; only the budget of a million can |
| ShardFormat.TensorTableBack | crates/compiler/src/distributed.rs:314-323 | the available-bytes guard on the tensor count never rejects a written shard; only the budget and the range checks can |
| ShardDirectory.ShardBack | crates/compiler/src/distributed.rs:277-355 | a written shard is read back unchanged exactly when its layer range, counts and tensor ranges pass the checks |
| ShardDirectory.ShardIsCanonical | crates/compiler/src/distributed.rs:277-355 | an accepted shard is byte for byte what the writer makes of the fragment it loads to, and satisfies all checks |
| ShardDirectory.HeaderBack | crates/compiler/src/distributed.rs:358-382 | a written header is read back exactly when it announces 1 to 65,536 fragments |
| ShardLayout.HeaderReadsExactly | crates/compiler/src/distributed.rs:358-382 | the header is read if and only if its bytes have magic, version, count, name length, name and the five sizes at their positions, for 1 to 65,536 fragments and a well-formed name |
| ShardLayout.ShardReadsExactly | crates/compiler/src/distributed.rs:277-355 | a shard is read as a fragment if and only if its bytes are laid out as that fragment by positions, in version 2 or 4 with known opcodes, and its layers, counts, names and tensor ranges are within the stated bounds |
| ShardLayout.LoadsExactly | crates/compiler/src/distributed.rs:277-382 | header and shard together load as a fragment if and only if both are laid out as its, within the byte budgets and bounds |
| ShardLayout.WrittenDirectory | crates/compiler/src/distributed.rs:106-219 | the writer refuses exactly context loads; header and shards are laid out in version 4 if some opcode selects and in version 2 otherwise, one file for each id, holding the last fragment with it |
| ShardDirectory.LoadsBackExactly | crates/compiler/src/distributed.rs:106-382 | a written fragment is loaded back if and only if the last fragment with its id is within all budgets and checks and is, under the first fragment's configuration, that fragment |
| ShardDirectory.DirectoryRoundTrip | crates/compiler/src/distributed.rs:106-382 | every fragment of a list is loaded back unchanged if and only if no two different ones share an id, all share one configuration, and every one is within all budgets and checks |
| ShardDirectory.SharedIdLosesFragment | crates/compiler/src/distributed.rs:157-161 | two different fragments with one id: loading either returns the second, without an error |
| ShardFiles.SerializeDistributed | crates/compiler/src/distributed.rs:106-219 | the writer refuses context-indexed loads and otherwise produces the header and one file per id, the last write winning |
| ShardFiles.LoadHeader | crates/compiler/src/distributed.rs:358-382 | header loading statement by statement, with its byte budget |
| ShardFiles.LoadFragment | crates/compiler/src/distributed.rs:277-355 | fragment loading statement by statement, behind its sibling header |
| Columns.NewFragment | crates/compiler/src/distributed.rs:1030-1068 | the copied columns are the selected columns row by row, zero-padded where the weights end |
| Columns.Execute | crates/compiler/src/distributed.rs:1073-1090 | each output is the left-to-right fold of its column, skipping nothing |
| Columns.SplitMatmulColumns | crates/compiler/src/distributed.rs:1112-1147 | the loop with its early exit yields the fragments of the column ranges; no 32-bit product overflows |
| Columns.ExecutedIsSlice | crates/compiler/src/distributed.rs:1030-1090 | a fragment computes its own slice of the unsplit zero-padded product, with the same order of additions |
| Columns.ProductMeans | crates/compiler/src/distributed.rs:1108-1147 | output j of the unsplit product is the fold from zero of x[i] and the weight at offset + i * nOut + j, zero behind the end |
| Columns.SplitFields | crates/compiler/src/distributed.rs:1112-1147 | fragment k carries its number, the input, the shape, the slot, the columns from k * ceil(nOut / nFragments) on, and at row i, column c the weight at offset + i * nOut + first + c |
| Columns.SplitRefinesProduct | crates/compiler/src/distributed.rs:1108-1147 | the ranges are nonempty, disjoint, ordered and cover all columns, and the concatenated results equal the unsplit product |
| Embedding.File.Write | tools/synthetic_stream.py:195-197 | writing replaces bytes at the position and fills a gap behind the end with zeros |
| Embedding.MoveBlock | tools/synthetic_stream.py:190-194 | moving one block towards the end never harms bytes that are still to be read, although source and target overlap |
| Embedding.MovePayload | tools/synthetic_stream.py:188-194 | the loop of block moves ends with the whole payload in place; a short read cannot happen |
| Embedding.EmbedInPlace | tools/synthetic_stream.py:180-199 | for every admitted layout the file becomes prefix, zero padding to a page, the original payload and the footer; otherwise it is untouched |
| Embedding.EmbeddedLayout | tools/synthetic_stream.py:180-199 | where everything ends up: the launcher first, zeros to the next multiple of 4096, the payload, the footer |
| Embedding.HashRange | tools/synthetic_stream.py:143-153 | hashing in 64 KiB blocks equals the one-shot hash of the range, and fails exactly when a nonempty range leaves the file |
| FnvHash.HashBytes | tools/synthetic_stream.py:126 | the byte loop computes the FNV-1a fold |
| FnvHash.XorDigit | tools/synthetic_stream.py:126 | a binary digit of the exclusive or is 1 exactly when the digits of the operands differ |
| FnvHash.MixInjective | tools/synthetic_stream.py:126 | one hash step is injective in the byte and in the state |
| FnvHash.OneByteMatters | tools/synthetic_stream.py:126 | altering exactly one byte of a string always alters its hash |
| FnvHash.PublishedValues | tools/synthetic_stream.py:126 | the published FNV-1a values of the empty string and of "a" |
| Embedding.OpenResource | tools/synthetic_stream.py:130-140 | the reader checks magic, dimension, offsets, sizes, alignment and hash |
| Embedding.OpenedExactly | tools/synthetic_stream.py:130-140 | it accepts exactly the files made of a page-aligned front, 4n^2 bytes of data and the footer describing them, and exposes that data |
| Embedding.AlteredPayloadRejected | tools/synthetic_stream.py:130-140 | an accepted file with exactly one altered payload byte is rejected |
| Embedding.FooterFields | tools/synthetic_stream.py:193-198 | the footer is the eight letters BMLF32V1, then dimension, payload offset, payload size and hash at 8, 16, 24 and 32 |
| Embedding.EmbeddedOpens | tools/synthetic_stream.py:180-199 | an embedded file with its payload's hash is accepted and exposes exactly the payload |
| Embedding.EmbedAndOpen | tools/synthetic_stream.py:126-199 | hashing block by block, embedding in place and opening give back the original payload |
| Strides.StrideCompose | tools/mutation_subshards.py:44-50 | taking part p of f of slice i of n is taking slice i+n*p of n*f, for every list |
| Strides.LeafLabels | tools/mutation_subshards.py:44-50 | the leaves are distinct shards of the finer campaign, exactly those of the parent's residue |
| Strides.LeavesPartitionParent | tools/mutation_subshards.py:106-120 | each leaf's slice of the list is the corresponding slice of the parent's slice |
| Campaign.CandidateMap | tools/merge_mutation_shards.py:68-79 | candidates are indexed by name exactly when names are nonempty and unique |
| Campaign.MakeManifest | tools/merge_mutation_shards.py:100-123 | a manifest is made exactly from unique candidates of known packages and listed shards equal to the round-robin slices |
| Campaign.ValidateManifest | tools/merge_mutation_shards.py:126-139 | a manifest is accepted exactly when it rebuilds to itself |
| Campaign.MadeValidates | tools/merge_mutation_shards.py:100-139 | what is made validates |
| Campaign.AssignedOnce | tools/merge_mutation_shards.py:111-117 | each candidate is in exactly one shard, the one of its remainder |
| Campaign.CheckLeaves | tools/mutation_subshards.py:106-120 | once both manifests validate over the same candidates, the leaf checks cannot fail, for any parent and fanout |
| Outcomes.ValidateOutcomes | tools/merge_mutation_shards.py:187-229 | a report is accepted exactly when it is complete: one passing baseline, each candidate once with matching identity and evidence, true counts |
| Outcomes.CompleteCounts | tools/merge_mutation_shards.py:187-229 | a complete report has one outcome more than candidates; its declared counts are the numbers of outcomes with each summary and add up to the candidates |
| Outcomes.CompleteCovers | tools/merge_mutation_shards.py:187-229 | in a complete report each candidate has one outcome, with its identity, a counted summary and its evidence, and has it once |
| Merge.ValidateResult | tools/merge_mutation_shards.py:244-259 | a sealed result is accepted exactly when it belongs to the manifest, its checksum holds and its report is complete |
| Merge.CollectedFacts | tools/merge_mutation_shards.py:283-295 | what shards contribute in assignment order names each of their candidates once and no others, so the repetition check cannot fail |
| Merge.SortedKeeps | tools/merge_mutation_shards.py:297-299 | sorting by manifest position permutes the rows, orders them and keeps every count |
| Merge.OrderedFollows | tools/merge_mutation_shards.py:296-298 | ordered rows with exactly the candidates' names follow the candidate list position by position |
| MergeShards.MergeResults | tools/merge_mutation_shards.py:262-311 | the merge succeeds exactly when the manifest is valid and every shard has one valid result; then it holds each candidate once, in manifest order, from its own shard's report, with counts equal to the sums over shards |

## Left out

- Floating point: `bml`, addition and multiplication are uninterpreted, so accuracy, error bounds, overflow and signed zero are not modelled; `finite`, the operator's domain check, trigonometric coefficients and the declaration checks are parameters.
- Template formulas: the bounded product, SwiGLU, RoPE and RMS identities are templates given from outside, and no claim is made about what the templates compute.
- Swiglu.SwigluProgramCorrect: that `2^(-16 log2 e)` equals the literal `exp(-16)` is a hypothesis here and in `Swiglu.SwigluDagMeaning`; `Swiglu.SwigluProgramBuilt` does without it.
- Fragmentation.FragmentationExact: on the uncounted path a cut inside a loop of zero iterations is left out, because whether it is noticed depends on the values.
- QuarterTurn.InPlacePairGoesWrong: the operator `(x * x + x) / 2 - y` over exact reals stands in for `2^x - log2(y)`, whose rotation template is given from outside; `RopeInPlace.InPlaceExactly` holds for any operator over the reals.
- Rope.RopeProgramCorrect: code and pool lengths must fit u32, as the source's casts silently assume; `Rope.SizeCompiles` shows that every DAG of up to 70 million nodes does. The same assumption is made for the other vector programs.
- Generation.GenerateLocal: sampling, the forward pass and the receiver are parameters; failures of the model other than unusable logits are not modelled.
- Generation.GenerateRemote: the same, and the pipeline's connection and closing.
- ShardFiles.LoadFragment: error messages are kinds, and reading a file is given its bytes; paths, permissions and directory creation are not modelled.
- ShardFiles.SerializeDistributed: an empty fragment list panics in the source and is a precondition here; I/O failures are not modelled.
- ShardDirectory.DirectoryRoundTrip: lengths that would be truncated to their u32 or u64 field are excluded here and in `ShardDirectory.LoadsBackExactly`, because no file could then hold them.
- Embedding.EmbedInPlace: files are byte sequences with a position; the final rename, the mode change and running the embedded program are not modelled.
- RmsLiterals.TotalIsMeanSquare: the reducing DAG, given from outside, is supposed to add the squares of the scaled elements; the bounds behind the other literals are parameters.
- Embedding.AlteredPayloadRejected: only single altered bytes are always noticed; the hash is no defence against deliberate changes.
- Embedding.OpenResource: mapping the executable is given its bytes; host byte order is little-endian.
- Outcomes.ValidateOutcomes: timestamps are integers, phase evidence and the shape of JSON records are parameters or types; hashes are functions about which nothing is assumed.
- MergeShards.MergeResults: only ordinary format-1 results; nested recovery envelopes, artifact lists and deep copies are not modelled.
- Campaign.CheckLeaves: the pinned identities of the original campaign (64 shards, parent 20/64, recorded checksums) are not modelled; the leaf check is proved for every parent and fanout.
- RmsProgram.CompileRmsFragment: the declaration checks and the construction of the three stages are parameters; error messages are kinds, and an opcode counts twelve bytes.
- The RMS-scale vector builders, bounded softmax, `linearize_outputs`, the native RoPE and SwiGLU helpers and the projection cache are not modelled: they repeat the mechanisms proved here.
- Sub-fragment and vector-fragment serialization: the same combinators as the shard format.
- Scheduling, RPC, HTTP, benchmarks, hardware detection, GGUF parsing and the weight pool are not modelled.
