# A Dafny model of the DXP shader patcher

DXP patches Direct3D shaders. This project models its binary formats and its draw-time runtime, and proves what
they promise.

- **SM5 tokens** (`Words`, `Sm5Model`, `OperandToken`, `OperandCodec`, `OperandLossless`, `OperandCoder`,
  `OperandAtEnd`, `ShiftedOperands`, `InstructionToken`, `ControlsRoundTrip`, `ExtendedOpcode`, `InstructionCodec`,
  `InstructionRoundTrip`, `InstructionLossless`, `DeclarationLossless`, `NormalForm`, `NormalInstructions`,
  `InstructionCoder`, `ProgramCodec`, `ProgramLossless`): the parser and printer of the D3D11 Tokenized Program
  Format. Three laws are proved, each with its exact condition: what is encoded parses back; what is parsed
  re-encodes to the same words; and what is encoded, parsed and encoded again gives the same words. The code's comment that "parse/encode
  round-trip losslessly" holds for canonical words; the bits it loses on others (sync flags, the sample count of
  dcl_resource, UAV flags, extended tokens of structured declarations, reserved operand bits) are named by the
  canonical predicates. An operand with only a top-level relative index has its representation written to the
  second dimension's field, as the code does, so it never parses back.
- **Hashes and container** (`Md5`, `DxbcHash`, `Container`, `ContainerRoundTrip`, `ContainerCoder`): the streaming
  MD5 hasher against RFC 1321, the DXBC hash with its own padding, and the DXBC container.
- **Draw-time state** (`SavedBindings`, `DrawState`, `DrawRuntime`): D3D11 slots and pipelines that DXP overrides
  around the game's own draws, with the game's view kept beside them as ghost state.
- **Asynchronous patching** (`Interleaving`, `PipelineStatus`, `WorkerPool`): atomic status counters and the in-flight counter that
  guards device teardown, as interleaved atomic steps.
- **Allocation and layout** (`Descriptors`, `RootSignature`, `CBufferLayout`, `CBufferSchema`, `BindPoints`, `TempRuns`,
  `DescriptorTables`): root-signature extension, constant-buffer packing and its DXIL struct, register and temp
  allocation, and descriptor tables.

Code that changes things step by step is a method or a class proved equal to a specification function; the
properties are lemmas about those functions. Machine words are bit-vectors in the codecs and hashes; elsewhere
lengths and offsets are unbounded, and 32-bit or 64-bit wrap-around is written out where it can happen.

## Model

| member | source | states |
|---|---|---|
| OperandToken.TokenFields | src/dxp/sm5/Model.cpp:50-109 | Every field of a composed operand token reads back: type, index dimension, extended bit and representation bits whatever their value, the component count modulo 4 and the component mode to its ten bits. |
| OperandToken.RepresentationFieldsRead | external/WDK/includes/d3d11TokenizedProgramFormat.hpp:986-1000 | Each dimension's index representation reads back from its two-bit field; code 4 (Immediate64PlusRelative) reads back as 0. |
| OperandToken.ModifierTokenFields | src/dxp/sm5/Model.cpp:481-484 | The extended operand token holds its modifier, is of modifier type and announces no further token. |
| OperandCodec.OperandRoundTrip | src/dxp/sm5/ShaderProgram.cpp:275-360 | For every operand tree the format can carry, of any relative depth and whatever words follow, ParseOperand on its encoding returns an equal operand (Operand::operator==) and advances the cursor by exactly the encoded length. |
| OperandCodec.IndicesRoundTrip | src/dxp/sm5/ShaderProgram.cpp:297-345 | The index entries of an encoded operand parse back in order, each with its own representation, ending where the encoding ends. |
| OperandCodec.IndexRoundTrip | src/dxp/sm5/Model.cpp:446-471 | One encoded index (immediate, 64-bit, relative, or immediate plus relative) parses back to an equal index. |
| OperandCodec.ImmediatesRoundTrip | src/dxp/sm5/ShaderProgram.cpp:346-356 | The payload of an Immediate32 operand parses back entry by entry. |
| OperandAtEnd.RoundTripExactly | src/dxp/sm5/Model.cpp:473-502 | An encoded operand comes back, consuming exactly its words, if and only if it is one the format can carry; at the very end of its instruction an Immediate32 operand (also as the last relative index) may in addition hold fewer entries than its component count says. |
| OperandAtEnd.OperandAtEndRoundTrip | src/dxp/sm5/ShaderProgram.cpp:346-356 | An operand that ends its instruction comes back with a short Immediate32 payload, because the parser stops at the end. |
| OperandAtEnd.OnlyAtEnd | src/dxp/sm5/ShaderProgram.cpp:275-360 | Only such operands come back at the end of their instruction. |
| OperandCodec.OnlyWellFormed | src/dxp/sm5/ShaderProgram.cpp:275-360 | An operand that comes back with at least one more word of its instruction following has a two-bit component count, its component mode in place, no top-level relative operand, immediates only on Immediate32 operands and as many as the count says, at most three indices and no Immediate64PlusRelative. |
| OperandCodec.SameOperandsEncodeAlike | src/dxp/sm5/Model.cpp:309-322 | Operands equal under operator== encode to the same words. |
| OperandLossless.ReencodesExactly | src/dxp/sm5/Model.cpp:56-59 | Re-encoding a parsed operand gives back exactly the words it was parsed from if and only if those words are canonical: reserved bits clear, no indices on immediate operands, at most one extended token with a non-zero modifier, no index cut short. |
| OperandLossless.OperandReencoded | src/dxp/sm5/Model.cpp:473-502 | Canonical words are reproduced word for word, at any depth. |
| OperandLossless.OnlyCanonical | src/dxp/sm5/ShaderProgram.cpp:275-360 | Words that an operand parsed from them encodes to again were canonical, and were consumed exactly. |
| ShiftedOperands.OperandGrowth | src/dxp/sm5/ShaderProgram.cpp:305-345 | An encoded operand is at most one word longer than what it was parsed from, and only when an index was cut short by the end of the instruction. |
| ShiftedOperands.GrownNeverShifted | src/dxp/sm5/Model.cpp:473-502 | An operand that has grown never occurs one word before the place it was parsed from, so it cannot make up for a dropped word. |
| OperandCoder.Token0 | src/dxp/sm5/Model.cpp:50-109 | The or-ed token equals the composed one. |
| OperandCoder.EncodeIndexWords | src/dxp/sm5/Model.cpp:446-471 | Operand::Index::Encode appends exactly the words of its specification. |
| OperandCoder.Encode | src/dxp/sm5/Model.cpp:473-502 | Operand::Encode appends exactly the words of its specification. |
| OperandCoder.Parse | src/dxp/sm5/ShaderProgram.cpp:275-360 | The cursor-passing parser computes the specified operand and cursor. |
| OperandCoder.ParseExtensionTokens | src/dxp/sm5/ShaderProgram.cpp:286-296 | The modifier of the first extended token is taken and the rest of the chain skipped. |
| OperandCoder.ParseIndexEntries | src/dxp/sm5/ShaderProgram.cpp:297-345 | The loop over index dimensions computes the specified entries and cursor. |
| InstructionToken.Token0Fields | src/dxp/sm5/Model.cpp:225-305 | Opcode, length field, extended bit and control bits read back from an encoded opcode token. |
| InstructionToken.ControlFieldOfToken | src/dxp/sm5/ShaderProgram.cpp:215-273 | Re-encoding the controls parsed from a token restores exactly the bits carried for its opcode. |
| InstructionToken.LengthFieldRead | src/dxp/sm5/ShaderProgram.cpp:174-177 | A length of 1 to 127 words reads back from the token. |
| InstructionToken.LengthFieldOfLength | src/dxp/sm5/ShaderProgram.cpp:174-177 | The length field is restored unless it was zero, which reads and re-encodes as one. |
| InstructionToken.TokenLossless | src/dxp/sm5/Model.cpp:225-305 | A parsed opcode token re-encodes to itself if and only if no dropped bit is set and its length field and extended bit are those of what is emitted. |
| ControlsRoundTrip.ControlsReadBackExactly | src/dxp/sm5/ShaderProgram.cpp:215-273 | Encoded controls parse back unchanged if and only if each fits its field, is present only where it is parsed, and those sharing bits agree. |
| ExtendedOpcode.SynthesizedPair | src/dxp/sm5/Model.cpp:386-421 | A synthesised pair is a complete chain whose tokens decode to the declared dimension (5 bits), stride (12 bits) and return types (4 bits each), fixed for ld_raw and ld_structured. |
| InstructionRoundTrip.RoundTrip | src/dxp/sm5/ShaderProgram.cpp:428-530 | Wherever a well-formed instruction's words occur, one turn of the parsing loop gives it back (opcode, controls, operands, sampler mode, custom data) with its length and window, consuming exactly those words. |
| InstructionRoundTrip.OperandsRoundTrip | src/dxp/sm5/ShaderProgram.cpp:517-526 | Encoded operands parse back in order, and parsing continues after them. |
| InstructionRoundTrip.ExtendedTokensRoundTrip | src/dxp/sm5/ShaderProgram.cpp:258-272 | A complete chain of extended opcode tokens parses back. |
| InstructionRoundTrip.SameInstructionsEncodeAlike | src/dxp/sm5/Model.cpp:324-444 | Instructions that differ only in parse provenance encode to the same words. |
| InstructionLossless.OperandsReencoded | src/dxp/sm5/ShaderProgram.cpp:517-526 | A list of canonical operands is reproduced word for word up to the end of the instruction. |
| InstructionLossless.StructuredChainDropped | src/dxp/sm5/Model.cpp:350-368 | A structured declaration's extended tokens are lost: exactly that many words fewer come back. |
| InstructionLossless.ExtendedNeverReencodes | src/dxp/sm5/Model.cpp:350-368 | A structured declaration with the extended bit set never comes back word for word. |
| InstructionLossless.DroppedBitsCleared | src/dxp/sm5/ShaderProgram.cpp:227-229 | Re-encoding a parsed generic instruction whose other words are canonical clears exactly the control bits that are parsed but not written, or not parsed (sync flags, UAV flags and dimension), and changes nothing else. |
| InstructionToken.SyncFlagsDropped | src/dxp/sm5/ShaderProgram.cpp:227-229 | Of the sync flags only bit 13 survives, which is also the saturate flag. |
| DeclarationLossless.InstructionReencodesExactly | src/dxp/sm5/Model.cpp:324-444 | A parsed instruction encodes to the words it was parsed from if and only if they are canonical, per opcode: custom data always; dcl_temps, dcl_resource, dcl_constant_buffer, structured declarations (never with the extended bit) and the rest each under its own bit conditions. |
| DeclarationLossless.ResourceReencodes | src/dxp/sm5/Model.cpp:129-186 | dcl_resource comes back exactly when it has four words, the usual operand token, and no sample-count, extended or reserved bits. |
| DeclarationLossless.SampleCountCleared | src/dxp/sm5/Model.cpp:177-178 | Re-encoding a parsed four-word dcl_resource clears exactly its sample count (bits 16-22), reserved bit 23 and the unused high half of the return-type word. |
| DeclarationLossless.ConstantBufferReencodes | src/dxp/sm5/Model.cpp:188-211 | dcl_constant_buffer comes back exactly when it holds one canonical operand with at least two indices and no other control bit than the access pattern. |
| NormalForm.ResourceNormalForm | src/dxp/sm5/Model.cpp:129-186 | An encoded dcl_resource parses to the dimension, return types and register it was declared with, whether from extended tokens, controls or defaults, and re-encodes to the same words. |
| NormalInstructions.GenericExactly | src/dxp/sm5/Model.cpp:370-443 | The words of a generic instruction, synthesised ResourceDim/ReturnType pair and name token included, parse, and what they parse to encodes to them again if and only if no control bit is lost and no name token stands without its register operand. |
| NormalInstructions.ParsesToExplicit | src/dxp/sm5/Model.cpp:370-421 | What they parse to is the instruction with its synthesised parts written out if and only if its controls fit the token and agree on shared bits and its name repeats the last word. |
| NormalInstructions.NameExactly | src/dxp/sm5/Model.cpp:389-393 | An SIV/SGV declaration given its name token by Encode comes back word for word if and only if it has exactly its register operand. |
| NormalInstructions.NameWithoutOperand | src/dxp/sm5/Model.cpp:389-393 | Given no operand, it parses to a declaration whose only operand is the name token, so one more token is appended when that is encoded; the result is in normal form. |
| NormalInstructions.StructuredExactly | src/dxp/sm5/Model.cpp:350-368 | A structured declaration comes back word for word if and only if no UAV flag is lost and its stride is below 2^20. |
| NormalInstructions.NormalReencodes | src/dxp/sm5/Model.cpp:324-444 | Wherever the words of a normal instruction occur (custom data, dcl_resource, dcl_constant_buffer, dcl_temps, structured or generic), they parse to an instruction that encodes to them again. |
| NormalInstructions.WellFormedNormal | src/dxp/sm5/Model.cpp:324-444 | Every instruction of the round trip is normal. |
| InstructionCoder.EncodeToken0 | src/dxp/sm5/Model.cpp:225-305 | The or-ed opcode token equals the composed one. |
| InstructionCoder.FindOverrides | src/dxp/sm5/Model.cpp:137-148 | The last ResourceDim and the last ResourceType token override the controls. |
| InstructionCoder.EncodeResourceWords | src/dxp/sm5/Model.cpp:129-186 | EncodeResourceDeclaration computes the specified words. |
| InstructionCoder.EncodeGenericWords | src/dxp/sm5/Model.cpp:377-443 | The general path of Instruction::Encode computes the specified words. |
| InstructionCoder.Encode | src/dxp/sm5/Model.cpp:324-444 | Instruction::Encode computes the specified words for every opcode. |
| InstructionCoder.ParseControls | src/dxp/sm5/ShaderProgram.cpp:215-273 | ParseOpcodeControls computes the specified controls and skips the extended tokens. |
| InstructionCoder.ParseOne | src/dxp/sm5/ShaderProgram.cpp:428-530 | One turn of the parsing loop computes the specified instruction, or fails when it does not fit. |
| ProgramCodec.ProgramRoundTrip | src/dxp/sm5/ShaderProgram.cpp:591-604 | For every well-formed program, parsing the words SerializeBitcode emits, whatever follows them, succeeds with the same version fields, opcodes, controls and operands, each length the number of words that instruction emitted. |
| ProgramCodec.SerializeStable | src/dxp/sm5/ShaderProgram.cpp:591-604 | For every program of normal instructions (texture declarations, synthesised tokens and strides included), serialising, parsing and serialising again gives the same words, whatever follows them. |
| ProgramCodec.ParsedTile | src/dxp/sm5/ShaderProgram.cpp:428-530 | On success the instruction windows partition the words after the header, and inside every ordinary instruction the operand windows partition the words after the opcode tokens. |
| ProgramLossless.ProgramReencodesExactly | src/dxp/sm5/ShaderProgram.cpp:406-531 | A parsed program whose encodings fit the length field serialises back to its words if and only if the unused version bits are clear, the length token is exact and every instruction is canonical. |
| ProgramLossless.EachInPlace | src/dxp/sm5/ShaderProgram.cpp:591-604 | Instructions that come back together come back one by one, each in its own place: what follows an instruction never takes its place. |
| ProgramCodec.Serialize | src/dxp/sm5/ShaderProgram.cpp:591-604 | SerializeBitcode computes the specified words. |
| ProgramCodec.Parse | src/dxp/sm5/ShaderProgram.cpp:406-531 | The parsing loop computes the specified program, or fails. |
| Md5.RotatedCompress | src/dxp/utils/Hash.hpp:305-342 | Moving the registers instead of the roles computes the compression of section 3.4 of RFC 1321. |
| Md5.StepRotates | src/dxp/utils/Hash.hpp:306-314 | One iteration is one step of section 3.4 of RFC 1321, seen one register further on. |
| Md5.MD5Hasher.ProcessBlock | src/dxp/utils/Hash.hpp:169-343 | The four loops add the compression of the block to the state. |
| Md5.MD5Hasher.Update | src/dxp/utils/Hash.hpp:100-125 | After any Update the state is the compression of all whole blocks fed and the buffer holds the bytes left over. |
| Md5.MD5Hasher.PadBlock | src/dxp/utils/Hash.hpp:345-362 | Exactly the padded message of sections 3.1 and 3.2 of RFC 1321 has been fed, the bit count modulo 2^64. |
| Md5.MD5Hasher.GetDigest | src/dxp/utils/Hash.hpp:139-151 | The raw state, low-order byte first (section 3.5 of RFC 1321), of the whole blocks fed. |
| Md5.MD5Hasher.Finalize | src/dxp/utils/Hash.hpp:129-136 | The MD5 digest of everything fed since the last reset; the hasher is then empty again. |
| Md5.DigestOfPieces | src/dxp/utils/Hash.hpp:94-136 | However a message is split into Update calls, Finalize gives the digest of the whole. |
| DxbcHash.ComputeHash | src/dxp/sm5/ShaderProgram.cpp:97-140 | For every length both padding branches feed whole blocks, so the raw state is the compression of one padded message with nothing left in the buffer. |
| DxbcHash.LastBlock | src/dxp/sm5/ShaderProgram.cpp:117-133 | In both branches the last block starts with the length in bits. |
| DxbcHash.PaddingInjective | src/dxp/sm5/ShaderProgram.cpp:97-140 | Two inputs have the same padded message if and only if they are equal, although the length in bits wraps at 2^32. |
| Container.Layout | src/dxp/sm5/ShaderProgram.cpp:701-753 | Chunk regions are dword-aligned, pairwise disjoint and in table order, each padded by fewer than four bytes, and with the 32+4n byte header exactly fill the container. |
| ContainerRoundTrip.FixedPoint | src/dxp/sm5/ShaderProgram.cpp:606-687 | For every container with the DXBC signature, at least one chunk and a size of 32 bits, FromBytes on the serialised bytes recovers every chunk in order at its place, the shader chunk holding the re-encoded program, and that program. |
| ContainerRoundTrip.SerializeTwice | src/dxp/sm5/ShaderProgram.cpp:689-760 | For programs of normal instructions, and for containers without a shader chunk, a second Serialize is byte-identical, hash included. |
| ContainerRoundTrip.BitcodeRoundTrip | src/dxp/sm5/ShaderProgram.cpp:680-686 | A program of normal instructions read from its own bitcode has the same bitcode; a well-formed one is the same program. |
| ContainerRoundTrip.SortSorts | src/dxp/sm5/ShaderProgram.cpp:649-650 | Sorting the chunk offsets gives an ascending permutation. |
| ContainerCoder.Serialize | src/dxp/sm5/ShaderProgram.cpp:689-760 | Filling the zeroed buffer by offset and storing the hash last yields exactly the specified bytes; an empty container is an error. |
| ContainerCoder.Read | src/dxp/sm5/ShaderProgram.cpp:606-687 | FromBytes computes the specified container or error: too small, bad signature, size mismatch, table too long; chunks out of range are skipped. |
| ContainerCoder.ParseKeeping | src/dxp/sm5/ShaderProgram.cpp:680-686 | A shader chunk that fails to parse keeps the instructions before the failure. |
| SavedBindings.SavedSlots.SaveOnce | tools/reshade_addon/draw_state.hpp:67-69 | Only the first save of a slot is kept. |
| SavedBindings.SavedSlots.EraseIf | tools/reshade_addon/draw_state.hpp:74-92 | Exactly the matching entries are removed, each handed to the callback once, the rest in order. |
| DrawState.DrawSees | tools/reshade_addon/runtime.cpp:1171-1198 | Each draw sees DXP's descriptor on the slots its ready replacements use and the game's binding everywhere else; exactly the used slots stay saved; each drawn stage has the replacement when it is ready and the game's pipeline when not. |
| DrawState.EndsRestore | tools/reshade_addon/runtime.cpp:1058-1062 | After present or close every slot has the game's binding, nothing is saved, and every acquired reference was released exactly once. |
| DrawState.RunKeeps | tools/reshade_addon/runtime.cpp:1064-1088 | Over every run of game binds, pipeline binds, draws, presents, closes and resets, a saved slot holds what the game last bound there, every other slot has the game's binding, acquired references are released or held, and every stage has the game's pipeline or its known stand-in. |
| DrawState.GameBindKeeps | tools/reshade_addon/runtime.cpp:1064-1075 | A bind by the game wins: exactly the slots it writes hold its values and are no longer saved, their saved references are released without being restored, and every other slot and entry stays. |
| DrawState.SavesItsOwnSlot | tools/reshade_addon/runtime.cpp:448-455 | Of the three types, exactly the bindings BuildBindings accepts are saved from the slot they are pushed into: a graphics unordered access view would save the compute slot. |
| DrawState.RestoreKeeps | tools/reshade_addon/draw_state.hpp:84-92 | Restoring puts the game's binding back in exactly the slots restored. |
| DrawRuntime.CommandList.HandleDraw | tools/reshade_addon/runtime.cpp:1171-1198 | The nested loops over stages and bindings perform the specified draw step. |
| DrawRuntime.CommandList.OnPushDescriptors | tools/reshade_addon/runtime.cpp:1064-1075 | The handler performs the specified drop. |
| DrawRuntime.CommandList.RestoreAllSlots | tools/reshade_addon/runtime.cpp:1058-1062 | Every saved binding is bound back and released. |
| DrawRuntime.CommandList.OnResetCommandList | tools/reshade_addon/runtime.cpp:1077-1081 | Saved bindings are released, not restored, with the cleared context. |
| DrawRuntime.CommandList.OnBindPipeline | tools/reshade_addon/runtime.cpp:904-946 | The pending replacement and its swapped flag follow the game's bind. |
| DrawRuntime.CommandList.ApplySwap | tools/reshade_addon/runtime.cpp:1107-1113 | A pipeline is bound only when readiness changes. |
| PipelineStatus.RunAccounted | tools/reshade_addon/runtime.cpp:342-349 | In every interleaving of creation, SetStatus loops and destruction, each counter plus what running threads still owe it is the number of records in that status; with no thread mid-step the counters are exact. |
| PipelineStatus.EveryRunAccounted | tools/reshade_addon/runtime.cpp:342-349 | So it is in every run from the start, with any number of threads. |
| PipelineStatus.DestroyedAbsorbs | tools/reshade_addon/runtime.cpp:868-869 | A destroyed record stays destroyed, whatever SetStatus calls were in flight. |
| PipelineStatus.StepAccounted | tools/reshade_addon/runtime.cpp:849-854 | Every atomic step of every thread keeps the accounts. |
| PipelineStatus.TransientlyNegative | tools/reshade_addon/runtime.cpp:849-854 | A counter can be negative for a while, between a record's insertion and its first count. |
| WorkerPool.SafeTeardown | tools/reshade_addon/runtime.cpp:800-813 | In every interleaving, once the wait loop of OnDestroyDevice exits with no further Enqueue for the device, none of its jobs is queued or held by a worker, then and ever after. |
| WorkerPool.EveryRunSafe | tools/reshade_addon/runtime.cpp:800-813 | So it is in every run from the start, with any number of threads, and in whatever follows it. |
| WorkerPool.StepAccounted | tools/reshade_addon/runtime.cpp:554-594 | in_flight equals queued, running, counted-but-unqueued and erased-but-unsubtracted jobs of each device after every step. |
| WorkerPool.NeverUnderflows | tools/reshade_addon/runtime.cpp:806-812 | The unsigned in_flight counter never goes below zero. |
| RootSignature.OverlapsExactly | tools/reshade_addon/runtime.cpp:661-666 | Two ranges overlap if and only if they share a register of one class and space, unbounded ranges included. |
| RootSignature.OnCreatePipelineLayout | tools/reshade_addon/runtime.cpp:668-744 | The loops over parameters and ranges compute the specified extension or leave the layout alone. |
| RootSignature.ExtendedExactly | tools/reshade_addon/runtime.cpp:725-733 | Where the cost fits 32 bits, a layout is extended exactly when no game range shares a register with the injected ones and the extended layout costs at most 64 DWORDs; and an extended layout costs at most 64 DWORDs if and only if the cost fits 32 bits. |
| RootSignature.CostWraps | tools/reshade_addon/runtime.cpp:675-689 | A layout over the limit whose uint32_t sum wraps to zero, and which is extended. |
| RootSignature.ExtendedSound | tools/reshade_addon/runtime.cpp:735-743 | No injected register is bound by the game, and dropping the injected parameters gives the game's back in order. |
| RootSignature.FindsInjected | tools/reshade_addon/runtime.cpp:746-767 | On an extended layout OnInitPipelineLayout finds exactly the injected positions, because a game parameter that matched would have been rejected as overlapping. |
| RootSignature.OnInitPipelineLayout | tools/reshade_addon/runtime.cpp:746-767 | The loops compute the last matching index of each table type, or -1. |
| RootSignature.RootIndicesStableExactly | tools/reshade_addon/runtime.cpp:711-718 | The game's root parameters keep their indices if and only if nothing but static samplers follows the first parameter of static samplers. |
| CBufferLayout.BuildCBufferLayout | src/dxp/CBufferLayout.cpp:51-120 | The loop computes the specified layout or the first error. |
| CBufferLayout.PackingExactly | src/dxp/CBufferLayout.cpp:62-120 | An accepted layout has distinct, ascending, disjoint, 4-aligned fields, none straddling a 16-byte row and all inside the size, if and only if no 32-bit cursor overflows while packing it. |
| CBufferLayout.PackingGreedy | src/dxp/CBufferLayout.cpp:84-88 | Each auto-placed field takes the least legal offset after its predecessor. |
| CBufferLayout.DefaultSizeLeast | src/dxp/CBufferLayout.cpp:115-119 | The default size is the least positive multiple of 16 that covers the fields. |
| CBufferLayout.OverflowAccepted | src/dxp/CBufferLayout.cpp:89-92 | A field that ends at 2^32 wraps the cursor, and the next one is accepted at offset 0. |
| CBufferSchema.ValidateCBufferSchema | src/dxp/sm6/ShaderProgram.cpp:289-331 | The loop decides exactly the schema's validity. |
| CBufferSchema.BuildCBufferSchemaLayout | src/dxp/sm6/ShaderProgram.cpp:333-364 | The loop emits the specified elements. |
| CBufferSchema.PaddingTiles | src/dxp/sm6/ShaderProgram.cpp:333-364 | Element sizes sum to the declared size, every field appears once and in order, and what precedes a field is exactly its offset. |
| CBufferSchema.AnnotatedOffsets | src/dxp/sm6/ShaderProgram.cpp:556-579 | The offset annotated on every element is the sum of the sizes before it. |
| CBufferSchema.AnnotateCBufferType | src/dxp/sm6/ShaderProgram.cpp:556-579 | The annotation loop computes the specified offsets. |
| CBufferSchema.AcceptedTiles | src/dxp/sm6/ShaderProgram.cpp:289-364 | The elements of an accepted layout tile the struct if and only if no 32-bit cursor overflows while packing it; the schema is then valid exactly when it has a name. |
| CBufferSchema.OverflowNotTiled | src/dxp/sm6/ShaderProgram.cpp:314-364 | A layout and a schema, both accepted, whose elements do not tile the struct: one field that ends at 2^32. |
| BindPoints.AllocateBindPoint | src/dxp/sm5/ShaderProgram.cpp:1069-1101 | Terminates with the lowest free slot at or above the request (the highest at or below it in reverse), failing only when all of those are taken; without auto-bind, the request itself or failure. |
| BindPoints.AddKeeps | src/dxp/sm5/ShaderProgram.cpp:1233-1353 | An addition inserts one declaration with a register free in its family, keeps the old instructions in order and every scanned register family pairwise distinct. |
| BindPoints.AddAllKeeps | src/dxp/sm5/ShaderProgram.cpp:1376-1420 | So does any sequence of texture, raw, structured, sampler, UAV, input and output additions. |
| BindPoints.ShaderProgram.AddDeclaration | src/dxp/sm5/ShaderProgram.cpp:1283-1305 | The method collects the occupied registers, allocates, and inserts after its anchor, leaving the program alone on failure. |
| TempRuns.RunsCoveredExactly | src/dxp/sm5/step/AddResourceStep.cpp:222-261 | Added temp runs lie above the shader's temps and the template pool and below the declared count exactly when the register count does not overflow 32 bits; then they are disjoint. |
| TempRuns.AllocateTemps | src/dxp/sm5/step/AddResourceStep.cpp:222-246 | The loop computes the specified starts and counts. |
| TempRuns.EnsuredTemps | src/dxp/sm5/ShaderProgram.cpp:957-976 | Afterwards the program declares exactly the requested temps and no other instruction has changed or moved. |
| TempRuns.EnsureTempDeclaration | src/dxp/sm5/ShaderProgram.cpp:957-976 | The loops replace the first dcl_temps or insert one after the last declaration. |
| DescriptorTables.PushD3D12 | tools/reshade_addon/runtime.cpp:1117-1142 | The grouping loop computes the specified pushes: one per root parameter, in ascending order, each faithful to its group when no value is zero. |
| DescriptorTables.EveryBindingPushed | tools/reshade_addon/runtime.cpp:1117-1142 | For bindings sorted by (param, slot) and non-zero values there is exactly one push per root parameter, and every binding's value is at its slot: the last one, where several share a slot. |
| DescriptorTables.PushesFaithful | tools/reshade_addon/runtime.cpp:1125-1130 | No entry of a table is zero, and every gap holds a value of the same group. |
| DescriptorTables.CheckSoundExactly | tools/reshade_addon/runtime.cpp:463-472 | Comparing neighbours finds every clash, whatever the handles, if and only if the bindings of each register lie next to each other. |
| DescriptorTables.SortedGroups | tools/reshade_addon/runtime.cpp:463-472 | On D3D12, where type and stage follow from the parameter, sorting by (param, slot) puts them there. |
| DescriptorTables.ClashMissed | tools/reshade_addon/runtime.cpp:464-472 | On D3D11 it need not: two textures at one register with a sampler sorted between them pass the check. |
| DescriptorTables.CheckDuplicates | tools/reshade_addon/runtime.cpp:464-472 | The loop decides whether two neighbours of one register have different handles. |

## Left out

- YAML/glaze parsing, recipes, the rule matcher, the CLI, settings, overlay, logging and error texts are plumbing; errors are modelled as values where a branch depends on them.
- LLVM and DXC work outside the constant-buffer schema functions, and every D3D11, D3D12 and ReShade call, which appear as updates of binding maps, as atomic steps or as parameters.
- ProgramLossless.ProgramReencodesExactly: speaks of programs none of whose instructions re-encodes to more than 127 words; a longer encoding has its length truncated to seven bits.
- InstructionRoundTrip.RoundTrip: leaves out dcl_resource, which comes back as NormalForm.ResourceNormalForm says, and controls that are parsed but not written or written but not parsed (sync flags, UAV flags and dimension), whose fate InstructionLossless.DroppedBitsCleared states.
- InstructionCodec.ParseCustomData: the sum of the block's start and its 32-bit word count is unbounded here, and a block whose count word would lie past the data fails here. Where the code's sum wraps, or the count word is missing, it reads past the data, which has no defined value.
- InstructionCodec.FirstRegister: an absent low word reads as 0; the code dereferences an empty optional there. The same holds wherever a declaration's first index is read.
- InstructionCodec.EncodeInstruction: the SIV/SGV opcodes' expected operand count is the constant 2; the instruction layout table is not part of this model.
- Container.FromBytes: a chunk offset within eight bytes of 2^32 counts as out of range; the code's 32-bit sum wraps there and it reads past the data. Chunk kinds other than shader are not distinguished.
- ContainerCoder.Serialize: sizes are unbounded in the method; the round trips require a total below 2^32, as the 32-bit code does.
- ParseProgramImpl's declaration overlays (resources, samplers, cbuffers, thread groups, global flags, temp count) and sample-control extended tokens are not modelled.
- Md5.MD5Hasher.Update: the input is a sequence of any length; size_t is not modelled, the 64-bit size counter is.
- CRC32 in Hash.hpp: it only feeds log suffixes.
- DrawState.DrawSees: the D3D12 half of HandleDraw (heap restoring) is left out, as are D3D11's own hazard unbinding, the g_any_bindings shortcut, and concurrent publishing while the game binds a pipeline. A multi-stage unbind is a sequence of single-stage binds of no pipeline.
- PipelineStatus.RunAccounted: records, counters and threads only; generations, replacement ownership and the retire queue are left out, and nothing is claimed about which generation is published last.
- WorkerPool.SafeTeardown: what a job does, the condition variable, worker start-up and shutdown are left out; that no Enqueue follows for a closed device is the callers' obligation.
- RootSignature.ExtendLayout: whether to inject at all, and ReShade's translation of parameters to root parameters other than static samplers, are left out.
- CBufferLayout.BuildCBufferLayout: field metadata is left out, and default values arrive already parsed.
- BindPoints.AddKeeps: constant-buffer bind points are left out, because that path reads parse-time overlays that additions do not update; dcl_input_sgv and dcl_input_siv are not in the scanned input family, as in the code.
- TempRuns.RunsCoveredExactly: handles bound to runs are left out, and the template pool is fixed before temps are added.
- DescriptorTables.PushD3D12: sorting is a precondition, and BuildBindings' register-range checks are left out.
