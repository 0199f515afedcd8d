# c-forth core in Dafny

This project models the core of `forth.c`, a small Forth virtual machine. The machine's
whole state is one arena of 32768 sixteen-bit cells. The first cells are registers:
the dictionary pointer, the return stack pointer, `STATE` (compiling mode) and `HEX`
(the output radix). The arena's bytes from 16384 on (cells 8192 .. 32767) hold the string
store, where the dictionary's names and the reader's word buffer live.

- `compile_word` lays a dictionary header `[link, name offset, code]` at the dictionary
  pointer and stores the name.
- `find` walks the links from the newest entry until a name matches the word in the
  buffer. The sentinel entry at 1 stops the walk.
- `forth_init` lays out:
  - a bootstrap word `[READ, RUN, 32, 33]`;
  - the entries `:`, `immediate` and `#`;
  - the 25 primitives `read` .. `load`.
- `forth_run` fetches tokens and dispatches them through a switch over 31 opcodes. The
  `READ` opcode is the outer interpreter: it reads a word, looks it up, and runs it,
  compiles it, or handles it as a number.
- `blockio` saves and loads 1024-byte blocks to files named `%04x.blk`.

The model has two layers:

- **Values.** Modules `Cells`, `Text`, `Dictionary`, `Blocks` and `Machine` hold the
  machine as datatypes (`Vm` for the object, `Regs` for `forth_run`'s locals) and as
  pure functions for every operation.
- **The C object.** Module `Forth` is a class over two arrays: the arena and the string
  store. Its methods are `compile_word`, `forth_init` and each case of `forth_run`'s
  switch. Each method is proved to produce the state that the `Machine` function
  describes.

Modules `Opcodes`, `Compiler`, `Runs` and `Layout` prove properties of the functional
model:

- what each opcode does to the stacks, and how pairs of opcodes undo each other;
- that `find` returns the newest entry with the word's name;
- what DEFINE and IMMEDIATE lay out;
- how READ treats numbers;
- that histories only grow, the return codes, and that an invalidated object is refused;
- the exact layout `forth_init` produces;
- the bootstrap loop that keeps the return stack balanced.

What the host supplies:

- the input stream, as a byte sequence;
- the outcomes of block-file transfers, as a sequence of `Transfer` values;
- the value `WARN`'s `fprintf` returns.

The output, stderr and the names of the block files that were opened are recorded as
sequences in the state. A block file that cannot be opened adds a diagnostic and no
file name.

Three behaviours of the code that the model keeps as written:

- Number tokens are always read with `strtol(s, NULL, 0)`, whatever `HEX` holds
  (`forth.c:173, 176`). A leading `0` means octal, and `HEX` only affects `PNUM`'s
  output.
- `<` (`LESS`) computes `second > top` (`forth.c:185`).
- The `blockio` guard compares a byte offset with `CORESZ - BLKSZ`, a bound in cells
  (`forth.c:66`). Only the first `CORESZ` bytes of the arena can therefore be saved or
  loaded, not the whole byte extent.

## Model

| member | source | states |
|---|---|---|
| Cells.Wrap | forth.c:32 | the cell is congruent to the C value modulo 2^16, and a value already in range is kept |
| Cells.WrapInverse | forth.c:181-182 | adding then subtracting (and the reverse) the same value modulo 2^16 gives back the cell |
| Cells.CK | forth.c:27 | the mask always yields an arena index: the cell itself below CORESZ, the cell minus CORESZ above |
| Cells.Code | forth.c:38-40 | each opcode's number is below LAST and decodes back to that opcode |
| Cells.Decode | forth.c:143 | a cell names an opcode exactly when it is below LAST; the rest fall to the default case |
| Cells.DecodeCode | forth.c:38-40 | every number below LAST is the code of exactly the opcode it decodes to |
| Text.Ascii | forth.c:42-44 | a literal name has one byte per character |
| Text.CStr | forth.c:57 | the C string at k has no zero byte, is the store's bytes from k, and is followed by a zero byte unless the store ends |
| Text.WriteBytes | forth.c:55-56 | the written bytes sit at k and every other byte of the store is unchanged |
| Text.CStrAt | forth.c:87 | a zero-free run followed by a zero byte is the C string at its start |
| Text.StoredReadsBack | forth.c:55 | a zero-free name copied with its terminator reads back unchanged |
| Text.StoredLength | forth.c:57 | strlen of what was stored is at most the length of the bytes written |
| Text.StoredCStr | forth.c:55 | what strcpy stores reads back as the source string cut at its first zero byte |
| Text.CStrSuffix | forth.c:87 | the C string at k depends only on the bytes from k on |
| Text.NoNulCStr | forth.c:55 | a byte sequence without zero bytes reads, from any offset, as its own suffix |
| Text.CStrKept | forth.c:55-57 | a C string survives any change that keeps its bytes and its terminator |
| Text.SkipSpaces | forth.c:159 | every byte skipped is white space and the byte it stops at is not |
| Text.WordEnd | forth.c:159 | a word ends at white space, at the end of the input, or after 31 bytes, with no white space inside |
| Text.ScanWord | forth.c:159 | "%31s" fails exactly when only white space is left; otherwise the word is 1..31 bytes of the input after white space, and the input moves just past it |
| Text.GetC | forth.c:188 | fgetc returns EOF exactly at the end of the input and the next byte otherwise |
| Text.SkipLine | forth.c:153-156 | the comment loop consumes at least one byte unless at the end, stops just after the first newline or zero byte, and consumes no newline or zero byte before that |
| Text.DigitSpan | forth.c:81 | the span is a maximal run of decimal digits |
| Text.IsNum | forth.c:78-82 | a token is a number exactly when every byte is a decimal digit, except an optional leading minus sign |
| Text.StrtolValue | forth.c:173 | strtol's long stays within the range of a 64-bit long; what it reads is stated by the lemmas below |
| Text.Saturate | forth.c:173 | a magnitude beyond the range saturates to LONG_MAX, or LONG_MIN under a minus sign, and the result is always a long |
| Text.StrtolSigned | forth.c:173-176 | decimal digits behind an optional minus sign form a number token, read as their magnitude (octal after a leading 0), negated under the sign and saturated |
| Text.LeadingZeroValue | forth.c:176 | a zero in front of digits does not change their value in any base |
| Text.OctalLiteral | forth.c:173-176 | for every n up to LONG_MAX, "0" followed by n in octal, with or without a minus sign, is a number token, strtol reads it as n or -n, and the literal is that value modulo 2^16 |
| Text.OctalStops | forth.c:173-176 | a token with a leading 0 is read only up to its first 8 or 9: the digits from there on do not change the value, which is the octal prefix's, saturated |
| Text.OctalMagnitude | forth.c:176 | the magnitude of "0", octal digits, then digits starting with 8 or 9, is the octal digits' value |
| Text.OctalDigits | forth.c:81 | "0", octal digits, then decimal digits, consists of decimal digits only |
| Text.DecimalSaturates | forth.c:173-176 | every decimal token above LONG_MAX reads as LONG_MAX (literal 0xFFFF), and with a minus sign as LONG_MIN = -LONG_MAX - 1 (literal 0) |
| Text.WrapLongLimits | forth.c:173 | LONG_MAX truncates to 0xFFFF and LONG_MIN to 0 |
| Text.DigitChar | forth.c:193 | the digit byte printed for d has value d, and is a decimal digit for d < 10 |
| Text.Numeral | forth.c:193 | a numeral in base 8, 10 or 16 has at least one digit, and at least two for a number not below the base |
| Text.NumeralValue | forth.c:193 | the printed numeral reads back as the number, and starts with '0' exactly when the number is 0 |
| Text.NumeralDigits | forth.c:193 | "%u" prints decimal digits only, and the octal text strtol reads holds only octal digits |
| Text.DecimalLiteral | forth.c:171-177 | the decimal text of any long is a number token, and its literal has the same 16-bit pattern as the number |
| Text.LeadingZeroIsOctal | forth.c:176 | strtol with base 0 reads "010" as eight |
| Dictionary.Find | forth.c:84-89 | a returned entry has its name inside the store, and that name equals the word in the buffer |
| Dictionary.Chain | forth.c:87 | the chain starts at the entry, ends at the sentinel 1, and stays between 1 and the entry |
| Dictionary.ChainDecreases | forth.c:87 | addresses on the chain strictly decrease, so the walk visits no entry twice |
| Dictionary.FindNotFound | forth.c:84-89 | on a walkable dictionary, find returns the sentinel exactly when no other entry on the chain has the word's name |
| Dictionary.WalkableFrame | forth.c:87 | the walk and its chain depend only on the cells 2 .. w + 1 |
| Dictionary.FirstNamed | forth.c:87 | the index found is the first entry from i on with the word's name, or the end when there is none |
| Dictionary.FindIsFirstNamed | forth.c:84-89 | find returns the first entry of the chain named like the word, with the newest definitions first, so they shadow older ones |
| Dictionary.FindSkips | forth.c:87 | stepping past an entry with a different name keeps find equal to the first named entry |
| Dictionary.FirstNamedCons | forth.c:87 | an unnamed entry in front moves the first named entry back by one |
| Dictionary.FirstNamedShift | forth.c:87 | the search from i + 1 behind one more entry is the search from i, shifted by one |
| Dictionary.FindHere | forth.c:87 | an entry with the word's name, and the sentinel, are found at once |
| Blocks.BlockRequestOk | forth.c:66-67 | a request is accepted exactly when the mode is 'r' or 'w' and the offset plus a block fits below CORESZ |
| Blocks.HexValue | forth.c:68 | a hexadecimal digit's value is below 16 |
| Blocks.BlockFileName | forth.c:68 | the name is 8 characters ending in ".blk" |
| Blocks.HexCharValue | forth.c:68 | every printed hexadecimal digit reads back as its value |
| Blocks.BlockFileNameRoundTrip | forth.c:68 | the file name gives back its block id, so distinct blocks use distinct files |
| Blocks.NameGivesId | forth.c:68 | parsing a block file name yields the id it was printed from |
| Machine.Append | forth.c:145 | m[m[0]++] = v writes v at the old dictionary pointer, advances it by one, and changes no other cell or field |
| Machine.StoreName | forth.c:55-56 | the name step returns EOF exactly for a missing literal with no word left, and then stores nothing; a literal name returns 0 and reads no input; a stored name fits 31 bytes |
| Machine.CompileWord | forth.c:46-59 | the dictionary pointer advances by three, the histories only grow, EOF exactly at the end of input without a literal, and t moves by 1..32 past the name |
| Machine.HeaderCells | forth.c:51-54 | the arena keeps its size; the header's cells are stated by Compiler.CompileWordLayout |
| Machine.BlockIo | forth.c:61-76 | the result is 0 or -1, the histories only grow, and a save leaves the arena and the store untouched; the bytes a load writes are stated by Opcodes.LoadCopies |
| Machine.StoreByte | forth.c:73 | one byte of the arena, seen through a byte pointer on a little-endian host, becomes b, and every other byte and field is kept |
| Machine.CopyIn | forth.c:73 | storing a byte sequence keeps the object well formed and changes only the arena and the store |
| Machine.Count | forth.c:71-75 | fwrite or fread moves at most BLKSZ bytes and at most what the host has, and exactly BLKSZ when the host has a whole block |
| Machine.Pop | forth.c:201 | popping changes nothing but the registers |
| Machine.PushTop | forth.c:144 | pushing keeps the object well formed; the saved cell is stated by Opcodes.PushSavesTop |
| Machine.Exec | forth.c:143-206 | every opcode keeps the object well formed, only extends its histories, and returns only 0, or -1 with the object invalidated |
| Machine.ExecControl | forth.c:144-202 | the control opcodes never make forth_run return |
| Machine.ExecCompiler | forth.c:145-197 | the compiling opcodes return only -1 on an invalidated object |
| Machine.DefineWord | forth.c:147-151 | DEFINE returns only -1, and only when no word is left in the input |
| Machine.MakeImmediate | forth.c:152 | IMMEDIATE never returns and keeps the registers |
| Machine.ExecData | forth.c:179-201 | the data opcodes never make forth_run return |
| Machine.ExecIo | forth.c:187-204 | the stream and block opcodes never make forth_run return |
| Machine.ReadWord | forth.c:157-160 | READ only extends the histories and returns only 0, or -1 with the object invalidated |
| Machine.Interpret | forth.c:161-178 | resolving the word only extends the histories and returns only as a dispatch does |
| Machine.Number | forth.c:167-177 | a word not in the dictionary never makes forth_run return |
| Machine.Dispatch | forth.c:143-206 | one dispatch only extends the histories and returns only 0, or -1 with the object invalidated |
| Machine.Loop | forth.c:142-209 | the loop keeps the object well formed; its histories and return codes are stated by Runs.LoopHistory |
| Machine.Continue | forth.c:142-209 | continuing keeps the object well formed; see Runs.ContinueHistory |
| Machine.ForthRun | forth.c:133-210 | a call keeps the object well formed; its return codes and the refusal of an invalid object are stated by Runs.RunCodes |
| Machine.NamesFit | forth.c:42-44 | there are 25 primitive names, each 1..31 bytes long |
| Machine.Blank | forth.c:105 | calloc's object is well formed |
| Machine.Boot | forth.c:112-121 | the bootstrap steps keep the object well formed; the cells they lay out are stated by Layout.BootCells |
| Machine.InstallPrimitives | forth.c:126-127 | n primitives advance the dictionary pointer by 4n and use at most 32 store bytes each |
| Machine.InitVm | forth.c:100-131 | forth_init yields a well-formed object; its layout is stated by Layout.InitLayout |
| Machine.CoreWords | forth.c:123-125 | the three core entries advance the dictionary pointer by 9 and use at most 96 store bytes |
| Opcodes.StackEffect | forth.c:143-206 | every opcode except READ and DIV moves the data stack pointer by its fixed delta, and only DEFINE can return |
| Opcodes.ControlStackEffect | forth.c:144-202 | each control opcode moves the data stack pointer by its delta |
| Opcodes.CompilerStackEffect | forth.c:145-197 | each compiling opcode moves the data stack pointer by its delta, and only DEFINE returns |
| Opcodes.DataStackEffect | forth.c:179-201 | each data opcode except DIV moves the data stack pointer by its delta |
| Opcodes.IoStackEffect | forth.c:187-204 | each stream or block opcode moves the data stack pointer by its delta |
| Opcodes.ExecIsControl | forth.c:143 | the switch on a control opcode is that group's function |
| Opcodes.ExecIsCompiler | forth.c:143 | the switch on a compiling opcode is that group's function |
| Opcodes.ExecIsData | forth.c:143 | the switch on a data opcode is that group's function |
| Opcodes.ExecIsIo | forth.c:143 | the switch on a stream or block opcode is that group's function |
| Opcodes.PushSavesTop | forth.c:144 | PUSH, QUOTE, DUP and KEY succeed exactly when S + 1 (and I for the literals) is in the arena, save the top at S + 1 and change no other cell |
| Opcodes.LiteralInline | forth.c:196 | PUSH and QUOTE take the cell at I as the new top and step I over it |
| Opcodes.PopTakesSecond | forth.c:201 | DROP, EMIT, PNUM and JMPZ make the second element the top, lower S by one and leave the arena alone |
| Opcodes.BinaryOp | forth.c:181-185 | the binary opcodes succeed exactly when S is in the arena, and replace the two top elements by their result |
| Opcodes.AddThenSub | forth.c:181-182 | "a b + b -" leaves a, modulo 2^16 |
| Opcodes.DivQuotient | forth.c:184 | DIV by a nonzero top leaves the unsigned quotient |
| Opcodes.DivByZeroReported | forth.c:184 | DIV by zero reports, does not pop, and leaves what the report's fprintf returned |
| Opcodes.LoadTotal | forth.c:179 | LOAD never faults: it reads the masked address, which is the top itself below CORESZ |
| Opcodes.StoreThenLoad | forth.c:180 | STORE writes the second element at the masked address and pops two; a LOAD of an address with the same mask reads it back |
| Opcodes.SwapTwice | forth.c:199 | SWAP exchanges the two top elements, and two SWAPs restore the state |
| Opcodes.DupThenDrop | forth.c:200-201 | DUP then DROP restores the stack and leaves only the copy above it |
| Opcodes.RunThenExit | forth.c:146 | RUN pushes the return address and jumps to the word's body; EXIT then returns to the instruction after the call with the return stack pointer restored |
| Opcodes.RunExitControl | forth.c:186 | the same round trip, stated on the control group's function |
| Opcodes.ToRThenFromR | forth.c:189-190 | >R and then R> restore the data stack and the return stack pointer |
| Opcodes.ToRFromRControl | forth.c:189-190 | the same round trip, stated on the control group's function |
| Opcodes.JmpzBranches | forth.c:192 | JMPZ jumps by the offset at I when the top is zero, otherwise steps over it, and pops either way |
| Opcodes.EmitWrites | forth.c:187 | EMIT writes the low byte of the top and pops |
| Opcodes.PNumWrites | forth.c:193-195 | PNUM appends a numeral of the top in base 16 when HEX is set and 10 otherwise, with no leading zero, and pops |
| Opcodes.KeyReads | forth.c:188 | KEY pushes and consumes the next input byte, or EOF truncated to 0xFFFF at the end |
| Opcodes.BlockOps | forth.c:203-204 | SAVE and LOAD leave 0 exactly for a valid request whose transfer moved a whole block, and 0xFFFF otherwise; a file name, printed from the id, is recorded exactly for a valid request whose file was opened; a save, a refused request and a file that cannot be opened leave the arena and the store unchanged |
| Opcodes.CopyInReads | forth.c:73 | after copying bytes in, the bytes from k to k + n are the copied ones and every other byte is unchanged |
| Opcodes.LoadCopies | forth.c:69-75 | a load of an opened file puts the bytes fread delivers, at most a block, at the arena bytes from the offset on, and changes no other byte |
| Opcodes.UnknownInstruction | forth.c:205-206 | a cell outside the opcode set is reported, invalidates the object and returns -1, changing nothing else |
| Opcodes.CompilingAppendsBody | forth.c:162-166 | while compiling, a found COMPILE word is dispatched at its code cell and appends the address of its body, w + 3 |
| Opcodes.InterpretingRunsBody | forth.c:162-166 | while interpreting, a found COMPILE word is dispatched at w + 3, so a primitive runs its opcode |
| Opcodes.AluMeaning | forth.c:181-185 | on every stack with the second element in the arena, SUB, ADD and MUL leave second minus, plus and times top modulo 2^16; LESS leaves 1 exactly when second > top, EQUAL exactly when they are equal, and 0 otherwise; each pops one element and changes nothing else |
| Opcodes.DispatchDecodes | forth.c:143 | a cell holding an opcode runs that opcode with x past it |
| Compiler.CompileWordLayout | forth.c:51-54 | compile_word writes [L, t, code] at the old dictionary pointer, makes it the newest entry, and changes no other cell, no store byte below t and no history |
| Compiler.StoreNameAbove | forth.c:55-56 | storing a name leaves the store below t alone |
| Compiler.CompileWordLiteral | forth.c:55 | a literal name returns 0, reads back from the store at t, and reads no input |
| Compiler.StoreNameLiteral | forth.c:55 | strcpy's name reads back from the store at t |
| Compiler.CompileWordToken | forth.c:56 | without a literal, the next input word becomes the name, returns 1, and the input moves past it |
| Compiler.StoreNameToken | forth.c:56 | fscanf's word reads back from the store at t |
| Compiler.CompileWordEof | forth.c:56 | at the end of the input compile_word returns EOF and stores nothing |
| Compiler.CompileKeepsChain | forth.c:51-52 | the new entry links to the old newest entry, so the chain is the new entry followed by the old chain |
| Compiler.TokenKeepsNames | forth.c:159 | reading a word into the buffer renames no entry stored past the buffer |
| Compiler.CompiledNameRead | forth.c:159-161 | the name compiled for a new entry matches the buffer when READ next reads that name |
| Compiler.ReadFindsName | forth.c:159-161 | the newest entry, named past the buffer, matches the buffer once READ has read its name |
| Compiler.NewestShadows | forth.c:161-166 | when the next word is the new entry's name, READ dispatches the new entry, shadowing older definitions |
| Compiler.HeaderThenAppend | forth.c:126-127 | a header followed by one appended cell lays out [L, t, code, v] and changes no other cell |
| Compiler.ExecDefine | forth.c:147-151 | the DEFINE case is DefineWord |
| Compiler.ExecImmediate | forth.c:152 | the IMMEDIATE case is MakeImmediate |
| Compiler.DefineSteps | forth.c:147-151 | with a word left, DEFINE is compile_word of it with code COMPILE in compiling mode, followed by RUN |
| Compiler.DefineAppendsHeader | forth.c:147-151 | with a word left, DEFINE lays out [L, t, COMPILE, RUN] as the newest entry, names it with that word, and turns compiling mode on |
| Compiler.DefineAtEnd | forth.c:148-149 | DEFINE at the end of the input invalidates the object and returns -1 |
| Compiler.ImmediateRewrites | forth.c:152 | IMMEDIATE writes RUN two cells back and leaves the pointer one cell back |
| Compiler.ImmediateAfterDefine | forth.c:152 | IMMEDIATE after DEFINE turns the new header into [L, t, RUN], which runs even while compiling |
| Compiler.ImmediateOnHeader | forth.c:152 | IMMEDIATE right after a header [a, b, COMPILE, RUN] rewrites it to [a, b, RUN] |
| Compiler.InterpretFound | forth.c:162-166 | a found entry other than the sentinel is dispatched at once at its entry point |
| Compiler.InterpretNotFound | forth.c:162-167 | a word only the sentinel matches is taken for a number |
| Compiler.InterpretFindsNewest | forth.c:161-177 | READ takes a word for a number when its newest match is the sentinel, and otherwise dispatches the newest entry with that name, at its code cell or just past it when interpreting a COMPILE word |
| Compiler.NumberNotANumber | forth.c:167-169 | a word that is not a number is reported and skipped |
| Compiler.NumberPushes | forth.c:174-177 | when interpreting, a number is pushed and the old top is spilled to S + 1 |
| Compiler.NumberCompiles | forth.c:171-173 | when compiling, a number appends the two cells [2, value] to the dictionary |
| Compiler.CompiledNumberPushes | forth.c:171-173 | while cell 2 still holds PUSH and the two cells lie above it, running the appended [2, value] pushes the value: the old top is spilled to S + 1 and I steps past the value |
| Compiler.FakeWordPushes | forth.c:172 | token 2, whose cell holds PUSH, spills the top to S + 1, takes the cell at I as the new top and steps I past it |
| Compiler.ReadState | forth.c:158-159 | the state after the tail call and the read is well formed; what it keeps is stated by Compiler.ReadStateKeeps |
| Compiler.ReadStep | forth.c:157-161 | READ with a word left is Interpret of that state |
| Compiler.ReadStateKeeps | forth.c:158-159 | the read keeps the dictionary chain and every name past the buffer, and the buffer holds the word |
| Compiler.ReadStateArena | forth.c:158 | the read changes only the return stack pointer cell of the arena, lowering it by one modulo 2^16 |
| Compiler.ReadNotFound | forth.c:157-167 | READ of a word that only the sentinel matches hands the buffer, which holds the word read, to the number branch |
| Compiler.ReadUnknownNumber | forth.c:167-177 | while interpreting, such a number is pushed with the old top spilled to S + 1, with nothing reported and no other cell changed |
| Compiler.ReadUnknownWord | forth.c:167-169 | a word that is neither found nor a number is reported, changes no register and no cell beyond READ's |
| Compiler.ReadAtEnd | forth.c:158-160 | READ at the end of the input lowers the return stack pointer and returns 0 |
| Runs.LoopHistory | forth.c:142-209 | over any number of dispatches the histories only grow, and the loop returns only 0, or -1 with the object invalidated |
| Runs.ContinueHistory | forth.c:142-209 | the same, from after one dispatch |
| Runs.LoopUnfolds | forth.c:142-143 | a nonzero fetched token is dispatched and the loop goes on |
| Runs.ZeroTokenEnds | forth.c:142 | fetching a token of 0 ends the loop, and forth_run returns 0 with nothing changed |
| Runs.MoreFuel | forth.c:142 | a run that ends within the fuel bound ends the same way with more fuel |
| Runs.ContinueMoreFuel | forth.c:142 | the same, from after one dispatch |
| Runs.RunCodes | forth.c:138-139 | forth_run returns only 0 or -1; after -1 the object is invalid and every later call is refused with -1, changing only the report |
| Runs.LoopNext | forth.c:142-143 | a dispatch that goes on is followed by the next fetch |
| Runs.DispatchRead | forth.c:157 | a cell holding READ runs READ |
| Runs.DispatchRun | forth.c:146 | a cell holding RUN saves I on the return stack and jumps to the word's body |
| Runs.BootRun | forth.c:116-121 | the bootstrap word's RUN saves 36 and calls the bootstrap word again with I back at 34 |
| Runs.BootCycle | forth.c:116-121 | a READ that goes on normally followed by the RUN restores the return stack pointer and returns the loop to 34, so the outer interpreter runs in constant return stack |
| Layout.NumberCycles | forth.c:157-177 | the bootstrap word reading a number it does not know, while interpreting, meets Runs.BootCycle's conditions, so the loop returns to 34 with the return stack pointer restored |
| Layout.UnknownWordCycles | forth.c:157-169 | the same for a word that is neither in the dictionary nor a number |
| Layout.NamesHaveNoNul | forth.c:42-44 | no primitive name holds a zero byte |
| Layout.LiteralWord | forth.c:46-59 | compile_word of a literal name writes its header, stores the name at t, moves t past it, and prepends the entry to the chain |
| Layout.Entries | forth.c:126-127 | the primitive entries' list has one address per primitive |
| Layout.EntryKept | forth.c:126-127 | a primitive already laid out survives the next one |
| Layout.EntryNew | forth.c:126-127 | the newest primitive is laid out as [L, t, COMPILE, READ + i] with its name |
| Layout.WordAppended | forth.c:127 | compile_word of a name followed by one appended cell is a four-cell entry |
| Layout.CellsStep | forth.c:126-127 | one more round keeps every primitive's cells |
| Layout.StateStep | forth.c:126-127 | one more round keeps every other field of the object |
| Layout.ChainStep | forth.c:126-127 | one more round prepends the new entry to the chain |
| Layout.InstallStep | forth.c:126-127 | one more round of the names loop extends the laid-out primitives by one |
| Layout.InstallNext | forth.c:126-127 | round n appends the n-th name with codes COMPILE and READ + n - 1 |
| Layout.InstallLaysOut | forth.c:126-127 | the names loop lays out every primitive as [link, name, COMPILE, READ + i] and chains them newest first |
| Layout.CoreFrom | forth.c:123-125 | the three core entries, assembled from their steps |
| Layout.CoreNames | forth.c:123-125 | the names ":", "immediate" and "#" sit at offsets 32, 34 and 44 |
| Layout.CoreChain | forth.c:123-125 | the chain from "#" is 42, 39, 36, then the sentinel |
| Layout.CoreLayout | forth.c:123-125 | the three core entries hold their links, names and the codes DEFINE, IMMEDIATE and COMMENT |
| Layout.BootCells | forth.c:112-121 | the bootstrap word [READ, RUN, 32, 33] sits at 32 in an otherwise zero arena, with L at 1 and t at 32 |
| Layout.CellsFrom | forth.c:112-128 | the cells of the finished layout, assembled from its steps |
| Layout.NamesFrom | forth.c:123-127 | the names of the finished layout, assembled from its steps |
| Layout.ChainFrom | forth.c:123-127 | the chain of the finished layout, assembled from its steps |
| Layout.InitCellsFrom | forth.c:112-128 | the steps of forth_init leave the cells InitCells describes |
| Layout.InitNamesFrom | forth.c:123-127 | the steps of forth_init leave the names InitNames describes |
| Layout.CoreEntriesChain | forth.c:123-125 | after the bootstrap word and the three core entries, the chain from 42 is 42, 39, 36, then the sentinel |
| Layout.InitChainFrom | forth.c:123-127 | the steps of forth_init leave the chain InitChain describes |
| Layout.InitStateFrom | forth.c:100-131 | the steps of forth_init change nothing of the object but the arena, the store, L and t |
| Layout.InitFrom | forth.c:100-131 | forth_init's layout, assembled from its steps |
| Layout.InitLayout | forth.c:100-131 | after forth_init the dictionary pointer is 145, the return stack pointer CORESZ - STKSZ, the bootstrap word at 32, ":", "immediate" and "#" at 36/39/42, the 25 primitives at 45 + 4i with their names and opcodes, the chain runs from 141 through all of them to the sentinel, the buffer is empty, and the arena past 145 is zero |
| Layout.FirstRunReads | forth.c:140-143 | the first call of forth_run on a new object starts by reading a word, with I at the bootstrap word's RUN |
| Layout.StartsReading | forth.c:140-143 | the same, for any object with forth_init's layout |
| Forth.ForthObj.Abs | forth.c:29-34 | the object's fields form a well-formed machine state |
| Forth.ForthObj.Init | forth.c:100-131 | a fresh object whose state is forth_init's, with the registers forth_run starts from |
| Forth.ForthObj.Populate | forth.c:123-129 | after the bootstrap word, the core words, primitives and stack pointers give forth_init's state |
| Forth.ForthObj.InitFrom | forth.c:100-131 | forth_init's state is built from the bootstrap, the core words, the primitives and the return stack pointer |
| Forth.ForthObj.Registers | forth.c:128-129 | only the return stack pointer cell changes, and S is at the bottom of the data stack |
| Forth.ForthObj.CoreWords | forth.c:123-125 | the three compile_word calls produce the core-word state |
| Forth.ForthObj.BootWord | forth.c:116-121 | the arena gets [READ, RUN, 32, 33] at 32, the dictionary pointer 36, and I is 34 |
| Forth.ForthObj.Push | forth.c:117-121 | one append writes the cell at the pointer and advances it |
| Forth.ForthObj.InstallNames | forth.c:126-127 | the names loop produces InstallPrimitives of all 25 names |
| Forth.ForthObj.InstallStep | forth.c:126-127 | one round of the loop is one more primitive |
| Forth.ForthObj.AppendCell | forth.c:145 | m[m[0]++] = v on the object is Append |
| Forth.ForthObj.StoreBytes | forth.c:55-56 | writing bytes into the store array is WriteBytes |
| Forth.ForthObj.CompileWord | forth.c:46-59 | compile_word on the arrays yields the functional compile_word's state and result |
| Forth.ForthObj.CompiledFrom | forth.c:46-59 | compile_word is the header followed by the name and the t update |
| Forth.ForthObj.PassName | forth.c:57 | t moves past the stored name and its terminator, modulo 2^16 |
| Forth.ForthObj.Header | forth.c:51-54 | the header's three cells are written and L becomes the old dictionary pointer |
| Forth.ForthObj.StoreName | forth.c:55-56 | the name written into the store array is the functional StoreName's |
| Forth.ForthObj.Put | forth.c:180 | a cell write changes exactly that cell |
| Forth.ForthObj.PopTop | forth.c:201 | the pop is Pop |
| Forth.ForthObj.StepControl | forth.c:144-202 | each control case on the arrays is ExecControl |
| Forth.ForthObj.StepJump | forth.c:191-196 | PUSH, QUOTE, JMP and JMPZ on the arrays are ExecControl |
| Forth.ForthObj.StepReturn | forth.c:186-202 | RUN, EXIT, R>, >R and TAIL on the arrays are ExecControl |
| Forth.ForthObj.StepCompiler | forth.c:145-197 | each compiling case on the arrays is ExecCompiler |
| Forth.ForthObj.DefineStep | forth.c:147-151 | DEFINE on the arrays is DefineWord |
| Forth.ForthObj.ImmediateStep | forth.c:152 | IMMEDIATE on the arrays is MakeImmediate |
| Forth.ForthObj.SkipComment | forth.c:153-156 | the fgetc loop leaves the input where SkipLine says |
| Forth.ForthObj.StepData | forth.c:179-201 | each data case on the arrays is ExecData |
| Forth.ForthObj.StepArith | forth.c:179-185 | LOAD, the binary opcodes and DIV are ExecData |
| Forth.ForthObj.StepDiv | forth.c:184 | DIV on the object is ExecData of DIV |
| Forth.ForthObj.StepStack | forth.c:180-201 | STORE, SWAP, DUP and DROP are ExecData |
| Forth.ForthObj.StepIo | forth.c:187-204 | each stream or block case is ExecIo |
| Forth.ForthObj.Block | forth.c:61-76 | blockio on the object is BlockIo |
| Forth.ForthObj.CopyBlock | forth.c:73 | fread's bytes stored one at a time from byte k give CopyIn |
| Forth.ForthObj.PutByte | forth.c:73 | a byte written through the byte pointer is StoreByte |
| Forth.ForthObj.StepRead | forth.c:157-178 | READ on the arrays is ReadWord, either finished or continued by a goto that has consumed input |
| Forth.ForthObj.Scan | forth.c:158-159 | the tail call and fscanf give ReadState, or the end of the input |
| Forth.ForthObj.StepInterpret | forth.c:161-178 | find and its branches on the arrays are Interpret |
| Forth.ForthObj.Entry | forth.c:163-165 | the entry point is w + 2, one more when interpreting a COMPILE word |
| Forth.ForthObj.StepNumber | forth.c:167-177 | the number branch on the arrays is Number |
| Forth.ForthObj.Step | forth.c:143-206 | one pass of the switch on the arrays is Dispatch, with a goto consuming input |
| Forth.ForthObj.Run | forth.c:133-210 | forth_run on the object yields ForthRun's state and status |

## Left out

- File I/O itself: `fopen`, `fwrite`, `fread` and `fclose` are replaced by outcomes the host supplies. Each outcome is either a file that cannot be opened or the bytes moved. A save records only how many bytes were written, not the file's contents.
- Byte access to the arena assumes a little-endian host. Arena byte 2i is the low byte of cell i and byte 2i + 1 the high byte.
- `long` is fixed at 64 bits (`LONG_MAX` is 2^63 - 1), so `strtol` saturates there. With a 32-bit `long`, a token such as "4294967296" would saturate to 2^31 - 1, with literal 0xFFFF, where the model gives literal 0.
- Compiler.CompiledNumberPushes: a compiled number runs as a push only while cell 2 holds PUSH (0). A `!` to address 2 changes that cell, and the model then promises nothing about the compiled number.
- `forth_seti`, `forth_seto` and `forth_coredump` (`forth.c:91-98`) are stream plumbing and a raw memory dump.
- `WARN`'s message text goes to stderr. Only the kind of each diagnostic is kept, and the value `fprintf` returns is a host constant.
- `calloc` failure and the NULL checks of `forth_init` and `forth_run`: the model always has an object and streams.
- The string store is a separate byte sequence, not the upper bytes of the arena. `STORE` and `LOAD` on cells at or above 8192 do not see the names, and a dictionary append into the store's cells is treated as `Undefined`.
- Machine.CanCompile: it demands `t + MAXWORD + 1 <= STRSZ` (room for a longest word) before `compile_word` runs. C only needs room for the word actually stored, so a short name near the end of the store, which C handles, is `Undefined` in the model.
- Store offsets from 47104 on alias the data and return stacks in C: they are the bytes of cells 31744 .. 32767. The model keeps the store apart from the arena, so it does not capture a name overwriting a stack, or a stack write changing a name.
- C undefined behaviour becomes the `Undefined` outcome or the `Stuck` status, with no further semantics. This covers an index outside the arena, `m[m[0]++]` with `m[0]` equal to 0, `m[++m[RSTK]]` hitting the RSTK cell itself, and a `find` walk that never ends. Two more cases are given a defined meaning instead:
  - `MUL` (`forth.c:183`) multiplies two 16-bit values promoted to `int`, which overflows for 65535 * 65535. The model takes the product modulo 2^16 (`Wrap(a * b)` in `Machine.Alu`).
  - `EXIT` and `R>` (`forth.c:186, 189`) read `m[m[RSTK]--]`. With `m[RSTK]` equal to 1 that read and the decrement of the same cell are unsequenced. The model reads the cell before the decrement.
- Machine.ForthRun: a call runs at most `fuel` dispatches and otherwise ends `OutOfFuel`; the C loop may run forever. Runs.MoreFuel shows that more fuel changes nothing once a run has ended.
- Dictionary.Find: the walk is bounded by CORESZ entries. A walk that would loop is `None`, where C does not return.
- READ's `goto INNER` is counted within the one dispatch of READ.
- Forth.ForthObj.Init: `S` is set by `Registers` at the end and `I` by the bootstrap step; they are fields `forth_run` only reads.
- `fputc` and `fprintf` are assumed to succeed, so no output error is modelled.
