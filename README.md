# A verified model of a two-pass linker

This project models a toy two-pass linker for a 512-word machine, and an
earlier, stricter draft of it, in Dafny.

**The linker (`linker.cpp`).** Its input is a sequence of modules. Each module
has three lists:

- a definition list: `defcount` pairs of a symbol and a module-relative value;
- a use list: `usecount` symbols;
- a program text: `instcount` pairs of an addressing mode (I, A, E or R) and a
  four-digit instruction word.

Pass 1 reads every module through validating readers. The first malformed
token stops the linker with a parse error at that token, or at the
end-of-input coordinates. Pass 1 builds the symbol table, relocating each
first definition by its module's base. Then the tokenizer rewinds. Pass 2
re-reads the modules with the readers' checks switched off, except for each
module's instruction count, which it reads with the check on. It resolves
every word by its addressing mode. It appends each word to the memory map and prints its line.
After each module it warns about use-list names that no word referred to.
At the end it warns about symbols that were defined but never used.

**The draft (`main.cpp`).** It shares the tokenizer. It has no warnings:
each anomaly it checks for ends the run with a message. These are:

- a malformed token;
- a duplicate definition;
- an undefined symbol;
- an opcode of 10 or more, an external operand beyond the use list, or an
  absolute operand of 512 or more;
- more than 256 memory words;
- a definition count above 16 in Pass 1, or a use count above 16 in Pass 2.

It does not check everything the final linker checks. A relative operand
beyond its module is relocated as if it were in range, where the final
linker reports an error and uses operand zero. A definition whose value lies
beyond its module is entered at that value plus the base, where the final
linker warns and uses the base. Pass 1 lists the symbol table before Pass 2
starts, so a fault in Pass 2 still leaves the table printed.

**How it is modelled.**

- Every component with state is a class: the tokenizer, the symbol tables and
  the memory maps. The two passes are methods with loops over these objects.
- Each method is proved against a pure specification function of the token
  stream. For the tokenizer this is `Lexer.Scan`.
- The reader functions (`Syntax.ReadNumber` and its siblings) say what is
  read.
- `Syntax.ParseFrom` says which modules Pass 1 reads. `Symbols.Pass1Symbols`
  says which table it builds, and `Linking.LinkFrom` says what Pass 2
  produces. For the draft, `DraftLink.Pass1From` and `DraftLink.Pass2From`
  play the same roles.
- The properties the linker promises are lemmas about these functions. They
  include: the tokens are exactly the input's maximal non-blank runs, and
  every word lands at its module's base plus its index. Also: symbols are
  listed once, in order of first definition, and a symbol is flagged exactly
  when it was defined more than once. Pass 1 warns once per definition of
  a name after its first, and about a definition beyond its module exactly
  when that definition is the name's first. Finally, the unused-symbol and
  unused-use warnings name exactly what no word refers to.

**Inputs and outputs.** The input file is a sequence of lines. Everything
printed is returned as a value:

- diagnostics (`Diagnostics`);
- listing lines;
- memory-map lines;
- warnings.

Each fatal exit of the linker is a `ParseError` result. Each exit of the
draft is a `Fault` result.

## Model

| member | source | states |
|---|---|---|
| Lexer.Scan | linker.cpp:162-197 | defines the tokens that remain from a line and column: line breaks, spaces and tabs are skipped, and each maximal non-blank run is a token carrying its 1-based line and column |
| Lexer.Tokens | linker.cpp:151-197 | defines the token stream of the whole input: Scan from before the first line |
| Lexer.RunEnd | linker.cpp:189-192 | a token runs from its first character up to the first blank or the end of the line, with no blank inside |
| Lexer.TokensAreMaximalRuns | linker.cpp:162-197 | every token is a non-empty maximal run of non-blank characters at the line and column it records |
| Lexer.ScanMaximalRuns | linker.cpp:162-197 | from any token boundary, every token scanned is a maximal non-blank run |
| Lexer.TokensInOrder | linker.cpp:162-197 | tokens come in input order, pairwise separated by at least one blank or a line break |
| Lexer.ScanAfter | linker.cpp:162-197 | every token scanned from a position starts after it |
| Lexer.ScanInOrder | linker.cpp:162-197 | the tokens scanned from any position are in order and separated |
| Lexer.TokensCoverInput | linker.cpp:162-197 | the tokens, end to end, spell exactly the non-blank characters of the input in order |
| Lexer.ScanCovers | linker.cpp:162-197 | from any position, the tokens spell the non-blank characters of the rest of the input |
| Text.SkipLeadingZeros | linker.cpp:205-208 | leading zeros do not change the value of a digit string |
| Scanner.LongNumeralTooBig | linker.cpp:205-212 | a numeral with more than ten significant digits, or ten not starting with 1, is at least 2^30, so rejecting it early rejects no number |
| Scanner.ShortNumeralFits | linker.cpp:209-220 | a numeral that passes the length test is below 2*10^9, so stoi cannot overflow on it |
| Scanner.ValidateNumber | linker.cpp:205-219 | what the digit check accepts is a numeral that fits a 32-bit int, and it accepts every number below 2^30 |
| Scanner.ValidateSymbol | linker.cpp:297-310 | the symbol check reports exactly SymbolError: SYM_EXPECTED for a bad shape, else SYM_TOO_LONG beyond 16 characters |
| Scanner.Tokenizer.constructor | linker.cpp:151-158 | a fresh tokenizer stands on the first token of the input: what remains is the whole token stream |
| Scanner.Tokenizer.ToNextToken | linker.cpp:162-185 | moving to the next token skips blanks and empty lines and leaves the tokens to come unchanged, recording the end coordinates when input runs out |
| Scanner.Tokenizer.FillLine | linker.cpp:164-173 | reading lines stops at a non-empty line, or at end of file with the line erased and nothing left to scan |
| Scanner.Tokenizer.SkipBlanks | linker.cpp:177-180 | skipping blanks stops on a non-blank or the line end and changes no token to come |
| Scanner.Tokenizer.GetToken | linker.cpp:187-197 | getToken returns the first remaining token, which is non-empty, and the remaining tokens lose exactly it |
| Scanner.Tokenizer.IsEnd | linker.cpp:330 | isEnd holds exactly when no token remains |
| Scanner.Tokenizer.ReadInt | linker.cpp:199-236 | with check, the result is ReadNumber on the remaining tokens (end-of-input, digit, 2^30 and count-bound errors); without, the token's value; one token consumed |
| Scanner.Tokenizer.ReadSym | linker.cpp:292-312 | with check, the result is ReadSymbol (SYM_EXPECTED, SYM_TOO_LONG, or at end of input); without, the token itself; one token consumed |
| Scanner.Tokenizer.ReadIAER | linker.cpp:314-328 | with check, the result is ReadMode (exactly one of I, A, E, R, else ADDR_EXPECTED); without, the token's first character; one token consumed |
| Scanner.Tokenizer.ReadInstr | linker.cpp:238-290 | the memory entry, the use list and the symbol table after reading one word are exactly those Resolve gives; the symbol order is unchanged |
| Scanner.Tokenizer.BackToBeginning | linker.cpp:332-346 | rewinding succeeds exactly at end of input and then the whole token stream remains; otherwise nothing changes |
| Syntax.IsNumber | linker.cpp:205-219 | defines the tokens the validating number reader accepts: a non-empty digit string whose value is below 2^30 |
| Syntax.SymbolError | linker.cpp:297-310 | defines the symbol reader's verdict: SYM_EXPECTED unless a letter followed by letters and digits, otherwise SYM_TOO_LONG beyond 16 characters, otherwise none |
| Syntax.ReadNumber | linker.cpp:199-236 | an accepted number is a digit token below 2^30 read to its decimal value |
| Syntax.ReadSymbol | linker.cpp:292-312 | an accepted symbol is the first token's text |
| Syntax.ReadMode | linker.cpp:314-328 | an accepted mode is a one-letter I/A/E/R token and the result is that letter |
| Syntax.ReadDefs | linker.cpp:379-383 | reading n definitions appends exactly n well-formed names with values below 2^30 |
| Syntax.ReadUses | linker.cpp:385-388 | reading n use-list names appends exactly n well-formed names |
| Syntax.ReadCode | linker.cpp:392-395 | reading n instructions appends exactly n with valid modes and words below 2^30 |
| Syntax.ParseModule | linker.cpp:377-395 | a module Pass 1 reads is valid (counts at most 16, names and modes well formed) and keeps the total instruction count within 512 |
| Syntax.ParseModuleRest | linker.cpp:379-395 | after the definition count, the module read has that many definitions and valid lists within the 512-word bound |
| Syntax.ParseModuleStages | linker.cpp:377-395 | a module read is exactly: defcount, the definitions, usecount, the names, instcount (checked against memory used), the instructions |
| Syntax.ParseFrom | linker.cpp:374-395 | defines what Pass 1 reads from the remaining tokens: module after module, with the instruction total carried along, up to the end of input or the first parse error, which it returns |
| Syntax.ParseFromStops | linker.cpp:28-41 | a module that fails to parse stops Pass 1 with that module's error and nothing more read |
| Syntax.ParseFromGoesOn | linker.cpp:374-414 | after a module that parses, Pass 1 continues with the tokens after it and the memory used grown by its size |
| Syntax.ParseFromExtends | linker.cpp:374-414 | Pass 1 only adds modules to those already read |
| Syntax.ParseFromFits | linker.cpp:390-391 | the modules Pass 1 reads never hold more than 512 instructions in all |
| Syntax.ParseFromValid | linker.cpp:374-395 | every module Pass 1 reads passed validation |
| Syntax.ParseFromStep | linker.cpp:374-414 | one turn of Pass 1's loop either stops or reads one more valid module that fits the machine |
| Syntax.ParsedModulesFit | linker.cpp:368-414 | everything Pass 1 reads from an input is valid and fits in 512 words |
| Symbols.SymTab.SymExist | linker.cpp:113 | defines symExist: the name has an entry in the table |
| Symbols.SymTab.GetVal | linker.cpp:117 | defines getVal on a name that has an entry: its value |
| Symbols.SymTab.CreateSymbol | linker.cpp:81-84 | a first definition is appended to the name list and entered with its value and module, unused and not flagged |
| Symbols.SymTab.SetMulDefErr | linker.cpp:108-111 | a redefinition flags the entry, changes nothing else, and yields the redefinition warning for that module |
| Symbols.SymTab.SetUsedWarn | linker.cpp:115 | marking a symbol used changes only its used flag |
| Symbols.SymTab.Print | linker.cpp:86-96 | the symbol-table listing is Listing of the table |
| Symbols.SymTab.PrintWarning | linker.cpp:98-106 | the unused-definition warnings are UnusedDefs of the table |
| Symbols.Listing | linker.cpp:86-96 | defines the symbol-table listing: one line per name in first-definition order, with its value, flagged when the entry is multiply defined |
| Symbols.UnusedDefs | linker.cpp:98-106 | defines the unused-definition warnings: one per name never marked used, in first-definition order, naming the module that defined it |
| Symbols.Define | linker.cpp:399-411 | defines Pass 1's handling of one definition: a new name is appended and entered at its offset plus the module base, or at the base with an out-of-module warning when the offset is not below the instruction count; a known name is flagged and gets a redefinition warning |
| Symbols.DefineFrom | linker.cpp:397-412 | defines the handling of a module's definitions in written order, warnings appended in turn |
| Symbols.Pass1Symbols | linker.cpp:374-414 | defines the table and warnings Pass 1 produces from the modules it read, module k numbered k+1 and based at the sizes of the modules before it |
| Symbols.ListingLines | linker.cpp:86-96 | the listing has one line per name in order, with its value, flagged multiply-defined exactly when the entry is |
| Symbols.Pass1Listing | linker.cpp:397-416 | Pass 1's listing names each defined name once in first-definition order, flagged exactly when it was defined two or more times |
| Symbols.UnusedDefsExactly | linker.cpp:98-106 | a name gets an unused-definition warning, naming its defining module, exactly when it was never marked used |
| Symbols.DefineTracks | linker.cpp:397-412 | one definition keeps the table listing each name once, in order, flagged exactly when defined again |
| Symbols.DefineFromTracks | linker.cpp:397-412 | a module's definitions keep that property |
| Symbols.Pass1Tracks | linker.cpp:374-414 | the table Pass 1 builds tracks every definition of every module |
| Symbols.SymbolsInFirstDefinitionOrder | linker.cpp:397-412 | after Pass 1 the table lists each defined name once, in first-definition order, with an entry for exactly those names |
| Symbols.MultiplyDefinedIffRedefined | linker.cpp:400-411 | a name is flagged multiply defined exactly when it is defined more than once, in one module or across modules |
| Symbols.DefineFromKeepsEntries | linker.cpp:409-411 | a module's definitions never change an existing entry's value or module |
| Symbols.ValueFixedOnceDefined | linker.cpp:397-412 | a later redefinition never changes a name's value or the module it is attributed to |
| Symbols.DefineFromFirst | linker.cpp:400-408 | the first definition of a name in a module enters its relocated value attributed to that module |
| Symbols.FirstDefinitionFixesValue | linker.cpp:400-408 | a name's entry is its first definition's offset plus its module's base (or the base itself when the offset is not below the instruction count), in that module |
| Symbols.DefineFromBounded | linker.cpp:401-406 | definitions keep every symbol value between 0 and the end of the current module |
| Symbols.SymbolValuesWithinMemory | linker.cpp:401-406 | every symbol Pass 1 defines has a value between 0 and the program size |
| Symbols.DefineFromUnused | linker.cpp:397-412 | definitions never mark a symbol used |
| Symbols.Pass1Unused | linker.cpp:397-412 | Pass 1 marks no symbol used |
| Symbols.Pass1WarningsExactly | linker.cpp:397-412 | Pass 1's warnings are, in written order, a redefinition warning for each definition of a name defined before it (in that module or an earlier one), an out-of-module warning for each first definition whose offset is not below its module's instruction count, and nothing else |
| Symbols.RedefinedWarnings | linker.cpp:399-411 | a name gets one redefinition warning per definition after its first, and none when it is never defined |
| Symbols.TooBigWarnings | linker.cpp:400-407 | an out-of-module warning is printed exactly for a name's first definition whose offset is not below its module's instruction count, and names the 1-based module, the name, the offset and instcount - 1 |
| Memory.MemMap.AllocateMem | linker.cpp:126-128 | a word is appended with its error and symbol, and nothing already stored changes |
| Memory.MemMap.Print | linker.cpp:130-141 | the line printed after an append is the newest word at the address equal to its index |
| Resolver.Resolve | linker.cpp:238-290 | defines one word's resolution: 9999 with an opcode error for an opcode of 10 or more; R adds the base, or gives opcode × 1000 plus the base with an error when the operand is outside the module; E keeps the word with an error when the operand is beyond the use list, and otherwise marks the slot it names used and replaces the operand by the value of that slot's symbol, marking the symbol used, or gives opcode × 1000 with an undefined-symbol error when the symbol is undefined; A keeps the word, or gives opcode × 1000 with an error at operand 512 or beyond; I keeps it |
| Resolver.ResolveFrame | linker.cpp:238-290 | resolution touches only the slot an E operand names and that symbol's entry, only to mark them used; the opcode check decides exactly the 9999 errors |
| Resolver.ResolveIgnoresFlags | linker.cpp:263-277 | the word produced depends on names and values only, not on used flags, and names and values are kept |
| Resolver.ResolveMarksUse | linker.cpp:263-269 | a use-list slot ends up used exactly when it already was or the word refers to it |
| Resolver.ResolveMarksSymbol | linker.cpp:268-275 | a defined symbol ends up used exactly when it already was or the word refers to a slot naming it |
| Resolver.ResolveKeepsOpcode | linker.cpp:241-290 | a word with a valid opcode keeps it; a relative operand lands inside its module, an external one on the symbol's value, an absolute one inside the machine |
| Linking.ResolveFrom | linker.cpp:442-448 | defines the instruction loop: each word resolved against the use list and table the words before it left, appended to the memory map, its line printed |
| Linking.UnusedUseWarnings | linker.cpp:450-454 | defines the warnings after a module: one per use-list slot no word referred to, in slot order |
| Linking.LinkModule | linker.cpp:425-455 | defines one module of Pass 2: its words resolved against a fresh use list, then its unused-use warnings |
| Linking.LinkFrom | linker.cpp:424-457 | defines Pass 2 from module k on, module k numbered k+1, each module at the base grown by the sizes of those before it |
| Linking.FreshUses | linker.cpp:434-438 | Pass 2's use list holds the module's names in order, none yet used |
| Linking.BaseStep | linker.cpp:456 | each module's base is the previous base plus the previous module's size |
| Linking.BaseWithin | linker.cpp:456 | each module's addresses lie within the whole program |
| Linking.CodeWords | linker.cpp:442-448 | a module has one resolved word per remaining instruction |
| Linking.ResolveFromKeeps | linker.cpp:442-448 | resolving words keeps use-list names and symbol values |
| Linking.ResolveFromLayout | linker.cpp:442-448 | resolving a module appends exactly its words resolved against the use list and table it started with |
| Linking.LinkFromKeepsValues | linker.cpp:424-457 | Pass 2 never changes a symbol's value |
| Linking.LinkFromLayout | linker.cpp:424-457 | Pass 2 appends the words of the remaining modules, resolved against the table as it stood before |
| Linking.CodeWordsAt | linker.cpp:442-448 | word j of a module is instruction j resolved |
| Linking.WordsFromLength | linker.cpp:442-456 | the words from module k on fill the addresses from its base to the end of the program |
| Linking.WordsFromAt | linker.cpp:442-456 | word j of module k2 sits at offset base(k2) + j among the words from module k on |
| Linking.MemoryImage | linker.cpp:419-457 | Pass 2 from an empty map stores one word per instruction, word j of module k at address base(k) + j, resolved against a fresh use list and Pass 1's values |
| Linking.WordsFromPlaced | linker.cpp:442-456 | all modules' words laid end to end place word j of module k at base(k) + j |
| Linking.Lines | linker.cpp:130-141 | the lines listing a memory map give every address once, in order, with its word |
| Linking.NoEntries | linker.cpp:450-454 | warnings contribute no memory-map line |
| Linking.UnusedUseWarningsAreWarnings | linker.cpp:450-454 | what is printed after a module's words is only warnings |
| Linking.ResolveFromPrints | linker.cpp:446-447 | the lines printed while resolving are the memory map so far |
| Linking.LinkFromPrints | linker.cpp:424-457 | the memory-map lines Pass 2 prints are its memory map, one line per address in order, whatever warnings come between |
| Linking.ResolveFromMarks | linker.cpp:442-448 | a slot ends up used exactly when it already was or a remaining word refers to it |
| Linking.UnusedUseWarningsExactly | linker.cpp:450-454 | a use-list warning is issued exactly for each slot not marked used |
| Linking.UnusedUsesExactly | linker.cpp:442-454 | after a module, Pass 2 warns of exactly the use-list names no word of the module refers to |
| Linking.ResolveFromMarksSymbol | linker.cpp:270-272 | resolving marks a symbol used exactly when a remaining word refers to a slot naming it, or it already was |
| Linking.LinkFromMarksSymbol | linker.cpp:424-457 | Pass 2 marks a symbol used exactly when some word of some module refers to it, or it already was |
| Linking.NeverUsedExactly | linker.cpp:419-459 | after both passes the defined-but-never-used warnings name exactly the symbols no word refers to, each with its defining module |
| Linking.LinkFromKeepsLoc | linker.cpp:424-457 | Pass 2 never changes the module a symbol is attributed to |
| Linking.ResolveFromKeepsLoc | linker.cpp:442-448 | resolving words never changes the module a symbol is attributed to |
| FirstPass.ReadDefList | linker.cpp:379-383 | the definition loop reads exactly what ReadDefs reads, or stops with its error |
| FirstPass.SkipUseList | linker.cpp:385-388 | the use-list loop validates exactly what ReadUses reads, or stops with its error |
| FirstPass.SkipCode | linker.cpp:392-395 | the instruction loop validates exactly what ReadCode reads, or stops with its error |
| FirstPass.ReadModule | linker.cpp:377-395 | reading one module yields ParseModule's module and leaves the tokens after it, or its error |
| FirstPass.DefineModule | linker.cpp:397-412 | entering a module's definitions leaves the table and warnings DefineFrom gives |
| FirstPass.Pass1Module | linker.cpp:374-414 | one turn of Pass 1 is one step of ParseFrom and Pass1Symbols; on an error the table and warnings stay as they were |
| FirstPass.Pass1Step | linker.cpp:374-414 | a module that parses is the next one read and the next one defined from, at base equal to the memory used |
| FirstPass.Pass1 | linker.cpp:368-417 | Pass 1 reads the modules ParseFrom reads, builds the table and warnings Pass1Symbols gives, and lists the table when input ran out cleanly, else gives the first parse error |
| SecondPass.SkipDefList | linker.cpp:427-431 | Pass 2 skips exactly the definition tokens Pass 1 read |
| SecondPass.ReadUseList | linker.cpp:433-438 | Pass 2's use list is the module's names, none used, and the tokens after them remain |
| SecondPass.ReadDefsTokens | linker.cpp:427-431 | the definitions Pass 1 accepted lie in the tokens as name-then-numeral pairs |
| SecondPass.ReadUsesTokens | linker.cpp:435-438 | the use-list names Pass 1 accepted lie in the tokens one per token |
| SecondPass.ReadCodeTokens | linker.cpp:442-445 | the instructions Pass 1 accepted lie in the tokens as mode-then-word pairs |
| SecondPass.ResolveModule | linker.cpp:442-448 | the instruction loop leaves the use list, table, memory map and output ResolveFrom gives |
| SecondPass.ResolveWord | linker.cpp:443-447 | one instruction is one step of ResolveFrom |
| SecondPass.WarnUnusedUses | linker.cpp:450-454 | the warnings after a module are UnusedUseWarnings of its use list |
| SecondPass.LinkModuleAt | linker.cpp:425-456 | one module of Pass 2 gives what LinkModule gives, and its instruction count is the module's size |
| SecondPass.Pass2Module | linker.cpp:424-457 | one turn of Pass 2's loop is one step of LinkFrom over the modules Pass 1 read |
| SecondPass.Pass2 | linker.cpp:419-460 | Pass 2 gives LinkFrom over the modules Pass 1 read, then the unused-definition warnings |
| SecondPass.ParsedModesValid | linker.cpp:283-287 | every word Pass 2 resolves has a valid mode, so the wrong-type exit cannot be reached |
| SecondPass.Pass2Next | linker.cpp:424-457 | the tokens Pass 2 reaches after k modules begin with module k as Pass 1 read it |
| Linker.Run | linker.cpp:462-490 | the linker prints Pass 1's warnings, then either the first parse error, or the listing, Pass 2's output and the unused warnings as Pass1Symbols and LinkFrom give them |
| DraftSyntax.IntOf | main.cpp:167-176 | defines readInt: a wrong-int-token fault unless every character is a digit; an abort on an empty token or a value beyond INT_MAX; otherwise the decimal value |
| DraftSyntax.SymOf | main.cpp:213-227 | defines readSym: a wrong-symbol-token fault beyond 16 characters or on a character that is not alphanumeric; otherwise the token |
| DraftSyntax.ModeOf | main.cpp:229-242 | defines readIAER: an unexpected-token fault unless the token is one of I, A, E, R; otherwise that letter |
| DraftSyntax.DraftResolve | main.cpp:178-211 | defines readInstr's resolution: a wrong-opcode fault at opcode 10 or more; R adds the base unchecked; E needs the operand inside the use list (wrong operand) and the name defined (wrong sym) and takes its value; A faults at operand 512 or beyond; I keeps the word |
| DraftSyntax.NumbersReadAlike | main.cpp:167-176 | every number the final linker accepts, the draft reads to the same value; the draft also accepts 2^30 up to INT_MAX |
| DraftSyntax.SymbolsReadAlike | main.cpp:213-227 | a symbol the draft reads, the final linker accepts exactly when it starts with a letter, and reads to the same name |
| DraftSyntax.LeadingDigitAccepted | main.cpp:220-225 | the draft accepts a name with a leading digit that the final linker refuses |
| DraftSyntax.ModesReadAlike | main.cpp:229-242 | both linkers read exactly the same addressing modes |
| DraftSyntax.ResolveAlike | main.cpp:178-211 | the draft resolves a word exactly when the final linker does so without error or with only the relative-range error, and then to the same word, except that the draft relocates an out-of-range relative operand |
| DraftTables.Define | main.cpp:57-64 | defines createSymbol on a table value: a duplicate-definition fault for a name already entered, otherwise the name appended with its value |
| DraftTables.Lookup | main.cpp:79-85 | defines getVal on a table value: a wrong-sym fault for an undefined name, otherwise its value |
| DraftTables.Allocate | main.cpp:94-100 | defines allocateMem on a memory value: an exceed-memory fault at 256 words, otherwise the word appended |
| DraftTables.DefineKeeps | main.cpp:58-65 | a definition goes through exactly for a new name; the table stays consistent, the name goes last, gets its value, and no other value changes |
| DraftTables.AllocateWithinCap | main.cpp:94-100 | an allocation fails exactly when the map holds 256 words; otherwise it appends within the cap |
| DraftTables.SymTab.CreateSymbol | main.cpp:58-65 | createSymbol stops on a duplicate and otherwise enters the name last with its value |
| DraftTables.SymTab.GetVal | main.cpp:79-85 | getVal gives the name's value, or stops for an undefined name |
| DraftTables.SymTab.Print | main.cpp:67-77 | the listing has one line per name in definition order with its value |
| DraftTables.MemMap.AllocateMem | main.cpp:94-100 | allocateMem stops at 256 words and otherwise appends the word |
| DraftTables.MemMap.Print | main.cpp:102-109 | the listing gives every word at the address equal to its index |
| DraftLink.DefStep | main.cpp:292-294 | defines one definition of Pass 1: a symbol, an integer, entered at the integer plus the module base |
| DraftLink.DefsThen | main.cpp:291-295 | defines the next n definitions of Pass 1, one DefStep after another |
| DraftLink.SkipDefs | main.cpp:319-322 | defines Pass 2's definition loop: n symbol-integer pairs read and dropped |
| DraftLink.SkipInstrs | main.cpp:303-306 | defines Pass 1's instruction loop: n mode-integer pairs read and dropped |
| DraftLink.WordOf | main.cpp:178-211 | defines readInstr: an integer token, then DraftResolve |
| DraftLink.InstrStep | main.cpp:337-340 | defines one instruction of Pass 2: a mode, the word resolved under it, allocated in the memory map |
| DraftLink.Module1 | main.cpp:286-307 | defines one module of Pass 1: defcount (a fault above 16), the definitions, the use list, instcount and the instructions read; the table after it and the instruction count |
| DraftLink.Module2 | main.cpp:318-342 | defines one module of Pass 2: the definitions skipped, usecount (a fault above 16), the use list, then each instruction resolved and allocated |
| DraftLink.Pass1From | main.cpp:282-311 | defines Pass 1 over the remaining tokens: module after module, the base growing by each instruction count, until input runs out or a fault |
| DraftLink.Pass2From | main.cpp:313-346 | defines Pass 2 over the remaining tokens in the same way, with the values Pass 1 entered |
| DraftLink.Link | main.cpp:348-376 | defines the whole draft: a Pass 1 fault, or Pass 1's table together with the outcome of Pass 2 over the same tokens |
| DraftLink.UsesThen | main.cpp:330-333 | the use-list loop reads exactly n names after those already read |
| DraftLink.InstrsThen | main.cpp:336-341 | the instruction loop appends exactly one word per instruction and keeps the words already stored |
| DraftLink.DefStepKeeps | main.cpp:292-294 | one definition keeps the table consistent and extends it |
| DraftLink.DefsThenKeeps | main.cpp:291-295 | a module's definitions keep the table consistent and extend it |
| DraftLink.Module1Keeps | main.cpp:286-307 | one module of Pass 1 keeps the table consistent and extends it |
| DraftLink.Pass1Step | main.cpp:285-308 | a module of a Pass 1 that goes through consumes tokens and extends a consistent table |
| DraftLink.Pass1Keeps | main.cpp:282-311 | Pass 1 keeps the table consistent; a name once entered keeps its place and value |
| DraftLink.DefinitionNotRangeChecked | main.cpp:292-294 | a definition goes through exactly when a symbol token and an integer token come and the name is new, and is then entered last at its written value plus the module base, whatever the value: the module size is never compared |
| DraftLink.Module2Grows | main.cpp:336-341 | one module of Pass 2 appends one word per instruction |
| DraftLink.Pass2Step | main.cpp:317-343 | a module of a Pass 2 that goes through appends one word per instruction, never past 256 |
| DraftLink.Pass2WithinCap | main.cpp:313-346 | Pass 2 from a map within the cap only appends to it and never holds more than 256 words |
| DraftLink.ModuleWithinCap | main.cpp:340 | one module of Pass 2 keeps the map within 256 words |
| DraftLink.InstrsThenWithinCap | main.cpp:336-341 | the instruction loop keeps the map within 256 words |
| DraftLink.SkipDefsAfterDefs | main.cpp:319-322 | Pass 2 skips exactly the definition tokens Pass 1 read |
| DraftLink.InstrsAfterSkip | main.cpp:336-341 | on instructions Pass 1 read, Pass 2 reads to the same end or stops for a semantic fault |
| DraftLink.Module2AfterModule1 | main.cpp:317-342 | a module Pass 1 read, Pass 2 reads to the same end with the same size, or stops for a semantic fault |
| DraftLink.Pass2Follows | main.cpp:317-343 | Pass 2 on a module Pass 1 read goes on after the same tokens at the same base, or stops for a semantic fault |
| DraftLink.PassesStep | main.cpp:285-343 | one module read by both passes: both go on after the same tokens, or Pass 2 stops for a semantic fault |
| DraftLink.Pass2AfterPass1 | main.cpp:363-367 | once Pass 1 went through, Pass 2 over the same tokens goes through or stops for a semantic fault |
| DraftLink.LinkOutcome | main.cpp:348-376 | after a clean Pass 1 the table is consistent, and Pass 2 either holds at most 256 words or stops for a semantic fault |
| DraftPasses.ReadInt | main.cpp:167-176 | readInt gives IntOf of the remaining tokens (wrong int token, or abort at the end or beyond INT_MAX) and consumes one token |
| DraftPasses.ReadSym | main.cpp:213-227 | readSym gives SymOf (wrong symbol token beyond 16 characters or on a non-alphanumeric) and consumes one token |
| DraftPasses.ReadIAER | main.cpp:229-242 | readIAER gives ModeOf (unexpected token unless one of I, A, E, R) and consumes one token |
| DraftPasses.ReadInstr | main.cpp:178-211 | readInstr gives the word resolved as DraftResolve says (wrong opcode, wrong operand, wrong sym, larger than machine size) |
| DraftPasses.EnterDef | main.cpp:292-294 | one definition updates the table and tokens as DefStep says |
| DraftPasses.EnterDefs | main.cpp:291-295 | the definition loop updates the table and tokens as DefsThen says |
| DraftPasses.ReadUseList | main.cpp:297-300 | the use-list loop reads the names UsesThen gives |
| DraftPasses.SkipCode | main.cpp:303-306 | Pass 1's instruction loop consumes what SkipInstrs consumes, or stops with its fault |
| DraftPasses.SkipDefList | main.cpp:319-322 | Pass 2's definition loop consumes what SkipDefs consumes, or stops with its fault |
| DraftPasses.ResolveCode | main.cpp:336-341 | Pass 2's instruction loop leaves the memory map and tokens InstrsThen gives |
| DraftPasses.Pass1Module | main.cpp:286-307 | one module of Pass 1, with the defcount check, is Module1 |
| DraftPasses.Pass2Module | main.cpp:318-342 | one module of Pass 2, with the usecount check, is Module2 |
| DraftPasses.Pass1 | main.cpp:282-311 | Pass 1 gives Pass1From, reads the input to its end, and lists the table in definition order |
| DraftPasses.Pass2 | main.cpp:313-346 | Pass 2 gives Pass2From and lists every word at its address |
| DraftPasses.Run | main.cpp:348-376 | a Pass 1 fault ends the run with nothing listed; otherwise the symbol-table listing of Link's table, printed whatever Pass 2 does, then either Pass 2's fault or the memory-map listing of at most 256 words |

## Left out

- Opening the input file and the command-line check are not modelled; the input is given as its lines. The `Unable to open input file` and `Wrong input!` exits go with them.
- Console output is not modelled: its wording, the zero-padded formatting and the `Symbol Table` and `Memory Map` headers. Diagnostics, listings and memory-map lines are returned as values in the order they are printed.
- `printTokens` is not modelled: it is a debugging aid that neither pass calls.
- Every line is read as if it ends with a line break. If the last line has no line break, the stream reaches end of file while that line is read, so its tokens are handled differently. That case is not modelled.
- `unordered_map` is a Dafny `map`. Only membership and lookup matter, because the listings follow the separate vector of names.
- The `wrong type` default of `readInstr` is not modelled in either program. Pass 1 has already read every mode it could reach, so it is unreachable: `IsMode` is a precondition there.
- The exit in `backToBeginning` is not modelled in either program. Pass 1 only ends at end of input, so it is unreachable: the rewind is asserted to succeed.
- Scanner.Tokenizer.ReadInt: with the check off, `stoi` cannot fail or overflow, because the token is one Pass 1 validated. A digit string fitting a 32-bit int is therefore a precondition.
- DraftSyntax.IntOf: an uncaught exception ends the draft. This is `stoi` on an empty token past the end of input, or on a digit string above 2147483647. Both become the fault `Aborted`, and the crash itself is not modelled.
- DraftSyntax.SymOf: every read past the end of input gives `Aborted`. When the input ends with an empty line, `main.cpp`'s `readSym` returns an empty token instead. The read after it still aborts.
- DraftSyntax.ModeOf: every read past the end of input gives `Aborted`. When the input ends with an empty line, `main.cpp`'s `readIAER` exits with `syntax error: an unexpected token` instead.
- DraftSyntax.DraftResolve: 32-bit wrap-around is not modelled, because integers are unbounded. The draft accepts values up to 2147483647, so `opcode * 1000 + getVal` could overflow in the C++ but cannot here.
- DraftLink.DefStep: 32-bit wrap-around of `val + module_base` is not modelled, for the same reason. `main.cpp` adds the base to values up to 2147483647.
