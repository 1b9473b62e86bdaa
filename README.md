# mcpu in Dafny

This project models mcpu, a toy 8-bit stack machine written in Rust. It has three parts.

- **Tokenizer** (`tokenizer.dfy`, module `Tokenizer`) models `tokenize` from `src/assembler.rs`.
  - `tokenize` scans assembly text one character at a time, driven by five boolean flags.
  - It produces `Word`, `Number` and `EOL` tokens.
  - The method `Tokenize` keeps the five flags and the in-place token vector.
  - It is proved equal to `Scan`, a four-mode state machine that serves as its specification (`Start`, `InWord`, `AfterPrefix`, `InNumber`).
  - The properties of the scanner are proved about `Scan`:
    - token offsets;
    - source order;
    - one `EOL` per `;`;
    - exactly one `Word` or `Number` per space or `;`, closed by it;
    - the error cases;
    - exactly where it panics;
    - each `EOL` directly after the lexeme its `;` closed.
- **Parser** (`parser.dfy`, module `Parser`) models `parse` from `src/assembler.rs`.
  - `parse` is one left-to-right pass over the tokens.
  - It matches each statement against the fixed mnemonic grammar and emits bytes.
  - It binds `DW` labels in a name table and counts bytes in the `u8` counter `instruction`.
  - The method `Parse` keeps that loop, its byte vector, its name table and its counter.
  - It is proved equal to `Assembled`, the same pass written as recursion over the token index.
  - The parser is also compared with an independent reference encoding:
    - programs are written as `Statement` values;
    - `Print` renders each statement as the tokens that spell it;
    - `Emit` assembles statements directly.
  - A token vector spells a program when it matches the printed statements up to token offsets and up to the letter case of mnemonics and jump conditions.
  - `AssembledSpelled` proves that parsing any spelling of a program gives exactly the bytes `Emit` gives, and that parsing fails exactly when `Emit` fails. `AssembledPrinted` is the case of the printed program.
  - `AssembledIsPrinted` proves the converse. Whatever `parse` accepts spells some program whose `Emit` gives the same bytes. So a statement with an operand of the wrong kind is never accepted.
  - `AssembledIffSpelled` puts the two together: `parse` succeeds exactly on the spellings of programs that `Emit` encodes. Whether it succeeds, and the bytes it returns, do not depend on token offsets.
- **Emulator** (`emulator.dfy`, module `Cpu`) models `Emulator` from `src/lib.rs`.
  - The state is a 256-byte memory, `u8` registers `pc` and `sp`, and a `running` flag.
  - The class `Emulator` keeps the memory in an `array` and updates the fields in place.
  - Each method is proved against a function on an immutable `Machine` value (`Written`, `Pushed`, `Popped`, `Execute`, `StepOnce`, `RunFor`).

`common.dfy` (module `Common`) holds the shared types:
- `Byte`;
- `Option`;
- `Outcome`, which is `Ok`, `Err` or `Panic`.

Rust panics are modelled as follows.
- In `tokenize` and `parse`, every panic is an explicit `Panic` outcome:
  - `unwrap` of `u8::from_str_radix` on a literal that is not hex or is wider than a byte;
  - `chars[i + 1]` past the end of the text;
  - `tokens[i + k]` past the end of the token vector;
  - overflow of the `u8` counter `instruction`.
- In the emulator, `next`, `step` and `run` return `ok == false` when the Rust code would overflow or underflow a `u8`.
  - This covers `pc + 1`, `sp - 1`, `sp + 1` and `a + b`, under debug-build semantics.
- `push`, `pop`, `read` and `write` instead carry `requires` clauses that exclude their panics.
  - `push` and `pop` are private, and `next` checks these conditions before it calls them.
  - `read` and `write` are public. Their `requires pos < 256` rules out the index panic that a caller outside the crate could trigger (see "Left out").

## Model

| member | source | states |
|---|---|---|
| Tokenizer.Tokenize | src/assembler.rs:27-138 | The flag-driven scanning loop returns exactly `Scan(source)`: the same tokens, the same error, or a panic in the same cases. |
| Tokenizer.FromHex | src/assembler.rs:53 | The conversion succeeds exactly on a non-empty string of hex digits whose value is below 256, and then yields that value. |
| Tokenizer.ShortLiteralFits | src/assembler.rs:53 | One or two hex digits always convert to a byte. |
| Tokenizer.ScanChar | src/assembler.rs:42-135 | Each accepted character moves the scan forward by one, or by two after a `0x` prefix, and never past the end of the text. Tokens are only appended. A rejection names the current index. |
| Tokenizer.ScanFrom | src/assembler.rs:42-137 | The rest of the loop only appends tokens, and an error names an index between the current one and the end of the text. |
| Tokenizer.Scan | src/assembler.rs:27-138 | An error names an index inside the text. |
| Tokenizer.PushPending | src/assembler.rs:47-56 | Emits the pending word at the offset where its text starts, or the pending literal at the offset of its `0x`, converted by `from_str_radix`. It returns `None` exactly where the `unwrap` panics, and otherwise only appends one token. |
| Tokenizer.DelimiterStep | src/assembler.rs:46-91 | Handles a space or `;`. After a bare `0x` prefix the character is rejected at its own index. A pending literal that is not valid hex panics. Otherwise the pending word or number is emitted, and for `;` an `EOL` at that index follows. |
| Tokenizer.AlnumStep | src/assembler.rs:92-116 | Handles a letter or digit. A `0` read between lexemes as the last character panics. `0x` starts a number and skips the `x`. Otherwise the character extends the current word or number. |
| Tokenizer.DigitValue | src/assembler.rs:53 | The value of a hex digit is below 16. |
| Tokenizer.RunEndIsMaximal | src/assembler.rs:92-116 | `RunEnd` is the end of the maximal run of letters and digits starting at a position. |
| Tokenizer.SemicolonsExact | src/assembler.rs:68-91 | `Semicolons(src, n)` lists exactly the indices below `n` that hold `;`, in increasing order. |
| Tokenizer.DelimitersExact | src/assembler.rs:46-91 | `Delimiters(src, n)` lists exactly the indices below `n` that hold a space or `;`, in increasing order. |
| Tokenizer.ScanDelimiterSound | src/assembler.rs:46-91 | A space or `;` keeps the scan invariant. Emitted tokens are anchored in the text and in order. One `EOL` has been emitted per `;` so far, and one `Word` or `Number` per space or `;` so far. A rejection has the error shape. |
| Tokenizer.ScanAlnumSound | src/assembler.rs:92-116 | A letter or digit keeps the scan invariant and is never rejected. |
| Tokenizer.StartAlnumSound | src/assembler.rs:92-116 | A letter or digit between lexemes keeps the scan invariant and is never rejected. It starts a number on `0x`, starts a word otherwise, or panics when a `0` is the last character. |
| Tokenizer.ScanCharSound | src/assembler.rs:42-135 | Every single step keeps the scan invariant or fails with an error of the stated shape. |
| Tokenizer.ScanFromSound | src/assembler.rs:42-137 | From any sound scanner state, a successful scan ends with tokens that are whole lexemes in order, one `EOL` per `;`, one `Word` or `Number` per space or `;`, and no offending index. An offending index is an illegal character, or a space or `;` right after a `0x` that begins a lexeme. A failure reports the first offending index. |
| Tokenizer.ScanSound | src/assembler.rs:27-138 | On success, every token is a whole lexeme at its offset: a `Word` begins the text or follows a space or `;`, does not begin with `0x`, and is the maximal run of letters and digits there. A `Number` sits on a `0x` that begins a lexeme. Tokens are in order, with one `EOL` per `;`, one `Word` or `Number` per space or `;`, and no offending index. On failure, the error names the first offending index. |
| Tokenizer.ScanTokensAnchored | src/assembler.rs:46-116 | Each token is where it says it is. A `Word` begins the text or follows a space or `;`, does not begin with `0x`, and its text is the maximal run of letters and digits at its offset. A `Number`'s offset is a `0x` that begins the text or follows a space or `;`, and its value is the hex value of the digits. Both are followed by the space or `;` that closed them. An `EOL`'s offset holds `;`. |
| Tokenizer.ScanInSourceOrder | src/assembler.rs:42-135 | Token offsets never decrease along the output. |
| Tokenizer.ScanOneEolPerSemicolon | src/assembler.rs:68-91 | The offsets of the `EOL` tokens are exactly the indices of the `;` characters, in order. |
| Tokenizer.ScanOneTokenPerDelimiter | src/assembler.rs:46-91 | The closing indices of the `Word` and `Number` tokens are exactly the indices of the spaces and `;` characters, in order. A lexeme is emitted only when a space or `;` closes it, and every space or `;` emits one. |
| Tokenizer.ScanTokenCount | src/assembler.rs:46-91 | A successful scan emits one token per space and two per `;`, and no others. |
| Tokenizer.ScanWithoutDelimiterIsEmpty | src/assembler.rs:42-137 | A text with no space or `;` scans to no tokens. Lexemes that nothing closes are dropped. |
| Tokenizer.ScanRejectsOffending | src/assembler.rs:46-131 | Text with an offending index is never accepted. That is any character other than a space, `;`, an ASCII letter or a digit, or a space or `;` right after a `0x` that begins a lexeme. |
| Tokenizer.ScanCleanNeverErrs | src/assembler.rs:46-131 | Conversely, text without an offending index is never rejected with an error. It may still panic; `ScanOutcome` says where. |
| Tokenizer.LongLiteralExample | src/assembler.rs:53 | `00FF` converts to 255, leading zeros and all, and `100` does not convert. |
| Tokenizer.PanicIsNotOffending | src/assembler.rs:46-131 | No index both panics and is offending. |
| Tokenizer.DelimiterPanics | src/assembler.rs:46-78 | A space or `;` closing a pending lexeme panics exactly at a panic index: it closes a `0x` literal, begun at the start of its run of letters and digits, whose digits do not convert to a byte. |
| Tokenizer.AlnumPanics | src/assembler.rs:92-116 | A letter or digit panics exactly at a panic index: a `0` read between lexemes as the last character. Otherwise it passes no panic index, the skipped `x` of a prefix included. |
| Tokenizer.ScanCharPanics | src/assembler.rs:42-135 | One step panics exactly at a panic index, and a step that succeeds passes over no panic index. |
| Tokenizer.ScanFromPanics | src/assembler.rs:42-137 | From any sound state with no panic index behind it, the rest of the scan succeeds only with no panic index in the text, fails only at an index with no panic index before it, and panics only at a panic index with no offending or panic index before it. |
| Tokenizer.ScanOutcome | src/assembler.rs:27-138 | The scan succeeds exactly when the text has no offending and no panic index. It panics exactly when some panic index has no offending or panic index before it. An error names the first offending index, and no panic index lies before it. A panic index is a lexeme-initial `0` as the last character, or the space or `;` that closes a lexeme-initial `0x` literal whose digits do not convert to a byte. |
| Tokenizer.CloseEols | src/assembler.rs:46-90 | Emitting the closed lexeme, and then an `EOL` for a `;`, leaves every `EOL` directly after a `Word` or `Number` closed at the `EOL`'s offset. |
| Tokenizer.ScanCharEols | src/assembler.rs:42-135 | One step keeps every `EOL` directly after the `Word` or `Number` that its `;` closed. |
| Tokenizer.ScanFromEols | src/assembler.rs:42-137 | The rest of the scan keeps every `EOL` directly after the `Word` or `Number` that its `;` closed. |
| Tokenizer.ScanEolFollowsLexeme | src/assembler.rs:68-90 | In a successful scan, every `EOL` has a token before it, and that token is the `Word` or `Number` its own `;` closed. This fixes the order of the two tokens a `;` emits at the same offset. |
| Tokenizer.ScanErrorShape | src/assembler.rs:46-131 | A tokenizer error names the first offending index: an illegal character, or a space or `;` right after a `0x` that begins the text or follows a space or `;`. No earlier index is offending. The pattern is the character itself, or `\n` for a line break. |
| Tokenizer.PrefixThenDelimiterFails | src/assembler.rs:93-99 | A space or `;` directly after `0x` is rejected at its own index, because the prefix clears both flags. |
| Tokenizer.ScanWordExample | src/assembler.rs:68-91 | `ADD;` scans to `Word(0, "ADD"), EOL(3)`. |
| Tokenizer.ScanNumberExample | src/assembler.rs:46-56 | `0xA ` scans to `Number(0, 10)`. |
| Tokenizer.ScanEmptyWordExample | src/assembler.rs:46-91 | ` ;` (a space, then `;`, with nothing pending) scans to `Word(0, ""), Word(1, ""), EOL(1)`. |
| Tokenizer.ScanRejectsNewline | src/assembler.rs:121-125 | A line break is rejected with pattern `\n`. |
| Tokenizer.ScanDropsUnterminated | src/assembler.rs:134-137 | `AB`, a word no space or `;` closes, scans to no tokens. |
| Tokenizer.ScanPanicsOnWideLiteral | src/assembler.rs:72-76 | `0x100;` panics on the `unwrap` of the byte conversion. |
| Tokenizer.ScanPanicsOnTrailingZero | src/assembler.rs:93 | `A 0`, where a `0` starts a lexeme as the last character, panics on the look-ahead for `x`. |
| Parser.MatchDw | src/assembler.rs:167-207 | A matched `DW name number ;` consumes its tokens and emits one byte. |
| Parser.MatchPush | src/assembler.rs:249-290 | A matched `PUSH` consumes its tokens and emits two bytes. |
| Parser.MatchJump | src/assembler.rs:370-477 | A matched `JP [cond]` consumes its tokens and emits two bytes. |
| Parser.MatchStatement | src/assembler.rs:162-491 | A matched statement moves strictly forward within the token vector and emits one or two bytes. |
| Parser.Apply | src/assembler.rs:170-195 | Appending a statement's bytes and binding its label keeps every label pointing inside the emitted bytes. |
| Parser.AssembleFrom | src/assembler.rs:162-493 | Assembling from any point only appends to the bytes emitted so far, and never yields more than 255 bytes. |
| Parser.AssembleStatement | src/assembler.rs:162-491 | One loop iteration and the rest of the pass only append bytes, and never yield more than 255. |
| Parser.Assembled | src/assembler.rs:156-493 | The output of the pass is at most 255 bytes. |
| Parser.Parse | src/assembler.rs:156-493 | The loop with its byte vector, name table and `u8` counter returns exactly `Assembled(tokens)`, at most 255 bytes. Its loop invariants: `instruction` equals the number of bytes emitted, and every bound label addresses a byte already emitted. |
| Parser.Print | src/assembler.rs:164-477 | Every statement is spelled by two to four tokens ending in `EOL`. |
| Parser.LowerMnemonic | src/assembler.rs:166 | Lowercasing a printed mnemonic gives the lowercase keyword `parse` matches. |
| Parser.LowerCondition | src/assembler.rs:371-454 | Lowercasing a printed jump condition gives the condition code 1 to 6. |
| Parser.MatchPrinted | src/assembler.rs:164-477 | Tokens that spell one statement, with any offsets and any letter case in the mnemonic and jump condition, are matched to exactly the reference encoding, the token count and the label binding. A push of an unbound label is not matched. |
| Parser.MatchDwPrinted | src/assembler.rs:167-207 | A spelled `DW value;` or `DW name value;` is matched into its one byte, binding the exact name. |
| Parser.MatchJumpPrinted | src/assembler.rs:370-477 | A spelled `JP;` or `JP cond;`, with the condition in any letter case, is matched into 0x0A and the condition's code. |
| Parser.AssemblePrinted | src/assembler.rs:162-493 | From any statement boundary, parsing any spelling of a program agrees with `Emit` from the same assembly state: both succeed with the same bytes, or both fail. |
| Parser.AssembledSpelled | src/assembler.rs:156-493 | Parsing any token vector that spells a program succeeds exactly when `Emit` succeeds, and then yields the same bytes. Offsets and the case of mnemonics and conditions do not matter. |
| Parser.PrintAllPrinted | src/assembler.rs:162-165 | The printed tokens of a program spell its statements one after another. |
| Parser.AssembledPrinted | src/assembler.rs:156-493 | Parsing a printed program succeeds exactly when the reference `Emit` succeeds, and then yields the same bytes. This covers the single bytes 0x00, 0x01, 0x02 and 0x04-0x09, `PUSH` as 0x03 plus an operand, `JP` as 0x0A, 0x00, and `JP cond` as 0x0A plus codes 1-6. |
| Parser.UnboundPushStops | src/assembler.rs:249-263 | The reference encoding fails when a pushed label is bound by no earlier `DW`. |
| Parser.ForwardReferenceFails | src/assembler.rs:249-263 | A program that pushes a label before any `DW` binds it does not assemble. |
| Parser.NonWordStatementFails | src/assembler.rs:486-491 | A statement that starts with a number or `EOL` fails with that token, and the expected token is the `PUSH, POP, ADD` word. |
| Parser.UnknownMnemonicFails | src/assembler.rs:479-484 | A word that is not a mnemonic, ignoring case, fails with that token, and the expected token is `EOL`. |
| Parser.MnemonicCaseInsensitive | src/assembler.rs:166 | Replacing a mnemonic with any word of the same lowercase form changes neither success nor result. |
| Parser.ConditionCaseInsensitive | src/assembler.rs:371 | The same holds for a jump condition. |
| Parser.PushLabelExact | src/assembler.rs:249-263 | `PUSH name ;` succeeds exactly when the exact, case-sensitive name is in the table, and then emits 0x03 and the bound address. |
| Parser.DwBindsOwnAddress | src/assembler.rs:167-175 | `DW name number ;` binds the exact name to the index of its own byte, and that byte is the number. |
| Parser.ConditionOfName | src/assembler.rs:371-454 | Each name the parser accepts as a condition is the lowercase spelling of a condition whose encoding is the code the parser emits for it. |
| Parser.DwMatched | src/assembler.rs:167-207 | An accepted `DW` statement spells some statement, up to case and offsets, and emits that statement's encoding. |
| Parser.PushMatched | src/assembler.rs:249-290 | An accepted `PUSH` statement spells some statement, up to case and offsets, and emits that statement's encoding. |
| Parser.JumpMatched | src/assembler.rs:370-477 | An accepted `JP` statement spells some statement, up to case and offsets, and emits that statement's encoding. |
| Parser.SimpleMatchValue | src/assembler.rs:208-369 | An accepted mnemonic without operand is followed by `EOL` and emits its single byte. |
| Parser.SimpleMatched | src/assembler.rs:208-369 | An accepted statement without operand is its mnemonic followed by `EOL`, with its single byte. |
| Parser.MatchedIsPrinted | src/assembler.rs:164-491 | Any accepted statement spells some statement `s` up to case and offsets. It ends where `Print(s)` ends, emits exactly `Encode(s)` and binds exactly `s`'s label. |
| Parser.AssembleFromIsPrinted | src/assembler.rs:162-493 | From any statement boundary, a successful pass has read, up to case and offsets, the printed form of a program whose `Emit` gives the same bytes. |
| Parser.AssembledIsPrinted | src/assembler.rs:156-493 | The converse of `AssembledSpelled`: whatever `parse` accepts spells some program, and its bytes are that program's reference encoding. |
| Parser.AssembledIffSpelled | src/assembler.rs:156-493 | `parse` succeeds exactly on the token vectors that spell a program whose reference encoding succeeds, and then returns that encoding's bytes for every program the tokens spell. |
| Parser.LabelProgramExample | src/assembler.rs:167-380 | `DW x 0x05; PUSH x; JP GT;` assembles to 05 03 00 0A 01. |
| Cpu.Initial | src/lib.rs:13-20 | A fresh machine is well formed. |
| Cpu.InitialState | src/lib.rs:13-20 | A fresh machine has all-zero memory, `pc = 0`, `sp = 255` and is running. |
| Cpu.Written | src/lib.rs:32-34 | Writing keeps a 256-cell memory. |
| Cpu.Pushed | src/lib.rs:36-40 | A push keeps a 256-cell memory (its effect is stated by `PushWritesOnlyTop`). |
| Cpu.Popped | src/lib.rs:42-46 | A pop keeps a 256-cell memory (its effect is stated by `PopAfterPush`). |
| Cpu.PushImmediate | src/lib.rs:61-65 | A push-immediate that does not fault keeps a 256-cell memory. |
| Cpu.AddTop | src/lib.rs:69-74 | An addition that does not fault keeps a 256-cell memory. |
| Cpu.Perform | src/lib.rs:57-76 | The decoded instruction, if it does not fault, clears `running` exactly for opcode 0x00 and moves `pc` only for opcode 0x01 (by one). |
| Cpu.Execute | src/lib.rs:54-79 | A step that does not fault keeps a 256-cell memory. It clears `running` exactly on opcode 0x00, and advances `pc` by 2 after opcode 0x01 and by 1 otherwise. |
| Cpu.StepOnce | src/lib.rs:48-52 | A step that does not fault keeps a 256-cell memory. |
| Cpu.RunFor | src/lib.rs:22-26 | A bounded run that does not fault keeps a 256-cell memory. |
| Cpu.Emulator.constructor | src/lib.rs:13-20 | Builds a valid emulator in the initial state with fresh memory. |
| Cpu.Emulator.Read | src/lib.rs:28-30 | Returns the memory cell at the position. |
| Cpu.Emulator.Write | src/lib.rs:32-34 | Changes only the one memory cell. |
| Cpu.Emulator.Push | src/lib.rs:36-40 | Writes the byte at `memory[sp]` and decrements `sp`. |
| Cpu.Emulator.Pop | src/lib.rs:42-46 | Increments `sp` and returns `memory[sp]`. |
| Cpu.PushWritesOnlyTop | src/lib.rs:36-40 | A push writes `memory[sp]`, decrements `sp`, and leaves every other cell, `pc` and `running` unchanged. |
| Cpu.PopAfterPush | src/lib.rs:36-46 | A pop right after a push of `d` returns `d` and restores `sp`. |
| Cpu.Emulator.Next | src/lib.rs:54-79 | Executes one instruction exactly as `Execute` does, and fails exactly when `Execute` does. |
| Cpu.ExecuteHalt | src/lib.rs:58-78 | Opcode 0x00 clears `running` and still advances `pc` by 1. |
| Cpu.ExecutePush | src/lib.rs:61-78 | Opcode 0x01 pushes the byte at `pc + 1` and advances `pc` by 2. It faults only when `pc` or `sp` would overflow. |
| Cpu.ExecutePop | src/lib.rs:66-78 | Opcode 0x02 discards the top byte (`sp + 1`) and advances `pc`. |
| Cpu.ExecuteAdd | src/lib.rs:69-78 | Opcode 0x03 replaces the top two bytes with their sum, a net `sp` increase of 1. It faults when the sum exceeds 255 or a register would overflow. |
| Cpu.ExecuteOther | src/lib.rs:75-78 | Any other opcode only advances `pc`. |
| Cpu.Emulator.Step | src/lib.rs:48-52 | Executes one instruction only while running, exactly as `StepOnce`. |
| Cpu.StepHaltedIsNoop | src/lib.rs:48-52 | A step on a halted machine changes nothing. |
| Cpu.Emulator.Run | src/lib.rs:22-26 | Steps while running, within the given fuel, exactly as `RunFor`. |
| Cpu.RunForHalted | src/lib.rs:22-26 | Running a halted machine changes nothing. |
| Cpu.RunForCompose | src/lib.rs:22-26 | Running for `a + b` steps is running for `a` and then for `b`. |
| Cpu.RunForEnoughFuel | src/lib.rs:22-26 | Once a run has halted, more fuel changes nothing. |
| Cpu.AddProgram | tests/xd.rs:15-21 | The test program's machine is well formed. |
| Cpu.RunAddProgram | tests/xd.rs:15-26 | Bytes 01 01 01 01 03 on a fresh machine halt within four steps with 2 at `memory[sp + 1]`. |

## Left out

- `src/main.rs` is not part of this model. It is a demonstration that prints memory, and it calls an `Emulator::load` that `src/lib.rs` does not define.
- The `Display` implementations of `TokenizerError` and `ParserError` are left out. They only format text.
- The tests `it_parses` and `it_assembles` and the file output of `dump_stack` in `tests/xd.rs` are left out. `it_parses` passes a string to `parse`, which takes a token vector. `it_assembles` calls an `assemble` function the library does not have.
- `ParserError` borrows its token in Rust. Here it holds a copy of the token.
- Parser.MatchStatement: `to_lowercase` is modelled as ASCII lowercasing. The one non-ASCII character Rust lowercases into ASCII is the Kelvin sign, which becomes `k`. No mnemonic or condition contains `k`, so matching is unaffected.
- Parser.MatchDw: `parse` does not always report the offending token. When the token after `DW name value` is not `EOL`, it reports the value token `tokens[i + 2]`. When the token after `DW name` is not a number, it reports the name `tokens[i + 1]`. The model reproduces both tokens, and the lemmas state only that the statement fails.
- Parser.MatchPush: for a label missing from the name table, `parse` reports `tokens[i + 5]` relative to the statement start, because `i` has already moved by 3. The model reproduces that token, and a panic when the index is out of range. The lemmas state only that the statement fails.
- Parser.Parse: `instruction` is a `u8`. Going past 255 bytes is modelled as a panic (debug build). A release build would wrap around instead.
- Tokenizer.Tokenize: `from_str_radix` and `chars[i + 1]` failures are modelled as a `Panic` outcome rather than as an unwinding panic.
- Cpu.Emulator.Next: the state after a fault (`ok == false`) is left unspecified. Rust panics there and unwinds. The model does not describe the state that a caught panic would leave behind.
- Cpu.Emulator.Read: requires `pos < 256`. `read` is public and takes any `usize`, and it panics on an index of 256 or more. That panic is excluded rather than modelled.
- Cpu.Emulator.Write: requires `pos < 256`, like `Read`. The out-of-range panic of the public `write` is excluded rather than modelled.
- Cpu.Emulator.Run: `run` loops for as long as the machine is running and may never return. The model takes a fuel bound, and says nothing about runs longer than the fuel.
- The model does not prove that assembled programs run correctly on the emulator. The assembler's opcode numbering (`PUSH` is 0x03) differs from the emulator's (0x01 is push, 0x03 is add).
- `Print` writes 0 for every token offset. By `AssembledIffSpelled`, whether `parse` succeeds and the bytes it returns do not depend on token offsets. The offsets inside a `ParserError` do.
