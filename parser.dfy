/**
 * `parse` of `src/assembler.rs`: one left-to-right pass over the tokens that
 * matches each statement against a fixed grammar, appends its bytes to `mem`,
 * binds `DW` labels in a name table and counts the bytes in the `u8` variable
 * `instruction`.
 *
 * `MatchStatement` is the source's `match` on the tokens at `i`, branch by
 * branch; `Parse` is its `while` loop. An index past the end of the tokens
 * and an overflow of `instruction` are panics in the source and `Panic` here.
 *
 * `Statement`, `Encode` and `Emit` are an independent statement of the
 * instruction encoding; `AssembledIffSpelled` proves that parsing succeeds
 * exactly on the tokens that spell a program `Emit` encodes, whatever their
 * offsets, and then gives exactly the bytes that `Emit` lists.
 */
module Parser {
  import opened Common
  import opened Tokenizer

  /** `ParserError`: the offending token, and a token standing for what was expected. */
  datatype ParserError = ParserError(token: Token, expected: Token)

  // ---------------------------------------------------------------------
  // Mnemonics

  function LowerChar(c: char): char {
    if 'A' <= c <= 'Z' then (c as int - 'A' as int + 'a' as int) as char else c
  }

  /** `to_lowercase`, on the letters a token can hold. */
  function Lower(s: string): string {
    seq(|s|, k requires 0 <= k < |s| => LowerChar(s[k]))
  }

  /** The mnemonics without an operand, and their bytes. */
  function SimpleOpcode(mnemonic: string): Option<Byte> {
    if mnemonic == "halt" then Some(0x00)
    else if mnemonic == "load" then Some(0x01)
    else if mnemonic == "store" then Some(0x02)
    else if mnemonic == "pop" then Some(0x04)
    else if mnemonic == "add" then Some(0x05)
    else if mnemonic == "sub" then Some(0x06)
    else if mnemonic == "and" then Some(0x07)
    else if mnemonic == "or" then Some(0x08)
    else if mnemonic == "xor" then Some(0x09)
    else None
  }

  /** The conditions a `JP` may name, and the byte that follows `0x0A` for each. */
  function ConditionCode(condition: string): Option<Byte> {
    if condition == "gt" then Some(0x01)
    else if condition == "lt" then Some(0x02)
    else if condition == "geq" then Some(0x03)
    else if condition == "leq" then Some(0x04)
    else if condition == "eq" then Some(0x05)
    else if condition == "neq" then Some(0x06)
    else None
  }

  const PushOpcode: Byte := 0x03
  const JumpOpcode: Byte := 0x0A

  // ---------------------------------------------------------------------
  // One statement

  /** What a statement contributes: where the next one starts, its bytes, and the label it binds. */
  datatype Emission = Emission(next: nat, bytes: seq<Byte>, binding: Option<string>)

  /**
   * The tail shared by most branches: `tokens[k]` must be an `EOL`, and
   * anything else is reported as the offending token.
   */
  function EolAt(tokens: seq<Token>, k: nat, e: Emission): (r: Outcome<Emission, ParserError>)
    ensures r.Ok? ==> r == Ok(e)
  {
    if k >= |tokens| then Panic
    else if tokens[k].EOL? then Ok(e)
    else Err(ParserError(tokens[k], EOL(0)))
  }

  /** `DW value;` and `DW name value;`. */
  function MatchDw(tokens: seq<Token>, i: nat): (r: Outcome<Emission, ParserError>)
    requires i < |tokens|
    ensures r.Ok? ==> i < r.value.next <= |tokens| && |r.value.bytes| == 1
  {
    if i + 1 >= |tokens| then Panic
    else
      match tokens[i + 1]
      case Word(_, name) =>
        if i + 2 >= |tokens| then Panic
        else (
          match tokens[i + 2]
          case Number(_, value) =>
            if i + 3 >= |tokens| then Panic
            else if tokens[i + 3].EOL? then Ok(Emission(i + 4, [value], Some(name)))
            else Err(ParserError(tokens[i + 2], EOL(0)))
          case _ => Err(ParserError(tokens[i + 1], Number(0, 0))))
      case Number(_, value) => EolAt(tokens, i + 2, Emission(i + 3, [value], None))
      case EOL(_) => Err(ParserError(tokens[i + 1], Number(0, 0)))
  }

  /**
   * `PUSH value;` and `PUSH name;`. For a name that is not bound, the source
   * has already moved `i` past the statement when it reads the token to
   * report, so it reports the token five places after `PUSH`, or panics
   * when there is none.
   */
  function MatchPush(tokens: seq<Token>, i: nat, labels: map<string, Byte>): (r: Outcome<Emission, ParserError>)
    requires i < |tokens|
    ensures r.Ok? ==> i < r.value.next <= |tokens| && |r.value.bytes| == 2
  {
    if i + 1 >= |tokens| then Panic
    else
      match tokens[i + 1]
      case Word(_, name) =>
        if i + 2 >= |tokens| then Panic
        else if !tokens[i + 2].EOL? then Err(ParserError(tokens[i + 2], EOL(0)))
        else if name in labels then Ok(Emission(i + 3, [PushOpcode, labels[name]], None))
        else if i + 5 < |tokens| then Err(ParserError(tokens[i + 5], Word(0, "unknown label")))
        else Panic
      case Number(_, value) => EolAt(tokens, i + 2, Emission(i + 3, [PushOpcode, value], None))
      case EOL(_) => Err(ParserError(tokens[i + 1], Number(0, 0)))
  }

  /** `JP;` and `JP condition;`. */
  function MatchJump(tokens: seq<Token>, i: nat): (r: Outcome<Emission, ParserError>)
    requires i < |tokens|
    ensures r.Ok? ==> i < r.value.next <= |tokens| && |r.value.bytes| == 2
  {
    if i + 1 >= |tokens| then Panic
    else
      match tokens[i + 1]
      case Word(_, condition) =>
        (match ConditionCode(Lower(condition))
         case Some(code) => EolAt(tokens, i + 2, Emission(i + 3, [JumpOpcode, code], None))
         case None => Err(ParserError(tokens[i + 1], Word(0, "EOL or gt, lt, geq, leq, eq, neq"))))
      case EOL(_) => Ok(Emission(i + 2, [JumpOpcode, 0x00], None))
      case Number(_, _) => Err(ParserError(tokens[i + 1], Number(0, 0)))
  }

  /** The body of the parsing loop: the statement that starts at `tokens[i]`. */
  function MatchStatement(tokens: seq<Token>, i: nat, labels: map<string, Byte>): (r: Outcome<Emission, ParserError>)
    requires i < |tokens|
    ensures r.Ok? ==> i < r.value.next <= |tokens| && 1 <= |r.value.bytes| <= 2
  {
    match tokens[i]
    case Word(_, word) =>
      var mnemonic := Lower(word);
      if mnemonic == "dw" then MatchDw(tokens, i)
      else if mnemonic == "push" then MatchPush(tokens, i, labels)
      else if mnemonic == "jp" then MatchJump(tokens, i)
      else if SimpleOpcode(mnemonic).Some? then
        EolAt(tokens, i + 1, Emission(i + 2, [SimpleOpcode(mnemonic).value], None))
      else Err(ParserError(tokens[i], EOL(0)))
    case _ => Err(ParserError(tokens[i], Word(0, "PUSH, POP, ADD")))
  }

  // ---------------------------------------------------------------------
  // The whole pass

  /** The bytes emitted so far and the name table. */
  datatype Assembly = Assembly(mem: seq<Byte>, labels: map<string, Byte>)

  const Empty := Assembly([], map[])

  /** Every label names an address inside the bytes emitted so far, which fit a `u8` counter. */
  predicate Consistent(st: Assembly) {
    |st.mem| <= 255 && forall name :: name in st.labels ==> st.labels[name] as int < |st.mem|
  }

  /** Append a statement's bytes; a `DW` label is bound to the address of its byte. */
  function Apply(st: Assembly, e: Emission): (r: Assembly)
    requires |st.mem| + |e.bytes| <= 255
    ensures Consistent(st) && (e.binding.Some? ==> e.bytes != []) ==> Consistent(r)
  {
    var labels := if e.binding.Some? then st.labels[e.binding.value := |st.mem| as Byte] else st.labels;
    Assembly(st.mem + e.bytes, labels)
  }

  /** The rest of the pass from position `i`: the loop test. */
  function AssembleFrom(tokens: seq<Token>, i: nat, st: Assembly): (r: Outcome<seq<Byte>, ParserError>)
    requires i <= |tokens| && |st.mem| <= 255
    ensures r.Ok? ==> st.mem <= r.value && |r.value| <= 255
    decreases |tokens| - i, 1
  {
    if i == |tokens| then Ok(st.mem) else AssembleStatement(tokens, i, st)
  }

  /** The loop body: match the statement at `i`; growing `instruction` past 255 panics. */
  function AssembleStatement(tokens: seq<Token>, i: nat, st: Assembly): (r: Outcome<seq<Byte>, ParserError>)
    requires i < |tokens| && |st.mem| <= 255
    ensures r.Ok? ==> st.mem <= r.value && |r.value| <= 255
    decreases |tokens| - i, 0
  {
    match MatchStatement(tokens, i, st.labels)
    case Err(e) => Err(e)
    case Panic => Panic
    case Ok(e) =>
      if |st.mem| + |e.bytes| > 255 then Panic
      else AssembleFrom(tokens, e.next, Apply(st, e))
  }

  /** What `parse(tokens)` returns. */
  function Assembled(tokens: seq<Token>): (r: Outcome<seq<Byte>, ParserError>)
    ensures r.Ok? ==> |r.value| <= 255
  {
    AssembleFrom(tokens, 0, Empty)
  }

  method Parse(tokens: seq<Token>) returns (r: Outcome<seq<Byte>, ParserError>)
    ensures r == Assembled(tokens)
    ensures r.Ok? ==> |r.value| <= 255
  {
    var i := 0;
    var mem: seq<Byte> := [];
    var nameTable: map<string, Byte> := map[];
    var instruction: Byte := 0;
    // Each branch of the source adds to `instruction` the number of bytes it
    // pushes (one for `DW` and the statements without operand, two for `PUSH`
    // and `JP`); here both grow by `|e.bytes|`, so the counter is the length.
    while i < |tokens|
      invariant i <= |tokens|
      invariant instruction as int == |mem|
      invariant Consistent(Assembly(mem, nameTable))
      invariant AssembleFrom(tokens, i, Assembly(mem, nameTable)) == Assembled(tokens)
      decreases |tokens| - i
    {
      match MatchStatement(tokens, i, nameTable)
      case Err(e) =>
        return Err(e);
      case Panic =>
        return Panic;
      case Ok(e) =>
        if e.binding.Some? {
          nameTable := nameTable[e.binding.value := instruction];
        }
        if instruction as int + |e.bytes| > 255 {
          return Panic;  // `instruction += n` overflows the `u8`
        }
        instruction := instruction + |e.bytes| as Byte;
        mem := mem + e.bytes;
        i := e.next;
    }
    return Ok(mem);
  }

  // ---------------------------------------------------------------------
  // A reference definition of the encoding

  datatype Condition = Gt | Lt | Geq | Leq | Eq | Neq

  datatype Statement =
    | Dw(binding: Option<string>, value: Byte)
    | Halt | Load | Store | Pop | Add | Sub | And | Or | Xor
    | PushLiteral(value: Byte)
    | PushLabel(name: string)
    | Jump(condition: Option<Condition>)

  function ConditionByte(c: Condition): Byte {
    match c
    case Gt => 1
    case Lt => 2
    case Geq => 3
    case Leq => 4
    case Eq => 5
    case Neq => 6
  }

  /** The bytes of a statement; `None` for a push of a label that is not bound. */
  function Encode(s: Statement, labels: map<string, Byte>): Option<seq<Byte>> {
    match s
    case Dw(_, value) => Some([value])
    case Halt => Some([0x00])
    case Load => Some([0x01])
    case Store => Some([0x02])
    case Pop => Some([0x04])
    case Add => Some([0x05])
    case Sub => Some([0x06])
    case And => Some([0x07])
    case Or => Some([0x08])
    case Xor => Some([0x09])
    case PushLiteral(value) => Some([0x03, value])
    case PushLabel(name) => if name in labels then Some([0x03, labels[name]]) else None
    case Jump(None) => Some([0x0A, 0x00])
    case Jump(Some(c)) => Some([0x0A, ConditionByte(c)])
  }

  function Binds(s: Statement): Option<string> {
    if s.Dw? then s.binding else None
  }

  /** The bytes of a program, from state `st`; `None` where the pass cannot succeed. */
  function Emit(prog: seq<Statement>, st: Assembly): Option<Assembly>
    decreases |prog|
  {
    if prog == [] then Some(st)
    else
      match Encode(prog[0], st.labels)
      case None => None
      case Some(bytes) =>
        if |st.mem| + |bytes| > 255 then None
        else Emit(prog[1..], Apply(st, Emission(0, bytes, Binds(prog[0]))))
  }

  function ConditionName(c: Condition): string {
    match c
    case Gt => "GT"
    case Lt => "LT"
    case Geq => "GEQ"
    case Leq => "LEQ"
    case Eq => "EQ"
    case Neq => "NEQ"
  }

  function Mnemonic(s: Statement): string {
    match s
    case Dw(_, _) => "DW"
    case Halt => "HALT"
    case Load => "LOAD"
    case Store => "STORE"
    case Pop => "POP"
    case Add => "ADD"
    case Sub => "SUB"
    case And => "AND"
    case Or => "OR"
    case Xor => "XOR"
    case PushLiteral(_) => "PUSH"
    case PushLabel(_) => "PUSH"
    case Jump(_) => "JP"
  }

  /** The tokens of a statement as the scanner would emit them (offsets are not read by the pass). */
  function Print(s: Statement): (ts: seq<Token>)
    ensures 2 <= |ts| <= 4 && ts[|ts| - 1] == EOL(0)
  {
    var operands :=
      match s
      case Dw(None, value) => [Number(0, value)]
      case Dw(Some(name), value) => [Word(0, name), Number(0, value)]
      case PushLiteral(value) => [Number(0, value)]
      case PushLabel(name) => [Word(0, name)]
      case Jump(Some(c)) => [Word(0, ConditionName(c))]
      case _ => [];
    [Word(0, Mnemonic(s))] + operands + [EOL(0)]
  }

  function PrintAll(prog: seq<Statement>): seq<Token> {
    if prog == [] then [] else Print(prog[0]) + PrintAll(prog[1..])
  }

  // ---------------------------------------------------------------------
  // Properties

  /** The upper-case spellings that `Print` uses are recognised. */
  lemma LowerMnemonic(s: Statement)
    ensures Lower(Mnemonic(s)) == (match s
      case Dw(_, _) => "dw"
      case PushLiteral(_) => "push"
      case PushLabel(_) => "push"
      case Jump(_) => "jp"
      case Halt => "halt"
      case Load => "load"
      case Store => "store"
      case Pop => "pop"
      case Add => "add"
      case Sub => "sub"
      case And => "and"
      case Or => "or"
      case Xor => "xor")
  {
    var m := Mnemonic(s);
    assert forall k :: 0 <= k < |m| ==> 'A' <= m[k] <= 'Z';
  }

  /** `Lower` spelled out one character at a time. */
  lemma LowerOf(upper: string, lower: string)
    requires |upper| == |lower| && forall k :: 0 <= k < |upper| ==> LowerChar(upper[k]) == lower[k]
    ensures Lower(upper) == lower
  {
  }

  /** The upper-case condition names are recognised, each with its own code. */
  lemma LowerCondition(c: Condition)
    ensures ConditionCode(Lower(ConditionName(c))) == Some(ConditionByte(c))
  {
    match c
    case Gt => LowerOf("GT", "gt");
    case Lt => LowerOf("LT", "lt");
    case Geq => LowerOf("GEQ", "geq");
    case Leq => LowerOf("LEQ", "leq");
    case Eq => LowerOf("EQ", "eq");
    case Neq => LowerOf("NEQ", "neq");
  }

  // The round trip: the pass over spelled statements against `Emit`.
  //
  // A program is spelled by any tokens that match its printed form up to
  // offsets, and up to letter case in mnemonics and jump conditions;
  // `Print` and `PrintAll` give one such spelling.
  //
  // `Parses` and `Emits` name an equation with a recursive function in it.
  // The lemmas below pass those facts along under these names so that the
  // verifier does not unfold `AssembleFrom` or `Emit` on symbolic tokens
  // where it does not need to, which keeps each proof small.

  /** Two tokens agree up to their offsets, and up to letter case where `folded`. */
  predicate SameToken(a: Token, b: Token, folded: bool) {
    match a
    case Word(_, x) => b.Word? && (if folded then Lower(x) == Lower(b.text) else x == b.text)
    case Number(_, v) => b.Number? && v == b.value
    case EOL(_) => b.EOL?
  }

  /**
   * The tokens from `i` on spell statement `s`: its mnemonic and a jump
   * condition in any letter case, a label name exactly, a number by value.
   */
  predicate SpelledAt(tokens: seq<Token>, i: nat, s: Statement) {
    var p := Print(s);
    i + |p| <= |tokens| && forall k :: 0 <= k < |p| ==> SameToken(tokens[i + k], p[k], k == 0 || s.Jump?)
  }

  /** The tokens from `i` on spell the statements of `prog`, one after another, up to the end. */
  predicate SpelledFrom(tokens: seq<Token>, i: nat, prog: seq<Statement>)
    decreases |prog|
  {
    if prog == [] then i == |tokens|
    else SpelledAt(tokens, i, prog[0]) && SpelledFrom(tokens, i + |Print(prog[0])|, prog[1..])
  }

  /** The pass and the reference encoding agree: both succeed with the same bytes, or both fail. */
  predicate Agrees(r: Outcome<seq<Byte>, ParserError>, e: Option<Assembly>) {
    (r.Ok? <==> e.Some?) && (e.Some? ==> r.value == e.value.mem)
  }

  /** `r` is the outcome of the pass from statement boundary `i` in state `st`. */
  predicate Parses(tokens: seq<Token>, i: nat, st: Assembly, r: Outcome<seq<Byte>, ParserError>) {
    i <= |tokens| && |st.mem| <= 255 && r == AssembleFrom(tokens, i, st)
  }

  /** `e` is the result of `Emit` on `prog` from state `st`. */
  predicate Emits(prog: seq<Statement>, st: Assembly, e: Option<Assembly>) {
    e == Emit(prog, st)
  }

  /**
   * The statement spelled at `i` is matched into exactly the bytes `Encode`
   * lists, with the label it binds; a push of an unbound label is refused.
   */
  lemma MatchPrinted(tokens: seq<Token>, i: nat, s: Statement, labels: map<string, Byte>)
    requires SpelledAt(tokens, i, s)
    ensures Encode(s, labels).Some? ==>
      MatchStatement(tokens, i, labels) == Ok(Emission(i + |Print(s)|, Encode(s, labels).value, Binds(s)))
    ensures Encode(s, labels).None? ==> !MatchStatement(tokens, i, labels).Ok?
  {
    var p := Print(s);
    assert SameToken(tokens[i], p[0], true);
    assert SameToken(tokens[i + 1], p[1], s.Jump?);
    match s
    case Dw(_, _) =>
      MatchDwPrinted(tokens, i, s, labels);
    case PushLiteral(value) =>
      assert SameToken(tokens[i + 2], p[2], false);
      LowerOf("PUSH", "push");
    case PushLabel(name) =>
      assert SameToken(tokens[i + 2], p[2], false);
      LowerOf("PUSH", "push");
    case Jump(_) =>
      MatchJumpPrinted(tokens, i, s, labels);
    case _ =>
      MatchSimplePrinted(tokens, i, s, labels);
  }

  /** A spelled `DW` is matched into its one byte, with its label. */
  lemma MatchDwPrinted(tokens: seq<Token>, i: nat, s: Statement, labels: map<string, Byte>)
    requires s.Dw? && SpelledAt(tokens, i, s)
    ensures MatchStatement(tokens, i, labels) == Ok(Emission(i + |Print(s)|, Encode(s, labels).value, Binds(s)))
  {
    var p := Print(s);
    assert SameToken(tokens[i], p[0], true);
    assert SameToken(tokens[i + 1], p[1], false);
    assert SameToken(tokens[i + 2], p[2], false);
    LowerOf("DW", "dw");
    if s.binding.Some? {
      assert SameToken(tokens[i + 3], p[3], false);
    }
  }

  /** A spelled `JP` is matched into the jump opcode and its condition code. */
  lemma MatchJumpPrinted(tokens: seq<Token>, i: nat, s: Statement, labels: map<string, Byte>)
    requires s.Jump? && SpelledAt(tokens, i, s)
    ensures MatchStatement(tokens, i, labels) == Ok(Emission(i + |Print(s)|, Encode(s, labels).value, Binds(s)))
  {
    var p := Print(s);
    assert SameToken(tokens[i], p[0], true);
    assert SameToken(tokens[i + 1], p[1], true);
    LowerOf("JP", "jp");
    if s.condition.Some? {
      assert SameToken(tokens[i + 2], p[2], true);
      LowerCondition(s.condition.value);
    }
  }

  /** The statements without operand are matched into their single byte. */
  lemma MatchSimplePrinted(tokens: seq<Token>, i: nat, s: Statement, labels: map<string, Byte>)
    requires s.Halt? || s.Load? || s.Store? || s.Pop? || s.Add? || s.Sub? || s.And? || s.Or? || s.Xor?
    requires i + 1 < |tokens| && tokens[i].Word? && Lower(tokens[i].text) == Lower(Mnemonic(s)) && tokens[i + 1].EOL?
    ensures MatchStatement(tokens, i, labels) == Ok(Emission(i + 2, Encode(s, labels).value, None))
  {
    LowerMnemonic(s);
  }

  /** A spelled statement that `Encode` refuses, or whose bytes overflow the counter, stops the pass. */
  lemma PrintedStops(tokens: seq<Token>, i: nat, prog: seq<Statement>, st: Assembly, r: Outcome<seq<Byte>, ParserError>)
    requires prog != [] && SpelledFrom(tokens, i, prog) && Parses(tokens, i, st, r)
    requires Encode(prog[0], st.labels).Some? ==> |st.mem| + |Encode(prog[0], st.labels).value| > 255
    ensures !r.Ok?
  {
    MatchPrinted(tokens, i, prog[0], st.labels);
    assert r == AssembleStatement(tokens, i, st);
  }

  /** A spelled statement that `Encode` accepts is passed over with exactly its bytes. */
  lemma PrintedContinues(tokens: seq<Token>, i: nat, prog: seq<Statement>, st: Assembly, bytes: seq<Byte>,
                         r: Outcome<seq<Byte>, ParserError>)
    requires prog != [] && SpelledFrom(tokens, i, prog)
    requires Encode(prog[0], st.labels) == Some(bytes) && |st.mem| + |bytes| <= 255
    requires Parses(tokens, i, st, r)
    ensures SpelledFrom(tokens, i + |Print(prog[0])|, prog[1..])
    ensures Parses(tokens, i + |Print(prog[0])|, Apply(st, Emission(i + |Print(prog[0])|, bytes, Binds(prog[0]))), r)
  {
    MatchPrinted(tokens, i, prog[0], st.labels);
    assert r == AssembleStatement(tokens, i, st);
  }

  /** `Emit` past a statement that `Encode` accepts. */
  lemma EmitContinues(prog: seq<Statement>, st: Assembly, bytes: seq<Byte>, next: nat, e: Option<Assembly>)
    requires prog != [] && Emits(prog, st, e)
    requires Encode(prog[0], st.labels) == Some(bytes) && |st.mem| + |bytes| <= 255
    ensures Emits(prog[1..], Apply(st, Emission(next, bytes, Binds(prog[0]))), e)
  {
    assert Apply(st, Emission(next, bytes, Binds(prog[0]))) == Apply(st, Emission(0, bytes, Binds(prog[0])));
  }

  /** `Emit` stops at a statement that `Encode` refuses or whose bytes do not fit. */
  lemma EmitStops(prog: seq<Statement>, st: Assembly, e: Option<Assembly>)
    requires prog != [] && Emits(prog, st, e)
    requires Encode(prog[0], st.labels).Some? ==> |st.mem| + |Encode(prog[0], st.labels).value| > 255
    ensures e.None?
  {
  }

  /**
   * From any statement boundary, the pass over tokens that spell a program
   * (whose outcome is `r`) succeeds exactly when `Emit` (whose result is
   * `e`) does, and then with the same bytes.
   */
  lemma {:induction false} AssemblePrinted(tokens: seq<Token>, i: nat, prog: seq<Statement>, st: Assembly,
                                           r: Outcome<seq<Byte>, ParserError>, e: Option<Assembly>)
    requires SpelledFrom(tokens, i, prog) && Parses(tokens, i, st, r) && Emits(prog, st, e)
    ensures Agrees(r, e)
    decreases |prog|
  {
    if prog != [] {
      var encoded := Encode(prog[0], st.labels);
      if encoded.Some? && |st.mem| + |encoded.value| <= 255 {
        var n := |Print(prog[0])|;
        var next := Apply(st, Emission(i + n, encoded.value, Binds(prog[0])));
        PrintedContinues(tokens, i, prog, st, encoded.value, r);
        EmitContinues(prog, st, encoded.value, i + n, e);
        AssemblePrinted(tokens, i + n, prog[1..], next, r, e);
      } else {
        PrintedStops(tokens, i, prog, st, r);
        EmitStops(prog, st, e);
      }
    }
  }

  /**
   * `parse` of any tokens that spell a program, whatever their offsets and
   * the letter case of mnemonics and conditions, gives the bytes of the
   * program's reference encoding, and fails exactly when that does.
   */
  lemma AssembledSpelled(tokens: seq<Token>, prog: seq<Statement>)
    requires SpelledFrom(tokens, 0, prog)
    ensures Assembled(tokens).Ok? <==> Emit(prog, Empty).Some?
    ensures Emit(prog, Empty).Some? ==> Assembled(tokens).value == Emit(prog, Empty).value.mem
  {
    AssemblePrinted(tokens, 0, prog, Empty, Assembled(tokens), Emit(prog, Empty));
  }

  /** `PrintAll` spells the statements one after another. */
  lemma {:induction false} PrintAllPrinted(prog: seq<Statement>)
    ensures SpelledFrom(PrintAll(prog), 0, prog)
    decreases |prog|
  {
    if prog != [] {
      var p, rest := Print(prog[0]), PrintAll(prog[1..]);
      assert SpelledFrom(p + rest, 0, prog) by {
        PrintAllPrinted(prog[1..]);
        PrintSpelled(p, rest, prog[0]);
        SpelledShift(p, rest, 0, prog[1..]);
        SpelledFromCons(p + rest, 0, prog);
      }
      assert PrintAll(prog) == p + rest;
    }
  }

  /** The printed tokens of a statement, followed by anything, spell it. */
  lemma PrintSpelled(p: seq<Token>, rest: seq<Token>, s: Statement)
    requires p == Print(s)
    ensures SpelledAt(p + rest, 0, s)
  {
    forall k | 0 <= k < |p|
      ensures SameToken((p + rest)[k], p[k], k == 0 || s.Jump?)
    {
      assert (p + rest)[k] == p[k];
    }
  }

  /** Tokens that spell a program still spell it with anything put in front. */
  lemma {:induction false} SpelledShift(front: seq<Token>, tokens: seq<Token>, j: nat, prog: seq<Statement>)
    requires SpelledFrom(tokens, j, prog)
    ensures SpelledFrom(front + tokens, |front| + j, prog)
    decreases |prog|
  {
    if prog != [] {
      var p := Print(prog[0]);
      SpelledShift(front, tokens, j + |p|, prog[1..]);
      assert SpelledAt(front + tokens, |front| + j, prog[0]) by {
        forall k | 0 <= k < |p|
          ensures SameToken((front + tokens)[|front| + j + k], p[k], k == 0 || prog[0].Jump?)
        {
          assert (front + tokens)[|front| + j + k] == tokens[j + k];
        }
      }
      SpelledFromCons(front + tokens, |front| + j, prog);
    } else {
      assert |front + tokens| == |front| + |tokens|;
    }
  }

  /** `SpelledFrom` grows by one statement at the front. */
  lemma SpelledFromCons(tokens: seq<Token>, i: nat, prog: seq<Statement>)
    requires prog != [] && SpelledAt(tokens, i, prog[0]) && SpelledFrom(tokens, i + |Print(prog[0])|, prog[1..])
    ensures SpelledFrom(tokens, i, prog)
  {
  }

  /** `parse` of a printed program gives the bytes of its reference encoding, and fails exactly when that does. */
  lemma AssembledPrinted(prog: seq<Statement>)
    ensures Assembled(PrintAll(prog)).Ok? <==> Emit(prog, Empty).Some?
    ensures Emit(prog, Empty).Some? ==> Assembled(PrintAll(prog)).value == Emit(prog, Empty).value.mem
  {
    PrintAllPrinted(prog);
    AssembledSpelled(PrintAll(prog), prog);
  }

  /** No forward references: a push of a label that no earlier `DW` binds stops the encoding. */
  lemma {:induction false} UnboundPushStops(prog: seq<Statement>, st: Assembly, k: nat, name: string)
    requires k < |prog| && prog[k] == PushLabel(name) && name !in st.labels
    requires forall j :: 0 <= j < k ==> Binds(prog[j]) != Some(name)
    ensures Emit(prog, st).None?
    decreases k
  {
    if k > 0 {
      match Encode(prog[0], st.labels)
      case None =>
      case Some(bytes) =>
        if |st.mem| + |bytes| <= 255 {
          UnboundPushStops(prog[1..], Apply(st, Emission(0, bytes, Binds(prog[0]))), k - 1, name);
        }
    }
  }

  /** So `parse` rejects a program that pushes a label before the `DW` that binds it. */
  lemma ForwardReferenceFails(prog: seq<Statement>, k: nat, name: string)
    requires k < |prog| && prog[k] == PushLabel(name)
    requires forall j :: 0 <= j < k ==> Binds(prog[j]) != Some(name)
    ensures !Assembled(PrintAll(prog)).Ok?
  {
    UnboundPushStops(prog, Empty, k, name);
    AssembledPrinted(prog);
  }

  /** A statement that does not start with a word is refused, naming that token. */
  lemma NonWordStatementFails(tokens: seq<Token>, i: nat, st: Assembly)
    requires i < |tokens| && !tokens[i].Word? && |st.mem| <= 255
    ensures AssembleFrom(tokens, i, st) == Err(ParserError(tokens[i], Word(0, "PUSH, POP, ADD")))
  {
  }

  /** A word that is no mnemonic in any case is refused, naming that token. */
  lemma UnknownMnemonicFails(tokens: seq<Token>, i: nat, st: Assembly)
    requires i < |tokens| && tokens[i].Word? && |st.mem| <= 255
    requires Lower(tokens[i].text) !in {"dw", "push", "jp", "halt", "load", "store", "pop", "add", "sub", "and", "or", "xor"}
    ensures AssembleFrom(tokens, i, st) == Err(ParserError(tokens[i], EOL(0)))
  {
  }

  /** Mnemonics are matched whatever their case. */
  lemma MnemonicCaseInsensitive(tokens: seq<Token>, i: nat, labels: map<string, Byte>, offset: nat, word: string)
    requires i < |tokens| && tokens[i].Word? && Lower(word) == Lower(tokens[i].text)
    ensures MatchStatement(tokens[i := Word(offset, word)], i, labels).Ok? <==> MatchStatement(tokens, i, labels).Ok?
    ensures MatchStatement(tokens, i, labels).Ok? ==>
      MatchStatement(tokens[i := Word(offset, word)], i, labels) == MatchStatement(tokens, i, labels)
  {
  }

  /** Jump conditions are matched whatever their case. */
  lemma ConditionCaseInsensitive(tokens: seq<Token>, i: nat, labels: map<string, Byte>, offset: nat, word: string)
    requires i + 1 < |tokens| && tokens[i].Word? && Lower(tokens[i].text) == "jp"
    requires tokens[i + 1].Word? && Lower(word) == Lower(tokens[i + 1].text)
    ensures MatchStatement(tokens[i + 1 := Word(offset, word)], i, labels).Ok? <==> MatchStatement(tokens, i, labels).Ok?
    ensures MatchStatement(tokens, i, labels).Ok? ==>
      MatchStatement(tokens[i + 1 := Word(offset, word)], i, labels) == MatchStatement(tokens, i, labels)
  {
  }

  /** Label names are looked up exactly: `PUSH name;` succeeds iff that very string is bound, and pushes its address. */
  lemma PushLabelExact(tokens: seq<Token>, i: nat, labels: map<string, Byte>)
    requires i + 2 < |tokens| && tokens[i].Word? && Lower(tokens[i].text) == "push"
    requires tokens[i + 1].Word? && tokens[i + 2].EOL?
    ensures MatchStatement(tokens, i, labels).Ok? <==> tokens[i + 1].text in labels
    ensures MatchStatement(tokens, i, labels).Ok? ==>
      MatchStatement(tokens, i, labels).value == Emission(i + 3, [PushOpcode, labels[tokens[i + 1].text]], None)
  {
  }

  /**
   * Only `DW name value;` binds a label, and it binds it to the address of
   * its own byte: after the statement, the name table maps `name` to the
   * index at which `value` was appended.
   */
  lemma DwBindsOwnAddress(tokens: seq<Token>, i: nat, st: Assembly)
    requires i < |tokens| && |st.mem| < 255
    requires MatchStatement(tokens, i, st.labels).Ok? && MatchStatement(tokens, i, st.labels).value.binding.Some?
    ensures var e := MatchStatement(tokens, i, st.labels).value;
      var r := Apply(st, e);
      i + 3 < |tokens| && tokens[i].Word? && Lower(tokens[i].text) == "dw"
      && tokens[i + 1] == Word(tokens[i + 1].offset, e.binding.value)
      && tokens[i + 2].Number? && e.bytes == [tokens[i + 2].value]
      && r.labels[e.binding.value] as int == |st.mem| && r.mem[|st.mem|] == tokens[i + 2].value
  {
  }

  // The converse: whatever the pass accepts spells a program that `Emit` encodes to the same bytes.

  /** The statement the pass matched as `e` is `s`: spelled at `i`, ending where `e` ends, with `s`'s bytes and label. */
  predicate Recognizes(tokens: seq<Token>, i: nat, labels: map<string, Byte>, e: Emission, s: Statement) {
    SpelledAt(tokens, i, s) && e.next == i + |Print(s)| && Encode(s, labels) == Some(e.bytes) && e.binding == Binds(s)
  }

  /** The condition a lower-case condition name stands for. */
  function ConditionOf(name: string): Condition {
    if name == "gt" then Gt
    else if name == "lt" then Lt
    else if name == "geq" then Geq
    else if name == "leq" then Leq
    else if name == "eq" then Eq
    else Neq
  }

  lemma ConditionOfName(name: string)
    requires ConditionCode(name).Some?
    ensures Lower(ConditionName(ConditionOf(name))) == name
    ensures ConditionByte(ConditionOf(name)) == ConditionCode(name).value
  {
    match ConditionOf(name)
    case Gt => LowerOf("GT", "gt");
    case Lt => LowerOf("LT", "lt");
    case Geq => LowerOf("GEQ", "geq");
    case Leq => LowerOf("LEQ", "leq");
    case Eq => LowerOf("EQ", "eq");
    case Neq => LowerOf("NEQ", "neq");
  }

  /** An accepted `DW` is a printed `Dw` statement. */
  lemma DwMatched(tokens: seq<Token>, i: nat, labels: map<string, Byte>)
    requires i < |tokens| && tokens[i].Word? && Lower(tokens[i].text) == "dw"
    requires MatchStatement(tokens, i, labels).Ok?
    ensures exists s :: Recognizes(tokens, i, labels, MatchStatement(tokens, i, labels).value, s)
  {
    var e := MatchStatement(tokens, i, labels).value;
    assert e == MatchDw(tokens, i).value;
    LowerOf("DW", "dw");
    match tokens[i + 1]
    case Word(_, name) =>
      var s := Dw(Some(name), tokens[i + 2].value);
      assert Recognizes(tokens, i, labels, e, s);
    case Number(_, value) =>
      var s := Dw(None, value);
      assert Recognizes(tokens, i, labels, e, s);
  }

  /** An accepted `PUSH` is a printed push of a literal or of a bound label. */
  lemma PushMatched(tokens: seq<Token>, i: nat, labels: map<string, Byte>)
    requires i < |tokens| && tokens[i].Word? && Lower(tokens[i].text) == "push"
    requires MatchStatement(tokens, i, labels).Ok?
    ensures exists s :: Recognizes(tokens, i, labels, MatchStatement(tokens, i, labels).value, s)
  {
    var e := MatchStatement(tokens, i, labels).value;
    assert e == MatchPush(tokens, i, labels).value;
    LowerOf("PUSH", "push");
    match tokens[i + 1]
    case Word(_, name) =>
      var s := PushLabel(name);
      assert Recognizes(tokens, i, labels, e, s);
    case Number(_, value) =>
      var s := PushLiteral(value);
      assert Recognizes(tokens, i, labels, e, s);
  }

  /** An accepted `JP` is a printed jump, with the condition it names. */
  lemma JumpMatched(tokens: seq<Token>, i: nat, labels: map<string, Byte>)
    requires i < |tokens| && tokens[i].Word? && Lower(tokens[i].text) == "jp"
    requires MatchStatement(tokens, i, labels).Ok?
    ensures exists s :: Recognizes(tokens, i, labels, MatchStatement(tokens, i, labels).value, s)
  {
    var e := MatchStatement(tokens, i, labels).value;
    assert e == MatchJump(tokens, i).value;
    LowerOf("JP", "jp");
    match tokens[i + 1]
    case EOL(_) =>
      var s := Jump(None);
      assert Recognizes(tokens, i, labels, e, s);
    case Word(_, name) =>
      ConditionOfName(Lower(name));
      var c := ConditionOf(Lower(name));
      var s := Jump(Some(c));
      assert e == Emission(i + 3, [JumpOpcode, ConditionByte(c)], None);
      assert SpelledAt(tokens, i, s) by {
        ConditionSpelled(tokens, i, c);
      }
      assert Recognizes(tokens, i, labels, e, s);
  }

  /** `JP` and a condition word, in any letter case, then an end of line, spell a conditional jump. */
  lemma ConditionSpelled(tokens: seq<Token>, i: nat, c: Condition)
    requires i + 2 < |tokens| && tokens[i].Word? && Lower(tokens[i].text) == "jp"
    requires tokens[i + 1].Word? && Lower(tokens[i + 1].text) == Lower(ConditionName(c)) && tokens[i + 2].EOL?
    ensures SpelledAt(tokens, i, Jump(Some(c)))
  {
    var p := Print(Jump(Some(c)));
    assert p == [Word(0, "JP"), Word(0, ConditionName(c)), EOL(0)];
    LowerOf("JP", "jp");
    forall k | 0 <= k < 3
      ensures SameToken(tokens[i + k], p[k], true)
    {
    }
  }

  /** An accepted mnemonic without operand is followed by an end of line, and emits its byte. */
  lemma SimpleMatchValue(tokens: seq<Token>, i: nat, labels: map<string, Byte>)
    requires i < |tokens| && tokens[i].Word? && SimpleOpcode(Lower(tokens[i].text)).Some?
    requires MatchStatement(tokens, i, labels).Ok?
    ensures i + 1 < |tokens| && tokens[i + 1].EOL?
    ensures MatchStatement(tokens, i, labels).value == Emission(i + 2, [SimpleOpcode(Lower(tokens[i].text)).value], None)
  {
    var m := Lower(tokens[i].text);
    assert m != "dw" && m != "push" && m != "jp";
    var e := Emission(i + 2, [SimpleOpcode(m).value], None);
    assert MatchStatement(tokens, i, labels) == EolAt(tokens, i + 1, e);
  }

  /** An accepted statement without operand is the printed statement of that mnemonic. */
  lemma SimpleMatched(tokens: seq<Token>, i: nat, labels: map<string, Byte>, s: Statement)
    requires i < |tokens| && tokens[i].Word? && Lower(tokens[i].text) == Lower(Mnemonic(s))
    requires SimpleOpcode(Lower(Mnemonic(s))).Some? && Encode(s, labels) == Some([SimpleOpcode(Lower(Mnemonic(s))).value])
    requires Print(s) == [Word(0, Mnemonic(s)), EOL(0)] && Binds(s) == None && !s.Jump?
    requires MatchStatement(tokens, i, labels).Ok?
    ensures Recognizes(tokens, i, labels, MatchStatement(tokens, i, labels).value, s)
  {
    SimpleMatchValue(tokens, i, labels);
    assert SpelledAt(tokens, i, s) by {
      var p := Print(s);
      forall k | 0 <= k < 2
        ensures SameToken(tokens[i + k], p[k], k == 0 || s.Jump?)
      {
      }
    }
  }

  /**
   * Whatever statement the pass accepts at `i` is the printed form of some
   * statement `s`, up to letter case and offsets, and the pass emits exactly
   * `Encode(s)` and binds exactly `s`'s label. So operands of the wrong kind
   * (`HALT 0x01;`, `DW;`, `JP foo;`) are never accepted.
   */
  lemma MatchedIsPrinted(tokens: seq<Token>, i: nat, labels: map<string, Byte>)
    requires i < |tokens| && MatchStatement(tokens, i, labels).Ok?
    ensures exists s :: Recognizes(tokens, i, labels, MatchStatement(tokens, i, labels).value, s)
  {
    assert tokens[i].Word?;
    var m := Lower(tokens[i].text);
    if m == "dw" {
      DwMatched(tokens, i, labels);
    } else if m == "push" {
      PushMatched(tokens, i, labels);
    } else if m == "jp" {
      JumpMatched(tokens, i, labels);
    } else {
      assert SimpleOpcode(m).Some?;
      var s :=
        if m == "halt" then Halt else if m == "load" then Load else if m == "store" then Store
        else if m == "pop" then Pop else if m == "add" then Add else if m == "sub" then Sub
        else if m == "and" then And else if m == "or" then Or else Xor;
      LowerMnemonic(s);
      SimpleMatched(tokens, i, labels, s);
    }
  }

  /** One accepted statement followed by a spelled rest is a spelled program one longer, encoded by `Emit`. */
  lemma SpelledCons(tokens: seq<Token>, i: nat, st: Assembly, e: Emission, s: Statement,
                    rest: seq<Statement>, r: Outcome<seq<Byte>, ParserError>)
    requires Recognizes(tokens, i, st.labels, e, s) && |st.mem| + |e.bytes| <= 255
    requires SpelledFrom(tokens, e.next, rest) && Agrees(r, Emit(rest, Apply(st, e)))
    ensures SpelledFrom(tokens, i, [s] + rest) && Agrees(r, Emit([s] + rest, st))
  {
    var prog := [s] + rest;
    assert prog[0] == s && prog[1..] == rest;
    assert Apply(st, e) == Apply(st, Emission(0, e.bytes, Binds(s)));
  }

  /**
   * From any statement boundary, a successful pass has read the printed
   * form of a program, up to letter case and offsets, whose reference
   * encoding `Emit` gives the same bytes.
   */
  lemma {:induction false} AssembleFromIsPrinted(tokens: seq<Token>, i: nat, st: Assembly, r: Outcome<seq<Byte>, ParserError>)
    requires Parses(tokens, i, st, r) && r.Ok?
    ensures exists prog :: SpelledFrom(tokens, i, prog) && Agrees(r, Emit(prog, st))
    decreases |tokens| - i
  {
    if i == |tokens| {
      assert SpelledFrom(tokens, i, []) && Agrees(r, Emit([], st));
    } else {
      assert r == AssembleStatement(tokens, i, st);
      var e := MatchStatement(tokens, i, st.labels).value;
      MatchedIsPrinted(tokens, i, st.labels);
      var s :| Recognizes(tokens, i, st.labels, e, s);
      assert Parses(tokens, e.next, Apply(st, e), r);
      AssembleFromIsPrinted(tokens, e.next, Apply(st, e), r);
      var rest :| SpelledFrom(tokens, e.next, rest) && Agrees(r, Emit(rest, Apply(st, e)));
      SpelledCons(tokens, i, st, e, s, rest, r);
    }
  }

  /**
   * The converse of `AssembledSpelled`: whatever `parse` accepts is the
   * printed form of a program, up to letter case and offsets, and its bytes
   * are that program's reference encoding.
   */
  lemma AssembledIsPrinted(tokens: seq<Token>)
    requires Assembled(tokens).Ok?
    ensures exists prog ::
      SpelledFrom(tokens, 0, prog) && Emit(prog, Empty).Some? && Emit(prog, Empty).value.mem == Assembled(tokens).value
  {
    AssembleFromIsPrinted(tokens, 0, Empty, Assembled(tokens));
  }

  /**
   * `parse` accepts exactly the token vectors that spell a program whose
   * reference encoding succeeds, and then yields that encoding's bytes,
   * whichever spelling of the program the tokens are.
   */
  lemma AssembledIffSpelled(tokens: seq<Token>)
    ensures Assembled(tokens).Ok? <==> exists prog :: SpelledFrom(tokens, 0, prog) && Emit(prog, Empty).Some?
    ensures forall prog :: SpelledFrom(tokens, 0, prog) && Emit(prog, Empty).Some? ==>
      Assembled(tokens) == Ok(Emit(prog, Empty).value.mem)
  {
    if Assembled(tokens).Ok? {
      AssembledIsPrinted(tokens);
    }
    forall prog | SpelledFrom(tokens, 0, prog) && Emit(prog, Empty).Some?
      ensures Assembled(tokens) == Ok(Emit(prog, Empty).value.mem)
    {
      AssembledSpelled(tokens, prog);
    }
  }

  /**
   * A label bound by `DW` and pushed afterwards: `DW x 0x05; PUSH x; JP gt;`
   * assembles to the value, a push of its address 0, and a conditional jump.
   */
  lemma LabelProgramExample(prog: seq<Statement>)
    requires prog == [Dw(Some("x"), 5), PushLabel("x"), Jump(Some(Gt))]
    ensures Assembled(PrintAll(prog)) == Ok([5, 3, 0, 0x0A, 1])
  {
    var s1 := Apply(Empty, Emission(0, [5], Some("x")));
    var s2 := Apply(s1, Emission(0, [3, 0], None));
    var s3 := Apply(s2, Emission(0, [0x0A, 1], None));
    assert "x" in s1.labels && s1.labels["x"] == 0;
    assert Emit(prog, Empty) == Emit(prog[1..], s1);
    assert Emit(prog[1..], s1) == Emit(prog[2..], s2);
    assert Emit(prog[2..], s2) == Emit([], s3);
    assert s3.mem == [5, 3, 0, 0x0A, 1];
    AssembledPrinted(prog);
  }
}
