/**
 * The tokenizer of the assembler (`tokenize` in src/assembler.rs).
 *
 * The source scans the text one character at a time, steered by five
 * boolean flags. `Scan` below specifies the same scanner as a machine with
 * four named modes and an explicit start offset for the pending lexeme;
 * `Tokenize` keeps the five flags of the source and is proved to compute
 * `Scan`. The properties of the tokens (offsets, values, one end-of-line
 * token per `;`, the errors) are proved about `Scan`.
 */
module Tokenizer {
  import opened Common

  datatype Token =
    | Word(offset: nat, text: string)
    | Number(offset: nat, value: Byte)
    | EOL(offset: nat)

  datatype TokenizerError = TokenizerError(position: nat, pattern: string)

  // ---------------------------------------------------------------------
  // Character classes and hexadecimal literals

  /** The characters of the arm `'0'...'9' | 'A'...'Z' | 'a'...'z'`. */
  predicate IsAlnum(c: char) {
    '0' <= c <= '9' || 'A' <= c <= 'Z' || 'a' <= c <= 'z'
  }

  /** The characters that close a pending lexeme. */
  predicate IsDelimiter(c: char) {
    c == ' ' || c == ';'
  }

  /** The characters the scanner has an arm for; any other one is an error. */
  predicate IsLegal(c: char) {
    c == ' ' || c == ';' || IsAlnum(c)
  }

  predicate AllAlnum(s: string) {
    forall k :: 0 <= k < |s| ==> IsAlnum(s[k])
  }

  predicate IsHexDigit(c: char) {
    '0' <= c <= '9' || 'A' <= c <= 'F' || 'a' <= c <= 'f'
  }

  predicate AllHex(s: string) {
    forall k :: 0 <= k < |s| ==> IsHexDigit(s[k])
  }

  function DigitValue(c: char): (d: nat)
    requires IsHexDigit(c)
    ensures d < 16
  {
    if '0' <= c <= '9' then c as int - '0' as int
    else if 'A' <= c <= 'F' then c as int - 'A' as int + 10
    else c as int - 'a' as int + 10
  }

  /** The value of a string of hexadecimal digits, most significant first. */
  function HexValue(s: string): nat
    requires AllHex(s)
  {
    if s == [] then 0 else 16 * HexValue(s[..|s| - 1]) + DigitValue(s[|s| - 1])
  }

  /** `u8::from_str_radix(s, 16)`; `None` where the source's `unwrap` panics. */
  function FromHex(s: string): (r: Option<Byte>)
    ensures r.Some? <==> s != [] && AllHex(s) && HexValue(s) < 256
    ensures r.Some? ==> r.value == HexValue(s)
  {
    if s != [] && AllHex(s) && HexValue(s) < 256 then Some(HexValue(s)) else None
  }

  /** One or two hexadecimal digits always fit a byte; a longer literal fits only with leading zeros. */
  lemma ShortLiteralFits(s: string)
    requires s != [] && |s| <= 2 && AllHex(s)
    ensures FromHex(s) == Some(HexValue(s))
  {
    if |s| == 2 {
      var first := s[..1];
      assert first[..0] == [] && first[0] == s[0];
      assert HexValue(first) == DigitValue(s[0]);
    }
  }

  /** The text a `TokenizerError` reports for character `c`. */
  function Pattern(c: char): string {
    if c == '\n' then "\\n" else [c]
  }

  // ---------------------------------------------------------------------
  // The scanner as a machine with named modes

  /**
   * Start: between lexemes; InWord: inside a word; AfterPrefix: just after
   * `0x`; InNumber: inside the digits of a literal.
   */
  datatype Mode = Start | InWord | AfterPrefix | InNumber

  /**
   * The scanner's state at index `pos`: its mode, the offset where the pending
   * lexeme began (`pos` itself in mode Start), the pending characters (for a
   * literal, the digits after `0x`) and the tokens emitted so far.
   */
  datatype Lexer = Lexer(pos: nat, mode: Mode, start: nat, text: string, tokens: seq<Token>)

  /** Emits the pending lexeme when a space or `;` closes it; `None` is a panic. */
  function Flush(lx: Lexer): Option<seq<Token>>
    requires lx.mode != AfterPrefix
  {
    match lx.mode
    case Start => Some(lx.tokens + [Word(lx.pos, "")])
    case InWord => Some(lx.tokens + [Word(lx.start, lx.text)])
    case InNumber =>
      match FromHex(lx.text)
      case None => None
      case Some(v) => Some(lx.tokens + [Number(lx.start, v)])
  }

  /** One iteration of the scanning loop, on the character at `lx.pos`. */
  function ScanChar(src: string, lx: Lexer): (r: Outcome<Lexer, TokenizerError>)
    requires lx.pos < |src|
    ensures r.Ok? ==> r.value.pos <= |src|
    ensures r.Ok? ==> r.value.pos == lx.pos + 1 || (r.value.mode == AfterPrefix && r.value.pos == lx.pos + 2)
    ensures r.Ok? ==> lx.tokens <= r.value.tokens
    ensures r.Err? ==> r.error.position == lx.pos
  {
    var i := lx.pos;
    var c := src[i];
    if c == ' ' || c == ';' then
      if lx.mode == AfterPrefix then Err(TokenizerError(i, Pattern(c)))
      else
        match Flush(lx)
        case None => Panic
        case Some(closed) =>
          Ok(Lexer(i + 1, Start, i + 1, "", if c == ';' then closed + [EOL(i)] else closed))
    else if IsAlnum(c) then
      match lx.mode
      case Start =>
        if c == '0' && i + 1 == |src| then Panic
        else if c == '0' && src[i + 1] == 'x' then Ok(Lexer(i + 2, AfterPrefix, i, "", lx.tokens))
        else Ok(Lexer(i + 1, InWord, i, [c], lx.tokens))
      case InWord => Ok(Lexer(i + 1, InWord, lx.start, lx.text + [c], lx.tokens))
      case AfterPrefix => Ok(Lexer(i + 1, InNumber, lx.start, lx.text + [c], lx.tokens))
      case InNumber => Ok(Lexer(i + 1, InNumber, lx.start, lx.text + [c], lx.tokens))
    else
      Err(TokenizerError(i, Pattern(c)))
  }

  /** The rest of the loop from state `lx`: tokens are only appended, and an error lies ahead of `lx.pos`. */
  function ScanFrom(src: string, lx: Lexer): (r: Outcome<seq<Token>, TokenizerError>)
    requires lx.pos <= |src|
    ensures r.Ok? ==> lx.tokens <= r.value
    ensures r.Err? ==> lx.pos <= r.error.position < |src|
    decreases |src| - lx.pos
  {
    if lx.pos == |src| then Ok(lx.tokens)
    else
      match ScanChar(src, lx)
      case Ok(next) => ScanFrom(src, next)
      case Err(e) => Err(e)
      case Panic => Panic
  }

  /** What `tokenize(src)` returns. A lexeme still pending at the end of the text is dropped. */
  function Scan(src: string): (r: Outcome<seq<Token>, TokenizerError>)
    ensures r.Err? ==> r.error.position < |src|
  {
    ScanFrom(src, Lexer(0, Start, 0, "", []))
  }

  // ---------------------------------------------------------------------
  // The scanning loop of the source, with its five flags

  /** The flag values that the source holds in each mode. */
  predicate FlagsFor(mode: Mode, letter: bool, newline: bool, number: bool, space: bool, hex: bool) {
    match mode
    case Start => letter && newline && !number && space && hex
    case InWord => letter && newline && !number && space && !hex
    case AfterPrefix => !letter && !newline && number && !space && !hex
    case InNumber => !letter && newline && number && space && !hex
  }

  /** The scanner state that the loop's variables stand for. */
  function View(i: nat, mode: Mode, current: string, tokens: seq<Token>): Lexer
    requires |current| + (if mode == AfterPrefix || mode == InNumber then 2 else 0) <= i
  {
    var start := if mode == AfterPrefix || mode == InNumber then i - |current| - 2 else i - |current|;
    Lexer(i, mode, start, current, tokens)
  }

  /** One step of the scan on a space or `;`, in terms of the loop's variables. */
  lemma DelimiterStep(src: string, i: nat, mode: Mode, current: string, tokens: seq<Token>)
    requires i < |src| && (src[i] == ' ' || src[i] == ';')
    requires |current| + (if mode == AfterPrefix || mode == InNumber then 2 else 0) <= i
    requires mode == Start ==> current == ""
    ensures mode == AfterPrefix ==>
      ScanChar(src, View(i, mode, current, tokens)) == Err(TokenizerError(i, Pattern(src[i])))
    ensures mode != AfterPrefix && Flush(View(i, mode, current, tokens)).None? ==>
      ScanChar(src, View(i, mode, current, tokens)) == Panic
    ensures mode != AfterPrefix && Flush(View(i, mode, current, tokens)).Some? ==>
      var closed := Flush(View(i, mode, current, tokens)).value;
      ScanChar(src, View(i, mode, current, tokens)) ==
        Ok(View(i + 1, Start, "", if src[i] == ';' then closed + [EOL(i)] else closed))
  {
  }

  /**
   * The block that the space and `;` arms share: push the pending word or
   * literal. `None` is the panic of the `unwrap` on a literal that is not a
   * byte.
   */
  method PushPending(i: nat, expectLetter: bool, expectNumber: bool, current: string, tokens: seq<Token>, ghost mode: Mode)
    returns (r: Option<seq<Token>>)
    requires mode != AfterPrefix && (expectLetter <==> mode != InNumber) && (expectNumber <==> mode == InNumber)
    requires mode == Start ==> current == ""
    requires |current| + (if mode == InNumber then 2 else 0) <= i
    ensures r == Flush(View(i, mode, current, tokens))
    ensures r.Some? ==> |r.value| == |tokens| + 1 && r.value[..|tokens|] == tokens
  {
    if expectLetter {
      r := Some(tokens + [Word(i - |current|, current)]);
    } else {
      var value := FromHex(current);
      if value.None? {
        return None;  // the `unwrap` of `u8::from_str_radix`
      }
      r := Some(tokens + [Number(i - |current| - 2, value.value)]);
    }
    assert r.value[..|tokens|] == tokens;
  }

  /** One step of the scan on a letter or digit, in terms of the loop's variables. */
  lemma AlnumStep(src: string, i: nat, mode: Mode, current: string, tokens: seq<Token>)
    requires i < |src| && IsAlnum(src[i])
    requires |current| + (if mode == AfterPrefix || mode == InNumber then 2 else 0) <= i
    requires mode == Start ==> current == ""
    ensures mode == Start && src[i] == '0' && i + 1 == |src| ==> ScanChar(src, View(i, mode, current, tokens)) == Panic
    ensures mode == Start && src[i] == '0' && i + 1 < |src| && src[i + 1] == 'x' ==>
      ScanChar(src, View(i, mode, current, tokens)) == Ok(View(i + 2, AfterPrefix, current, tokens))
    ensures mode == Start && !(src[i] == '0' && i + 1 <= |src| && (i + 1 == |src| || src[i + 1] == 'x')) ==>
      ScanChar(src, View(i, mode, current, tokens)) == Ok(View(i + 1, InWord, current + [src[i]], tokens))
    ensures mode == InWord ==>
      ScanChar(src, View(i, mode, current, tokens)) == Ok(View(i + 1, InWord, current + [src[i]], tokens))
    ensures mode == AfterPrefix || mode == InNumber ==>
      ScanChar(src, View(i, mode, current, tokens)) == Ok(View(i + 1, InNumber, current + [src[i]], tokens))
  {
    if mode == Start {
      assert current + [src[i]] == [src[i]];
    }
  }

  method Tokenize(source: string) returns (r: Outcome<seq<Token>, TokenizerError>)
    ensures r == Scan(source)
  {
    var expectLetter, expectNewline, expectNumber, expectSpace, expectHex := true, true, false, true, true;
    var tokens: seq<Token> := [];
    var current: string := "";
    ghost var mode := Start;
    ghost var lx := Lexer(0, Start, 0, "", []);
    var i := 0;
    while i < |source|
      invariant i <= |source|
      invariant FlagsFor(mode, expectLetter, expectNewline, expectNumber, expectSpace, expectHex)
      invariant mode == Start || mode == AfterPrefix ==> current == ""
      invariant mode == InWord || mode == InNumber ==> current != ""
      invariant |current| + (if expectNumber then 2 else 0) <= i
      invariant lx == View(i, mode, current, tokens)
      invariant ScanFrom(source, lx) == Scan(source)
      decreases |source| - i
    {
      var el := source[i];
      var res: bool;
      ghost var step := ScanChar(source, lx);
      if el == ' ' {
        DelimiterStep(source, i, mode, current, tokens);
        if expectSpace {
          var closed := PushPending(i, expectLetter, expectNumber, current, tokens, mode);
          if closed.None? {
            return Panic;
          }
          tokens, current := closed.value, "";
          expectLetter, expectNewline, expectNumber, expectSpace, expectHex := true, true, false, true, true;
          mode := Start;
          res := true;
        } else {
          res := false;
        }
      } else if el == ';' {
        DelimiterStep(source, i, mode, current, tokens);
        if expectNewline {
          var closed := PushPending(i, expectLetter, expectNumber, current, tokens, mode);
          if closed.None? {
            return Panic;
          }
          tokens, current := closed.value, "";
          expectLetter, expectNewline, expectNumber, expectSpace, expectHex := true, true, false, true, true;
          mode := Start;
          tokens := tokens + [EOL(i)];
          res := true;
        } else {
          res := false;
        }
      } else if IsAlnum(el) {
        AlnumStep(source, i, mode, current, tokens);
        if expectHex && el == '0' && i + 1 == |source| {
          return Panic;  // `chars[i + 1]` is out of bounds
        }
        if expectHex && el == '0' && source[i + 1] == 'x' {
          expectNumber, expectLetter, expectNewline, expectSpace, expectHex := true, false, false, false, false;
          mode := AfterPrefix;
          i := i + 1;
          res := true;
        } else if expectNumber {
          current := current + [el];
          expectNewline, expectSpace := true, true;
          mode := InNumber;
          res := true;
        } else if expectLetter {
          current := current + [el];
          expectNumber, expectHex, expectNewline, expectSpace := false, false, true, true;
          mode := InWord;
          res := true;
        } else {
          res := false;
        }
      } else {
        res := false;
      }
      if !res {
        return Err(TokenizerError(i, if el == '\n' then "\\n" else [el]));
      }
      lx := step.value;
      i := i + 1;
    }
    return Ok(tokens);
  }

  // ---------------------------------------------------------------------
  // What the tokens say about the text

  /** The end of the run of letters and digits that begins at `j`. */
  function RunEnd(src: string, j: nat): (e: nat)
    requires j <= |src|
    ensures j <= e <= |src|
    decreases |src| - j
  {
    if j < |src| && IsAlnum(src[j]) then RunEnd(src, j + 1) else j
  }

  /** `RunEnd` stops at the first character from `j` on that is not a letter or digit. */
  lemma {:induction false} RunEndIsMaximal(src: string, j: nat)
    requires j <= |src|
    ensures forall k :: j <= k < RunEnd(src, j) ==> IsAlnum(src[k])
    ensures RunEnd(src, j) == |src| || !IsAlnum(src[RunEnd(src, j)])
    decreases |src| - j
  {
    if j < |src| && IsAlnum(src[j]) {
      RunEndIsMaximal(src, j + 1);
    }
  }

  /** A lexeme can begin at `o`: it is the first index, or a space or `;` precedes it. */
  ghost predicate LexemeStart(src: string, o: nat) {
    o == 0 || (o <= |src| && IsDelimiter(src[o - 1]))
  }

  /** The text holds the prefix `0x` at `o`. */
  ghost predicate HasPrefix(src: string, o: nat) {
    o + 2 <= |src| && src[o] == '0' && src[o + 1] == 'x'
  }

  /** `0x` stands at `o`, and the digits after it are hexadecimal with value `v`. */
  ghost predicate NumberAt(src: string, o: nat, v: Byte) {
    HasPrefix(src, o) &&
    var e := RunEnd(src, o + 2);
    o + 2 < e && AllHex(src[o + 2..e]) && HexValue(src[o + 2..e]) == v
  }

  /**
   * A token agrees with the text. A word is a whole lexeme: it begins the
   * text or follows a space or `;`, it is the run of letters and digits from
   * its offset, and it does not begin with `0x`. A number's offset is that of
   * its `0x` prefix, which likewise begins a lexeme. Both are closed by a
   * space or `;`, and an end-of-line token stands on a `;`.
   */
  ghost predicate Anchored(src: string, t: Token) {
    match t
    case Word(o, s) =>
      LexemeStart(src, o) && !HasPrefix(src, o) &&
      o + |s| < |src| && src[o..o + |s|] == s && RunEnd(src, o) == o + |s| && IsDelimiter(src[o + |s|])
    case Number(o, v) =>
      LexemeStart(src, o) && NumberAt(src, o, v) && RunEnd(src, o + 2) < |src| && IsDelimiter(src[RunEnd(src, o + 2)])
    case EOL(o) => o < |src| && src[o] == ';'
  }

  /** The index of the space or `;` that closed a word or number (for an end-of-line token, its own). */
  ghost function CloseAt(src: string, t: Token): nat {
    match t
    case Word(o, s) => o + |s|
    case Number(o, _) => if o + 2 <= |src| then RunEnd(src, o + 2) else o
    case EOL(o) => o
  }

  /** The closing indices of the words and numbers, in order. */
  ghost function ClosePositions(src: string, ts: seq<Token>): seq<nat> {
    if ts == [] then []
    else ClosePositions(src, ts[..|ts| - 1]) + (if ts[|ts| - 1].EOL? then [] else [CloseAt(src, ts[|ts| - 1])])
  }

  /** No token begins before an earlier one. */
  ghost predicate InSourceOrder(ts: seq<Token>) {
    forall a, b :: 0 <= a < b < |ts| ==> ts[a].offset <= ts[b].offset
  }

  /** The offsets of the end-of-line tokens, in order. */
  function EolPositions(ts: seq<Token>): seq<nat> {
    if ts == [] then []
    else EolPositions(ts[..|ts| - 1]) + (if ts[|ts| - 1].EOL? then [ts[|ts| - 1].offset] else [])
  }

  /** The indices of the `;` characters among the first `n`, in increasing order. */
  function Semicolons(src: string, n: nat): seq<nat>
    requires n <= |src|
  {
    if n == 0 then [] else Semicolons(src, n - 1) + (if src[n - 1] == ';' then [n - 1] else [])
  }

  /** The indices of the spaces and `;` characters among the first `n`, in increasing order. */
  function Delimiters(src: string, n: nat): seq<nat>
    requires n <= |src|
  {
    if n == 0 then [] else Delimiters(src, n - 1) + (if IsDelimiter(src[n - 1]) then [n - 1] else [])
  }

  /** `Semicolons(src, n)` lists every index below `n` holding a `;`, each once, in increasing order. */
  lemma {:induction false} SemicolonsExact(src: string, n: nat)
    requires n <= |src|
    ensures forall k: nat :: k in Semicolons(src, n) <==> k < n && src[k] == ';'
    ensures forall a, b :: 0 <= a < b < |Semicolons(src, n)| ==> Semicolons(src, n)[a] < Semicolons(src, n)[b]
  {
    if n > 0 {
      SemicolonsExact(src, n - 1);
      var before := Semicolons(src, n - 1);
      assert forall a :: 0 <= a < |before| ==> before[a] in before;
    }
  }

  /** `Delimiters(src, n)` lists every index below `n` holding a space or `;`, each once, in increasing order. */
  lemma {:induction false} DelimitersExact(src: string, n: nat)
    requires n <= |src|
    ensures forall k: nat :: k in Delimiters(src, n) <==> k < n && IsDelimiter(src[k])
    ensures forall a, b :: 0 <= a < b < |Delimiters(src, n)| ==> Delimiters(src, n)[a] < Delimiters(src, n)[b]
  {
    if n > 0 {
      DelimitersExact(src, n - 1);
      var before := Delimiters(src, n - 1);
      assert forall a :: 0 <= a < |before| ==> before[a] in before;
    }
  }

  /** Every token is either a word or number, counted by its closing index, or an end-of-line token. */
  lemma {:induction false} TokenCount(src: string, ts: seq<Token>)
    ensures |ts| == |ClosePositions(src, ts)| + |EolPositions(ts)|
  {
    if ts != [] {
      TokenCount(src, ts[..|ts| - 1]);
    }
  }

  /** A text without a space or `;` in its first `n` characters has neither closing nor end-of-line positions there. */
  lemma {:induction false} NoDelimiterBefore(src: string, n: nat)
    requires n <= |src| && forall k :: 0 <= k < n ==> !IsDelimiter(src[k])
    ensures Delimiters(src, n) == [] && Semicolons(src, n) == []
  {
    if n > 0 {
      NoDelimiterBefore(src, n - 1);
    }
  }

  /**
   * The scanner cannot get past index `p`: it holds an illegal character, or a
   * space or `;` right after a bare `0x`, one that begins a lexeme.
   */
  ghost predicate Offending(src: string, p: nat) {
    p < |src| &&
    (!IsLegal(src[p]) || (IsDelimiter(src[p]) && 2 <= p && LexemeStart(src, p - 2) && HasPrefix(src, p - 2)))
  }

  /** No index below `n` is offending. */
  ghost predicate CleanUpTo(src: string, n: nat) {
    forall k :: 0 <= k < n ==> !Offending(src, k)
  }

  /** What a failed scan reports: the first offending index and the text of its character. */
  ghost predicate ErrorShape(src: string, e: TokenizerError) {
    var p := e.position;
    p < |src| && e.pattern == Pattern(src[p]) && Offending(src, p) && CleanUpTo(src, p)
  }

  ghost predicate PendingOk(src: string, lx: Lexer) {
    lx.pos <= |src| &&
    match lx.mode
    case Start => lx.text == [] && lx.start == lx.pos && LexemeStart(src, lx.pos)
    case InWord =>
      LexemeStart(src, lx.start) && !HasPrefix(src, lx.start) &&
      lx.start < lx.pos && lx.start + |lx.text| == lx.pos &&
      src[lx.start..lx.pos] == lx.text && AllAlnum(lx.text)
    case AfterPrefix =>
      LexemeStart(src, lx.start) &&
      lx.start + 2 == lx.pos && src[lx.start] == '0' && src[lx.start + 1] == 'x' && lx.text == []
    case InNumber =>
      LexemeStart(src, lx.start) &&
      lx.start + 2 < lx.pos && lx.start + 2 + |lx.text| == lx.pos &&
      src[lx.start] == '0' && src[lx.start + 1] == 'x' &&
      src[lx.start + 2..lx.pos] == lx.text && AllAlnum(lx.text)
  }

  /** No token begins after `bound`, and each begins no earlier than the one before it. */
  ghost predicate OffsetsBefore(ts: seq<Token>, bound: nat) {
    ts == [] ||
    var last := ts[|ts| - 1];
    last.offset <= bound && OffsetsBefore(ts[..|ts| - 1], last.offset)
  }

  /** Every token agrees with the text. */
  ghost predicate AllAnchored(src: string, ts: seq<Token>) {
    ts == [] || (Anchored(src, ts[|ts| - 1]) && AllAnchored(src, ts[..|ts| - 1]))
  }

  /** Every token agrees with the text, and the offsets are bounded and in order. */
  ghost predicate TokensBefore(src: string, ts: seq<Token>, bound: nat) {
    AllAnchored(src, ts) && OffsetsBefore(ts, bound)
  }

  /** The invariant of the scan: everything emitted so far agrees with `src[..lx.pos]`. */
  ghost predicate Sound(src: string, lx: Lexer) {
    PendingOk(src, lx) &&
    CleanUpTo(src, lx.pos) &&
    TokensBefore(src, lx.tokens, lx.start) &&
    EolPositions(lx.tokens) == Semicolons(src, lx.pos) &&
    ClosePositions(src, lx.tokens) == Delimiters(src, lx.pos)
  }

  ghost predicate Final(src: string, ts: seq<Token>) {
    (forall k :: 0 <= k < |ts| ==> Anchored(src, ts[k])) &&
    InSourceOrder(ts) &&
    EolPositions(ts) == Semicolons(src, |src|) &&
    ClosePositions(src, ts) == Delimiters(src, |src|) &&
    CleanUpTo(src, |src|)
  }

  lemma {:induction false} RunEndOfRun(src: string, j: nat, e: nat)
    requires j <= e < |src|
    requires forall k :: j <= k < e ==> IsAlnum(src[k])
    requires !IsAlnum(src[e])
    ensures RunEnd(src, j) == e
    decreases e - j
  {
    if j < e {
      RunEndOfRun(src, j + 1, e);
    }
  }

  lemma EolPositionsAppend(ts: seq<Token>, t: Token)
    ensures EolPositions(ts + [t]) == EolPositions(ts) + (if t.EOL? then [t.offset] else [])
  {
    assert (ts + [t])[..|ts|] == ts;
  }

  lemma ClosePositionsAppend(src: string, ts: seq<Token>, t: Token)
    ensures ClosePositions(src, ts + [t]) == ClosePositions(src, ts) + (if t.EOL? then [] else [CloseAt(src, t)])
  {
    assert (ts + [t])[..|ts|] == ts;
  }

  lemma TokensBeforeAppend(src: string, ts: seq<Token>, t: Token, bound: nat)
    requires TokensBefore(src, ts, t.offset) && Anchored(src, t) && t.offset <= bound
    ensures TokensBefore(src, ts + [t], bound)
  {
    assert (ts + [t])[..|ts|] == ts;
  }

  lemma TokensBeforeWeaken(src: string, ts: seq<Token>, bound: nat, bound': nat)
    requires TokensBefore(src, ts, bound) && bound <= bound'
    ensures TokensBefore(src, ts, bound')
  {
  }

  /** The chained bounds of `TokensBefore` say, token by token, that all are anchored, bounded and in order. */
  lemma TokensBeforeIndexed(src: string, ts: seq<Token>, bound: nat)
    requires TokensBefore(src, ts, bound)
    ensures forall k :: 0 <= k < |ts| ==> Anchored(src, ts[k]) && ts[k].offset <= bound
    ensures InSourceOrder(ts)
  {
    AnchoredIndexed(src, ts);
    OffsetsIndexed(ts, bound);
  }

  /** `AllAnchored`, token by token. */
  lemma {:induction false} AnchoredIndexed(src: string, ts: seq<Token>)
    requires AllAnchored(src, ts)
    ensures forall k :: 0 <= k < |ts| ==> Anchored(src, ts[k])
  {
    if ts != [] {
      var init := ts[..|ts| - 1];
      AnchoredIndexed(src, init);
      forall k | 0 <= k < |init|
        ensures Anchored(src, ts[k])
      {
        assert ts[k] == init[k];
      }
    }
  }

  /** The chained bounds of `OffsetsBefore`, token by token. */
  lemma {:induction false} OffsetsIndexed(ts: seq<Token>, bound: nat)
    requires OffsetsBefore(ts, bound)
    ensures forall k :: 0 <= k < |ts| ==> ts[k].offset <= bound
    ensures InSourceOrder(ts)
  {
    if ts != [] {
      var init := ts[..|ts| - 1];
      OffsetsIndexed(init, ts[|ts| - 1].offset);
      forall k | 0 <= k < |ts|
        ensures ts[k].offset <= bound
      {
        if k < |init| {
          assert ts[k] == init[k];
        }
      }
      forall a, b | 0 <= a < b < |ts|
        ensures ts[a].offset <= ts[b].offset
      {
        assert ts[a] == init[a];
        if b < |init| {
          assert ts[b] == init[b];
        }
      }
    }
  }

  /** The token that closing the pending lexeme emits agrees with the text. */
  lemma FlushAnchored(src: string, lx: Lexer)
    requires lx.pos < |src| && PendingOk(src, lx)
    requires src[lx.pos] == ' ' || src[lx.pos] == ';'
    requires lx.mode != AfterPrefix && Flush(lx).Some?
    ensures var closed := Flush(lx).value;
      |closed| == |lx.tokens| + 1 && closed == lx.tokens + [closed[|lx.tokens|]] &&
      Anchored(src, closed[|lx.tokens|]) && closed[|lx.tokens|].offset == lx.start &&
      !closed[|lx.tokens|].EOL? && CloseAt(src, closed[|lx.tokens|]) == lx.pos
  {
    match lx.mode
    case Start =>
    case InWord =>
      AlnumSlice(src, lx.start, lx.pos, lx.text);
      RunEndOfRun(src, lx.start, lx.pos);
    case InNumber =>
      AlnumSlice(src, lx.start + 2, lx.pos, lx.text);
      RunEndOfRun(src, lx.start + 2, lx.pos);
  }

  /** A slice that spells letters and digits holds letters and digits at each index. */
  lemma AlnumSlice(src: string, j: nat, e: nat, text: string)
    requires j <= e <= |src| && src[j..e] == text && AllAlnum(text)
    ensures forall k :: j <= k < e ==> IsAlnum(src[k])
  {
    forall k | j <= k < e
      ensures IsAlnum(src[k])
    {
      assert src[k] == text[k - j];
    }
  }

  /** Reading a character other than `;` adds no end-of-line position. */
  lemma SemicolonsSkip(src: string, n: nat)
    requires n < |src| && src[n] != ';'
    ensures Semicolons(src, n + 1) == Semicolons(src, n)
  {
    assert Semicolons(src, n) + [] == Semicolons(src, n);
  }

  /** Reading a letter or digit adds no closing position. */
  lemma DelimitersSkip(src: string, n: nat)
    requires n < |src| && !IsDelimiter(src[n])
    ensures Delimiters(src, n + 1) == Delimiters(src, n)
  {
    assert Delimiters(src, n) + [] == Delimiters(src, n);
  }

  lemma CleanExtend(src: string, n: nat)
    requires CleanUpTo(src, n) && !Offending(src, n)
    ensures CleanUpTo(src, n + 1)
  {
  }

  /** A space or `;` read while no bare `0x` is pending is not offending. */
  lemma ClosingIsClean(src: string, lx: Lexer)
    requires lx.pos < |src| && PendingOk(src, lx) && lx.mode != AfterPrefix && IsDelimiter(src[lx.pos])
    ensures !Offending(src, lx.pos)
  {
    var i := lx.pos;
    if lx.mode == InWord && lx.start + 2 < i {
      assert src[i - 3] == lx.text[i - 3 - lx.start];
    } else if lx.mode == InNumber && lx.start + 5 <= i {
      assert src[i - 3] == lx.text[i - 5 - lx.start];
    }
  }

  /** Closing the pending lexeme appends a token that keeps the tokens' invariant. */
  lemma FlushSound(src: string, lx: Lexer, closed: seq<Token>)
    requires lx.pos < |src| && Sound(src, lx)
    requires src[lx.pos] == ' ' || src[lx.pos] == ';'
    requires lx.mode != AfterPrefix && Flush(lx) == Some(closed)
    ensures TokensBefore(src, closed, lx.pos)
    ensures EolPositions(closed) == Semicolons(src, lx.pos)
    ensures ClosePositions(src, closed) == Delimiters(src, lx.pos + 1)
    ensures CleanUpTo(src, lx.pos + 1)
  {
    FlushAnchored(src, lx);
    var t := closed[|lx.tokens|];
    TokensBeforeAppend(src, lx.tokens, t, lx.pos);
    EolPositionsAppend(lx.tokens, t);
    ClosePositionsAppend(src, lx.tokens, t);
    ClosingIsClean(src, lx);
    CleanExtend(src, lx.pos);
  }

  /** After a lexeme is closed on a space, the scan's invariant holds again. */
  lemma CloseOnSpaceSound(src: string, pos: nat, closed: seq<Token>)
    requires pos < |src| && src[pos] == ' '
    requires TokensBefore(src, closed, pos) && EolPositions(closed) == Semicolons(src, pos)
    requires ClosePositions(src, closed) == Delimiters(src, pos + 1)
    requires CleanUpTo(src, pos + 1)
    ensures Sound(src, Lexer(pos + 1, Start, pos + 1, "", closed))
  {
    TokensBeforeWeaken(src, closed, pos, pos + 1);
    SemicolonsSkip(src, pos);
  }

  /** After a lexeme is closed on a `;` and its end-of-line token emitted, the invariant holds again. */
  lemma CloseOnSemicolonSound(src: string, pos: nat, closed: seq<Token>)
    requires pos < |src| && src[pos] == ';'
    requires TokensBefore(src, closed, pos) && EolPositions(closed) == Semicolons(src, pos)
    requires ClosePositions(src, closed) == Delimiters(src, pos + 1)
    requires CleanUpTo(src, pos + 1)
    ensures Sound(src, Lexer(pos + 1, Start, pos + 1, "", closed + [EOL(pos)]))
  {
    var ts := closed + [EOL(pos)];
    assert TokensBefore(src, ts, pos + 1) by {
      TokensBeforeAppend(src, closed, EOL(pos), pos + 1);
    }
    assert EolPositions(ts) == Semicolons(src, pos + 1) by {
      EolPositionsAppend(closed, EOL(pos));
    }
    assert ClosePositions(src, ts) == Delimiters(src, pos + 1) by {
      ClosePositionsAppend(src, closed, EOL(pos));
    }
  }

  /** Reading a letter or digit at `lx.pos` with nothing pending starts a word. */
  lemma StartWordSound(src: string, lx: Lexer)
    requires lx.pos < |src| && Sound(src, lx) && lx.mode == Start && IsAlnum(src[lx.pos])
    requires !HasPrefix(src, lx.pos)
    ensures Sound(src, Lexer(lx.pos + 1, InWord, lx.pos, [src[lx.pos]], lx.tokens))
  {
    SemicolonsSkip(src, lx.pos);
    DelimitersSkip(src, lx.pos);
    CleanExtend(src, lx.pos);
    TokensBeforeWeaken(src, lx.tokens, lx.start, lx.pos);
  }

  /** Reading `0x` with nothing pending starts a literal. */
  lemma PrefixSound(src: string, lx: Lexer)
    requires lx.pos + 1 < |src| && Sound(src, lx) && lx.mode == Start
    requires src[lx.pos] == '0' && src[lx.pos + 1] == 'x'
    ensures Sound(src, Lexer(lx.pos + 2, AfterPrefix, lx.pos, "", lx.tokens))
  {
    SemicolonsSkip(src, lx.pos);
    SemicolonsSkip(src, lx.pos + 1);
    DelimitersSkip(src, lx.pos);
    DelimitersSkip(src, lx.pos + 1);
    CleanExtend(src, lx.pos);
    CleanExtend(src, lx.pos + 1);
  }

  /** A letter or digit extends a pending word. */
  lemma ExtendWordSound(src: string, lx: Lexer)
    requires lx.pos < |src| && Sound(src, lx) && lx.mode == InWord && IsAlnum(src[lx.pos])
    ensures Sound(src, Lexer(lx.pos + 1, InWord, lx.start, lx.text + [src[lx.pos]], lx.tokens))
  {
    var next := Lexer(lx.pos + 1, InWord, lx.start, lx.text + [src[lx.pos]], lx.tokens);
    assert PendingOk(src, next) by {
      assert src[lx.start..lx.pos + 1] == src[lx.start..lx.pos] + [src[lx.pos]];
    }
    assert CleanUpTo(src, next.pos) by {
      CleanExtend(src, lx.pos);
    }
    assert EolPositions(next.tokens) == Semicolons(src, next.pos) by {
      SemicolonsSkip(src, lx.pos);
    }
    assert ClosePositions(src, next.tokens) == Delimiters(src, next.pos) by {
      DelimitersSkip(src, lx.pos);
    }
  }

  /** The pending digits of a literal, extended by a letter or digit, still spell the text after its `0x`. */
  lemma ExtendNumberPending(src: string, lx: Lexer)
    requires lx.pos < |src| && PendingOk(src, lx) && IsAlnum(src[lx.pos])
    requires lx.mode == AfterPrefix || lx.mode == InNumber
    ensures PendingOk(src, Lexer(lx.pos + 1, InNumber, lx.start, lx.text + [src[lx.pos]], lx.tokens))
  {
    if lx.mode == AfterPrefix {
      assert lx.text + [src[lx.pos]] == [src[lx.pos]];
      assert src[lx.start + 2..lx.pos + 1] == [src[lx.pos]];
    } else {
      assert src[lx.start + 2..lx.pos + 1] == src[lx.start + 2..lx.pos] + [src[lx.pos]];
    }
  }

  /** A letter or digit extends the digits of a pending literal. */
  lemma ExtendNumberSound(src: string, lx: Lexer)
    requires lx.pos < |src| && Sound(src, lx) && IsAlnum(src[lx.pos])
    requires lx.mode == AfterPrefix || lx.mode == InNumber
    ensures Sound(src, Lexer(lx.pos + 1, InNumber, lx.start, lx.text + [src[lx.pos]], lx.tokens))
  {
    ExtendNumberPending(src, lx);
    CleanExtend(src, lx.pos);
    SemicolonsSkip(src, lx.pos);
    DelimitersSkip(src, lx.pos);
  }

  /** What one step on a delimiter yields when the pending lexeme closes. */
  lemma ScanCharCloses(src: string, lx: Lexer)
    requires lx.pos < |src| && (src[lx.pos] == ' ' || src[lx.pos] == ';')
    requires lx.mode != AfterPrefix && Flush(lx).Some?
    ensures ScanChar(src, lx) == Ok(Lexer(lx.pos + 1, Start, lx.pos + 1, "",
      if src[lx.pos] == ';' then Flush(lx).value + [EOL(lx.pos)] else Flush(lx).value))
  {
  }

  /** Closing the pending lexeme on a space or `;` keeps the invariant. */
  lemma CloseSound(src: string, lx: Lexer)
    requires lx.pos < |src| && Sound(src, lx)
    requires src[lx.pos] == ' ' || src[lx.pos] == ';'
    requires lx.mode != AfterPrefix && Flush(lx).Some?
    ensures ScanChar(src, lx).Ok? && Sound(src, ScanChar(src, lx).value)
  {
    var i, closed := lx.pos, Flush(lx).value;
    ScanCharCloses(src, lx);
    FlushSound(src, lx, closed);
    if src[i] == ' ' {
      CloseOnSpaceSound(src, i, closed);
    } else {
      CloseOnSemicolonSound(src, i, closed);
    }
  }

  /** A space or `;` either closes the pending lexeme soundly or fails as described. */
  lemma ScanDelimiterSound(src: string, lx: Lexer)
    requires lx.pos < |src| && Sound(src, lx)
    requires src[lx.pos] == ' ' || src[lx.pos] == ';'
    ensures ScanChar(src, lx).Ok? ==> Sound(src, ScanChar(src, lx).value)
    ensures ScanChar(src, lx).Err? ==> ErrorShape(src, ScanChar(src, lx).error)
  {
    var i := lx.pos;
    if lx.mode == AfterPrefix {
      assert ScanChar(src, lx) == Err(TokenizerError(i, Pattern(src[i])));
      assert Offending(src, i);
    } else if Flush(lx).Some? {
      CloseSound(src, lx);
    }
  }

  /** A letter or digit extends or starts a lexeme and keeps the invariant. */
  lemma ScanAlnumSound(src: string, lx: Lexer)
    requires lx.pos < |src| && Sound(src, lx) && IsAlnum(src[lx.pos])
    ensures ScanChar(src, lx).Ok? ==> Sound(src, ScanChar(src, lx).value)
    ensures !ScanChar(src, lx).Err?
  {
    var i, c := lx.pos, src[lx.pos];
    match lx.mode
    case Start =>
      StartAlnumSound(src, lx);
    case InWord =>
      assert ScanChar(src, lx) == Ok(Lexer(i + 1, InWord, lx.start, lx.text + [c], lx.tokens));
      ExtendWordSound(src, lx);
    case AfterPrefix =>
      assert ScanChar(src, lx) == Ok(Lexer(i + 1, InNumber, lx.start, lx.text + [c], lx.tokens));
      ExtendNumberSound(src, lx);
    case InNumber =>
      assert ScanChar(src, lx) == Ok(Lexer(i + 1, InNumber, lx.start, lx.text + [c], lx.tokens));
      ExtendNumberSound(src, lx);
  }

  /** A letter or digit between lexemes starts a number or a word, or panics on the look-ahead for `x`. */
  lemma StartAlnumSound(src: string, lx: Lexer)
    requires lx.pos < |src| && Sound(src, lx) && IsAlnum(src[lx.pos]) && lx.mode == Start
    ensures ScanChar(src, lx).Ok? ==> Sound(src, ScanChar(src, lx).value)
    ensures !ScanChar(src, lx).Err?
  {
    var i, c := lx.pos, src[lx.pos];
    if c == '0' && i + 1 == |src| {
      assert ScanChar(src, lx) == Panic;
    } else if c == '0' && src[i + 1] == 'x' {
      assert ScanChar(src, lx) == Ok(Lexer(i + 2, AfterPrefix, i, "", lx.tokens));
      PrefixSound(src, lx);
    } else {
      assert ScanChar(src, lx) == Ok(Lexer(i + 1, InWord, i, [c], lx.tokens));
      StartWordSound(src, lx);
    }
  }

  /** One step of the scan keeps the invariant, and a failing step reports its position and character. */
  lemma ScanCharSound(src: string, lx: Lexer)
    requires lx.pos < |src| && Sound(src, lx)
    ensures ScanChar(src, lx).Ok? ==> Sound(src, ScanChar(src, lx).value)
    ensures ScanChar(src, lx).Err? ==> ErrorShape(src, ScanChar(src, lx).error)
  {
    var c := src[lx.pos];
    if c == ' ' || c == ';' {
      ScanDelimiterSound(src, lx);
    } else if IsAlnum(c) {
      ScanAlnumSound(src, lx);
    }
  }

  lemma {:induction false} ScanFromSound(src: string, lx: Lexer)
    requires Sound(src, lx)
    ensures ScanFrom(src, lx).Ok? ==> Final(src, ScanFrom(src, lx).value)
    ensures ScanFrom(src, lx).Err? ==> ErrorShape(src, ScanFrom(src, lx).error)
    decreases |src| - lx.pos
  {
    if lx.pos < |src| {
      ScanCharSound(src, lx);
      match ScanChar(src, lx)
      case Ok(next) => ScanFromSound(src, next);
      case Err(_) =>
      case Panic =>
    } else {
      TokensBeforeIndexed(src, lx.tokens, lx.start);
    }
  }

  lemma ScanSound(src: string)
    ensures Scan(src).Ok? ==> Final(src, Scan(src).value)
    ensures Scan(src).Err? ==> ErrorShape(src, Scan(src).error)
  {
    ScanFromSound(src, Lexer(0, Start, 0, "", []));
  }

  /**
   * Every word of a successful scan is a whole lexeme: it begins the text or
   * follows a space or `;`, it does not begin with `0x`, and it is the run of
   * letters and digits that starts at its offset. Every number's offset is
   * that of a `0x` prefix that begins a lexeme, and its value is the
   * hexadecimal value of the digits that follow. Both are closed by a space
   * or `;`.
   */
  lemma ScanTokensAnchored(src: string)
    requires Scan(src).Ok?
    ensures forall k :: 0 <= k < |Scan(src).value| ==> Anchored(src, Scan(src).value[k])
  {
    ScanSound(src);
  }

  /** The tokens of a successful scan come out in source order. */
  lemma ScanInSourceOrder(src: string)
    requires Scan(src).Ok?
    ensures InSourceOrder(Scan(src).value)
  {
    ScanSound(src);
  }

  /** A successful scan emits exactly one `EOL(i)` per `;` at index `i`, in order. */
  lemma ScanOneEolPerSemicolon(src: string)
    requires Scan(src).Ok?
    ensures EolPositions(Scan(src).value) == Semicolons(src, |src|)
  {
    ScanSound(src);
  }

  /**
   * A successful scan emits exactly one word or number per space or `;`:
   * the closing indices of the words and numbers are exactly the indices of
   * the spaces and `;` characters, in order. A lexeme that nothing closes is
   * not emitted, and no delimiter goes without its token.
   */
  lemma ScanOneTokenPerDelimiter(src: string)
    requires Scan(src).Ok?
    ensures ClosePositions(src, Scan(src).value) == Delimiters(src, |src|)
  {
    ScanSound(src);
  }

  /** A successful scan emits one token per space and two per `;`, and no others. */
  lemma ScanTokenCount(src: string)
    requires Scan(src).Ok?
    ensures |Scan(src).value| == |Delimiters(src, |src|)| + |Semicolons(src, |src|)|
  {
    ScanSound(src);
    TokenCount(src, Scan(src).value);
  }

  /** A text without a space or `;` emits nothing, whatever lexemes it holds. */
  lemma ScanWithoutDelimiterIsEmpty(src: string)
    requires Scan(src).Ok? && forall k :: 0 <= k < |src| ==> !IsDelimiter(src[k])
    ensures Scan(src).value == []
  {
    ScanTokenCount(src);
    NoDelimiterBefore(src, |src|);
  }

  /**
   * A text with an offending index is never accepted: an illegal character,
   * or a space or `;` right after a `0x` that begins a lexeme.
   */
  lemma ScanRejectsOffending(src: string, k: nat)
    requires Offending(src, k)
    ensures !Scan(src).Ok?
  {
    ScanSound(src);
  }

  /**
   * Conversely, a text without an offending index is never rejected with an
   * error (it may still panic).
   */
  lemma ScanCleanNeverErrs(src: string)
    requires CleanUpTo(src, |src|)
    ensures !Scan(src).Err?
  {
    ScanSound(src);
  }

  /**
   * A failed scan reports the first offending index, with its character as
   * the pattern (`\n` for a newline): an illegal character, or a space or `;`
   * directly after a `0x` that begins a lexeme.
   */
  lemma ScanErrorShape(src: string)
    requires Scan(src).Err?
    ensures ErrorShape(src, Scan(src).error)
  {
    ScanSound(src);
  }

  /**
   * After a `0x` prefix read between lexemes, a space or `;` in place of the
   * first digit is rejected at its own index.
   */
  lemma PrefixThenDelimiterFails(src: string, lx: Lexer)
    requires lx.mode == Start && lx.pos + 2 < |src|
    requires src[lx.pos] == '0' && src[lx.pos + 1] == 'x'
    requires src[lx.pos + 2] == ' ' || src[lx.pos + 2] == ';'
    ensures ScanFrom(src, lx) == Err(TokenizerError(lx.pos + 2, [src[lx.pos + 2]]))
  {
    var next := ScanChar(src, lx).value;
    assert next.mode == AfterPrefix && next.pos == lx.pos + 2;
  }

  // ---------------------------------------------------------------------
  // Where the scan panics, and the order of end-of-line tokens

  /** The first index of the run of letters and digits that ends just before `q`. */
  function RunStart(src: string, q: nat): (o: nat)
    requires q <= |src|
    ensures o <= q
    ensures o == 0 || !IsAlnum(src[o - 1])
  {
    if q > 0 && IsAlnum(src[q - 1]) then RunStart(src, q - 1) else q
  }

  /**
   * The scanner panics at index `q`: a `0` that begins a lexeme is the last
   * character (the source looks one past it for an `x`), or a space or `;`
   * closes a `0x` literal whose digits do not convert to a byte.
   */
  ghost predicate PanicAt(src: string, q: nat) {
    q < |src| &&
    ((q + 1 == |src| && src[q] == '0' && LexemeStart(src, q)) ||
     (IsDelimiter(src[q]) &&
      var o := RunStart(src, q);
      LexemeStart(src, o) && HasPrefix(src, o) && o + 2 < q && FromHex(src[o + 2..q]).None?))
  }

  /** No index below `n` panics. */
  ghost predicate CalmUpTo(src: string, n: nat) {
    forall q :: 0 <= q < n ==> !PanicAt(src, q)
  }

  /** `RunStart` finds the start of a run that follows a character other than a letter or digit. */
  lemma {:induction false} RunStartOfRun(src: string, o: nat, q: nat)
    requires o <= q <= |src|
    requires forall k :: o <= k < q ==> IsAlnum(src[k])
    requires o == 0 || !IsAlnum(src[o - 1])
    ensures RunStart(src, q) == o
    decreases q - o
  {
    if o < q {
      RunStartOfRun(src, o, q - 1);
    }
  }

  /** A panic index is never an offending one. */
  lemma PanicIsNotOffending(src: string, q: nat)
    requires PanicAt(src, q)
    ensures !Offending(src, q)
  {
    if IsDelimiter(src[q]) && 2 <= q && LexemeStart(src, q - 2) && HasPrefix(src, q - 2) {
      RunStartOfRun(src, q - 2, q);
    }
  }

  /** Closing the pending lexeme fails exactly at a panic index. */
  lemma DelimiterPanics(src: string, lx: Lexer)
    requires lx.pos < |src| && PendingOk(src, lx)
    requires IsDelimiter(src[lx.pos]) && lx.mode != AfterPrefix
    ensures Flush(lx).None? <==> PanicAt(src, lx.pos)
  {
    var i := lx.pos;
    match lx.mode
    case Start =>
      RunStartOfRun(src, i, i);
    case InWord =>
      AlnumSlice(src, lx.start, i, lx.text);
      RunStartOfRun(src, lx.start, i);
    case InNumber =>
      AlnumSlice(src, lx.start + 2, i, lx.text);
      RunStartOfRun(src, lx.start, i);
  }

  /** Reading a letter or digit panics exactly at a panic index, and skips no panic index. */
  lemma AlnumPanics(src: string, lx: Lexer)
    requires lx.pos < |src| && PendingOk(src, lx) && IsAlnum(src[lx.pos])
    ensures ScanChar(src, lx).Panic? ==> PanicAt(src, lx.pos)
    ensures ScanChar(src, lx).Ok? ==> !PanicAt(src, lx.pos)
    ensures ScanChar(src, lx).Ok? && ScanChar(src, lx).value.pos == lx.pos + 2 ==> !PanicAt(src, lx.pos + 1)
  {
    var i := lx.pos;
    match lx.mode
    case Start =>
    case InWord =>
      assert src[i - 1] == lx.text[i - 1 - lx.start];
    case AfterPrefix =>
    case InNumber =>
      assert src[i - 1] == lx.text[i - 3 - lx.start];
  }

  /** One step of the scan panics exactly at a panic index, and a step that succeeds passes none. */
  lemma ScanCharPanics(src: string, lx: Lexer)
    requires lx.pos < |src| && PendingOk(src, lx)
    ensures ScanChar(src, lx).Panic? ==> PanicAt(src, lx.pos)
    ensures ScanChar(src, lx).Ok? ==> forall q :: lx.pos <= q < ScanChar(src, lx).value.pos ==> !PanicAt(src, q)
  {
    var c := src[lx.pos];
    if IsDelimiter(c) && lx.mode != AfterPrefix {
      DelimiterPanics(src, lx);
    } else if IsAlnum(c) {
      AlnumPanics(src, lx);
    }
  }

  /** The rest of the scan ends in a panic only at a panic index with no offending or panic index before it. */
  lemma {:induction false} ScanFromPanics(src: string, lx: Lexer)
    requires Sound(src, lx) && CalmUpTo(src, lx.pos)
    ensures ScanFrom(src, lx).Ok? ==> CalmUpTo(src, |src|)
    ensures ScanFrom(src, lx).Err? ==> CalmUpTo(src, ScanFrom(src, lx).error.position)
    ensures ScanFrom(src, lx).Panic? ==> exists q :: PanicAt(src, q) && CleanUpTo(src, q) && CalmUpTo(src, q)
    decreases |src| - lx.pos
  {
    if lx.pos < |src| {
      ScanCharSound(src, lx);
      ScanCharPanics(src, lx);
      match ScanChar(src, lx)
      case Ok(next) => ScanFromPanics(src, next);
      case Err(_) =>
      case Panic => assert PanicAt(src, lx.pos);
    }
  }

  /**
   * The outcome of a scan is fixed by the first index that is offending or
   * panics. With neither, the scan succeeds; it panics exactly when a panic
   * index comes first; otherwise it reports the first offending index, and no
   * panic index lies before it.
   */
  lemma ScanOutcome(src: string)
    ensures Scan(src).Ok? <==> CleanUpTo(src, |src|) && CalmUpTo(src, |src|)
    ensures Scan(src).Panic? <==> exists q :: PanicAt(src, q) && CleanUpTo(src, q) && CalmUpTo(src, q)
    ensures Scan(src).Err? ==> ErrorShape(src, Scan(src).error) && CalmUpTo(src, Scan(src).error.position)
  {
    ScanSound(src);
    ScanFromPanics(src, Lexer(0, Start, 0, "", []));
    if q :| PanicAt(src, q) && CleanUpTo(src, q) && CalmUpTo(src, q) {
      PanicIsNotOffending(src, q);
    }
  }

  /** Each end-of-line token directly follows the word or number that its `;` closed. */
  ghost predicate EolsFollowClosed(src: string, ts: seq<Token>) {
    ts == [] ||
    (EolsFollowClosed(src, ts[..|ts| - 1]) &&
     (ts[|ts| - 1].EOL? ==> |ts| >= 2 && !ts[|ts| - 2].EOL? && CloseAt(src, ts[|ts| - 2]) == ts[|ts| - 1].offset))
  }

  /** `EolsFollowClosed`, index by index. */
  lemma {:induction false} EolsFollowIndexed(src: string, ts: seq<Token>)
    requires EolsFollowClosed(src, ts)
    ensures forall k :: 0 <= k < |ts| && ts[k].EOL? ==> 0 < k && !ts[k - 1].EOL? && CloseAt(src, ts[k - 1]) == ts[k].offset
  {
    if ts != [] {
      var init := ts[..|ts| - 1];
      EolsFollowIndexed(src, init);
      forall k | 0 <= k < |ts| - 1 && ts[k].EOL?
        ensures 0 < k && !ts[k - 1].EOL? && CloseAt(src, ts[k - 1]) == ts[k].offset
      {
        assert ts[k] == init[k];
        assert ts[k - 1] == init[k - 1];
      }
    }
  }

  /** Closing a lexeme, with or without an end-of-line token after it, keeps each end-of-line token in place. */
  lemma CloseEols(src: string, lx: Lexer)
    requires lx.pos < |src| && PendingOk(src, lx) && EolsFollowClosed(src, lx.tokens)
    requires IsDelimiter(src[lx.pos]) && lx.mode != AfterPrefix && Flush(lx).Some?
    ensures EolsFollowClosed(src, Flush(lx).value)
    ensures EolsFollowClosed(src, Flush(lx).value + [EOL(lx.pos)])
  {
    FlushAnchored(src, lx);
    var closed := Flush(lx).value;
    assert closed[..|closed| - 1] == lx.tokens;
    var ts := closed + [EOL(lx.pos)];
    assert ts[..|ts| - 1] == closed;
    assert ts[|ts| - 2] == closed[|lx.tokens|];
  }

  /** One step of the scan keeps each end-of-line token right after the lexeme its `;` closed. */
  lemma ScanCharEols(src: string, lx: Lexer)
    requires lx.pos < |src| && PendingOk(src, lx) && EolsFollowClosed(src, lx.tokens)
    ensures ScanChar(src, lx).Ok? ==> EolsFollowClosed(src, ScanChar(src, lx).value.tokens)
  {
    if IsDelimiter(src[lx.pos]) && lx.mode != AfterPrefix && Flush(lx).Some? {
      CloseEols(src, lx);
    } else {
      assert ScanChar(src, lx).Ok? ==> ScanChar(src, lx).value.tokens == lx.tokens;
    }
  }

  lemma {:induction false} ScanFromEols(src: string, lx: Lexer)
    requires Sound(src, lx) && EolsFollowClosed(src, lx.tokens)
    ensures ScanFrom(src, lx).Ok? ==> EolsFollowClosed(src, ScanFrom(src, lx).value)
    decreases |src| - lx.pos
  {
    if lx.pos < |src| {
      ScanCharSound(src, lx);
      ScanCharEols(src, lx);
      match ScanChar(src, lx)
      case Ok(next) => ScanFromEols(src, next);
      case Err(_) =>
      case Panic =>
    }
  }

  /**
   * In a successful scan, every end-of-line token comes directly after a word
   * or number that its own `;` closed.
   */
  lemma ScanEolFollowsLexeme(src: string)
    requires Scan(src).Ok?
    ensures var ts := Scan(src).value;
      forall k :: 0 <= k < |ts| && ts[k].EOL? ==> 0 < k && !ts[k - 1].EOL? && CloseAt(src, ts[k - 1]) == ts[k].offset
  {
    ScanSound(src);
    ScanFromEols(src, Lexer(0, Start, 0, "", []));
    EolsFollowIndexed(src, Scan(src).value);
  }

  /** Leading zeros let a long literal fit a byte; a literal over 255 does not convert. */
  lemma LongLiteralExample()
    ensures FromHex("00FF") == Some(255)
    ensures FromHex("100") == None
  {
    assert "00FF"[..3] == "00F" && "00F"[..2] == "00" && "00"[..1] == "0" && "0"[..0] == "";
    assert "100"[..2] == "10" && "10"[..1] == "1" && "1"[..0] == "";
  }

  // ---------------------------------------------------------------------
  // Worked examples

  /** A statement: a word and its terminator. */
  lemma ScanWordExample(src: string)
    requires src == "ADD;"
    ensures Scan(src) == Ok([Word(0, "ADD"), EOL(3)])
  {
    var l1, l2, l3 := Lexer(1, InWord, 0, "A", []), Lexer(2, InWord, 0, "AD", []), Lexer(3, InWord, 0, "ADD", []);
    var l4 := Lexer(4, Start, 4, "", [Word(0, "ADD"), EOL(3)]);
    assert ScanChar(src, Lexer(0, Start, 0, "", [])) == Ok(l1);
    assert ScanChar(src, l1) == Ok(l2) by {
      assert "A" + "D" == "AD";
    }
    assert ScanChar(src, l2) == Ok(l3) by {
      assert "AD" + "D" == "ADD";
    }
    assert ScanChar(src, l3) == Ok(l4) by {
      var none: seq<Token> := [];
      assert none + [Word(0, "ADD")] == [Word(0, "ADD")];
      assert [Word(0, "ADD")] + [EOL(3)] == [Word(0, "ADD"), EOL(3)];
    }
    assert ScanFrom(src, l4) == Ok([Word(0, "ADD"), EOL(3)]);
    assert ScanFrom(src, l3) == ScanFrom(src, l4);
    assert ScanFrom(src, l2) == ScanFrom(src, l3);
    assert ScanFrom(src, l1) == ScanFrom(src, l2);
  }

  /** A hexadecimal literal is emitted with the offset of its `0x`. */
  lemma ScanNumberExample(src: string)
    requires src == "0xA "
    ensures Scan(src) == Ok([Number(0, 10)])
  {
    var l0, l2, l3 := Lexer(0, Start, 0, "", []), Lexer(2, AfterPrefix, 0, "", []), Lexer(3, InNumber, 0, "A", []);
    var l4 := Lexer(4, Start, 4, "", [Number(0, 10)]);
    assert src[0] == '0' && src[1] == 'x' && src[2] == 'A' && src[3] == ' ';
    assert ScanChar(src, l0) == Ok(l2);
    assert ScanChar(src, l2) == Ok(l3) by {
      assert "" + "A" == "A";
    }
    assert Flush(l3) == Some([Number(0, 10)]) by {
      assert HexValue("A") == 10 by {
        assert "A"[..0] == "";
      }
      ShortLiteralFits("A");
      var none: seq<Token> := [];
      assert none + [Number(0, 10)] == [Number(0, 10)];
    }
    assert ScanChar(src, l3) == Ok(l4);
    assert ScanFrom(src, l4) == Ok([Number(0, 10)]);
    assert ScanFrom(src, l3) == ScanFrom(src, l4);
    assert ScanFrom(src, l2) == ScanFrom(src, l3);
    assert ScanFrom(src, l0) == ScanFrom(src, l2);
  }

  /** A space or `;` with nothing pending emits an empty word. */
  lemma ScanEmptyWordExample(src: string)
    requires src == " ;"
    ensures Scan(src) == Ok([Word(0, ""), Word(1, ""), EOL(1)])
  {
    var l1 := Lexer(1, Start, 1, "", [Word(0, "")]);
    var l2 := Lexer(2, Start, 2, "", [Word(0, ""), Word(1, ""), EOL(1)]);
    assert ScanChar(src, Lexer(0, Start, 0, "", [])) == Ok(l1) by {
      var none: seq<Token> := [];
      assert none + [Word(0, "")] == [Word(0, "")];
    }
    assert ScanChar(src, l1) == Ok(l2) by {
      assert [Word(0, "")] + [Word(1, "")] + [EOL(1)] == [Word(0, ""), Word(1, ""), EOL(1)];
    }
    assert ScanFrom(src, l2) == Ok([Word(0, ""), Word(1, ""), EOL(1)]);
    assert ScanFrom(src, l1) == ScanFrom(src, l2);
  }

  /**
   * What the predicates above rule out: a word that starts inside a lexeme,
   * a number read as a word, and an error reported at a space that follows
   * a `0x` inside a longer lexeme.
   */
  lemma LexemeExamples()
    ensures !Anchored("AB ", Word(1, "B"))
    ensures !Anchored("0x1 ", Word(0, "0x1"))
    ensures !ErrorShape("A0x B", TokenizerError(3, " "))
  {
  }

  /** A line break is not a statement terminator here: it is rejected and reported as `\n`. */
  lemma ScanRejectsNewline(src: string)
    requires src == "A\n"
    ensures Scan(src) == Err(TokenizerError(1, "\\n"))
  {
    var l1 := Lexer(1, InWord, 0, "A", []);
    assert ScanChar(src, Lexer(0, Start, 0, "", [])) == Ok(l1);
    assert ScanChar(src, l1) == Err(TokenizerError(1, "\\n"));
    assert ScanFrom(src, l1) == Err(TokenizerError(1, "\\n"));
  }

  /** A lexeme that no space or `;` closes is never emitted. */
  lemma ScanDropsUnterminated(src: string)
    requires src == "AB"
    ensures Scan(src) == Ok([])
  {
    var l1, l2 := Lexer(1, InWord, 0, "A", []), Lexer(2, InWord, 0, "AB", []);
    assert ScanChar(src, Lexer(0, Start, 0, "", [])) == Ok(l1);
    assert ScanChar(src, l1) == Ok(l2) by {
      assert "A" + "B" == "AB";
    }
    assert ScanFrom(src, l2) == Ok([]);
    assert ScanFrom(src, l1) == ScanFrom(src, l2);
  }

  /** A literal wider than a byte panics when it is closed. */
  lemma ScanPanicsOnWideLiteral(src: string)
    requires src == "0x100;"
    ensures Scan(src) == Panic
  {
    var l2 := Lexer(2, AfterPrefix, 0, "", []);
    var l3, l4, l5 := Lexer(3, InNumber, 0, "1", []), Lexer(4, InNumber, 0, "10", []), Lexer(5, InNumber, 0, "100", []);
    assert ScanChar(src, Lexer(0, Start, 0, "", [])) == Ok(l2);
    assert ScanChar(src, l2) == Ok(l3) by {
      assert "" + "1" == "1";
    }
    assert ScanChar(src, l3) == Ok(l4) by {
      assert "1" + "0" == "10";
    }
    assert ScanChar(src, l4) == Ok(l5) by {
      assert "10" + "0" == "100";
    }
    assert src[5] == ';';
    assert Flush(l5) == None by {
      assert HexValue("100") == 256 by {
        assert "100"[..2] == "10" && "10"[..1] == "1" && "1"[..0] == "";
      }
    }
    assert ScanChar(src, l5) == Panic;
    assert ScanFrom(src, l5) == Panic;
    assert ScanFrom(src, l4) == Panic;
    assert ScanFrom(src, l3) == Panic;
    assert ScanFrom(src, l2) == Panic;
  }

  /** A `0` that starts a lexeme as the last character panics: the scanner looks past the end for an `x`. */
  lemma ScanPanicsOnTrailingZero(src: string)
    requires src == "A 0"
    ensures Scan(src) == Panic
  {
    var l1, l2 := Lexer(1, InWord, 0, "A", []), Lexer(2, Start, 2, "", [Word(0, "A")]);
    assert ScanChar(src, Lexer(0, Start, 0, "", [])) == Ok(l1);
    assert ScanChar(src, l1) == Ok(l2) by {
      var none: seq<Token> := [];
      assert none + [Word(0, "A")] == [Word(0, "A")];
    }
    assert ScanChar(src, l2) == Panic;
    assert ScanFrom(src, l2) == Panic;
    assert ScanFrom(src, l1) == Panic;
  }
}
