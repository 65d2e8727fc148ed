/** Builds a `FunctionSignature` from query tokens with a two-state machine:
    in the return state an identifier becomes the return type, otherwise it
    is appended to the parameters. */
module SignatureParser {
  import opened Tokenizer
  import opened Collector

  /** The parser's variables between two tokens. */
  datatype ParserState = ParserState(returnType: string, params: seq<string>, isReturn: bool)

  const START := ParserState("", [], true)

  /** The effect of one token on the parser's variables. */
  function Step(st: ParserState, t: Token): ParserState {
    match t
    case Identifier(s) =>
      if st.isReturn then st.(returnType := s, isReturn := false)
      else st.(params := st.params + [s])
    case LeftParen => st.(isReturn := false)
    case RightParen => st.(isReturn := true)
    case Comma => st
  }

  /** The parser's variables after reading `ts` from state `st`. */
  function Run(st: ParserState, ts: seq<Token>): ParserState
    decreases |ts|
  {
    if ts == [] then st else Run(Step(st, ts[0]), ts[1..])
  }

  /** The signature the parser builds for `ts`. */
  function Parse(ts: seq<Token>): FunctionSignature {
    var st := Run(START, ts);
    FunctionSignature(st.returnType, st.params, false)
  }

  /** Builds the signature of a query; the variadic flag is never set. */
  method FromTokens(tokens: seq<Token>) returns (sig: FunctionSignature)
    ensures sig == Parse(tokens)
    ensures !sig.isVariadic
  {
    var returnType := "";
    var params: seq<string> := [];
    var isVariadic := false;
    var isReturn := true;
    for i := 0 to |tokens|
      invariant Run(ParserState(returnType, params, isReturn), tokens[i..]) == Run(START, tokens)
    {
      assert tokens[i..][1..] == tokens[i + 1..];
      match tokens[i]
      case Identifier(s) =>
        if isReturn {
          returnType := s;
          isReturn := false;
        } else {
          params := params + [s];
        }
      case LeftParen =>
        isReturn := false;
      case RightParen =>
        isReturn := true;
      case Comma =>
    }
    sig := FunctionSignature(returnType, params, isVariadic);
  }

  // A reference description of the parser's result, by what the tokens read so far are.

  /** Whether the parser is in the return state after `ts`: no token but
      commas has been read yet, or the last token other than a comma is `)`. */
  function InReturnState(ts: seq<Token>): bool
    decreases |ts|
  {
    if ts == [] then true
    else
      var last := ts[|ts| - 1];
      if last.Comma? then InReturnState(ts[..|ts| - 1]) else last.RightParen?
  }

  /** The last identifier read in the return state, or `""` if there is none. */
  function ReturnTypeOf(ts: seq<Token>): string
    decreases |ts|
  {
    if ts == [] then ""
    else
      var prefix, last := ts[..|ts| - 1], ts[|ts| - 1];
      if last.Identifier? && InReturnState(prefix) then last.text else ReturnTypeOf(prefix)
  }

  /** The identifiers read outside the return state, in input order. */
  function ParamsOf(ts: seq<Token>): seq<string>
    decreases |ts|
  {
    if ts == [] then []
    else
      var prefix, last := ts[..|ts| - 1], ts[|ts| - 1];
      ParamsOf(prefix) + if last.Identifier? && !InReturnState(prefix) then [last.text] else []
  }

  lemma {:induction false} RunAppend(st: ParserState, a: seq<Token>, b: seq<Token>)
    ensures Run(st, a + b) == Run(Run(st, a), b)
    decreases |a|
  {
    if a != [] {
      assert (a + b)[1..] == a[1..] + b;
      RunAppend(Step(st, a[0]), a[1..], b);
    } else {
      assert a + b == b;
    }
  }

  /** The parser matches the reference description: the return type is the
      last identifier read in the return state, the parameters are the other
      identifiers in order, and `(` leaves the return state while `)`
      re-enters it. */
  lemma {:induction false} ParseCharacterized(ts: seq<Token>)
    ensures Parse(ts) == FunctionSignature(ReturnTypeOf(ts), ParamsOf(ts), false)
    ensures Run(START, ts).isReturn == InReturnState(ts)
    decreases |ts|
  {
    if ts != [] {
      var prefix, last := ts[..|ts| - 1], ts[|ts| - 1];
      ParseCharacterized(prefix);
      assert ts == prefix + [last];
      RunAppend(START, prefix, [last]);
    }
  }

  /** Commas have no effect on the signature built. */
  lemma ParseIgnoresComma(a: seq<Token>, b: seq<Token>)
    ensures Parse(a + [Comma] + b) == Parse(a + b)
  {
    RunAppend(START, a + [Comma], b);
    RunAppend(START, a, [Comma]);
    RunAppend(START, a, b);
  }

  /** Parsing the tokens of `int(int,int)` in the form the query grammar
      describes gives return type `int` and two `int` parameters. */
  lemma ParseGrammarExample()
    ensures Parse([Identifier("int"), LeftParen, Identifier("int"), Comma, Identifier("int"), RightParen])
      == FunctionSignature("int", ["int", "int"], false)
  {
  }

  /** What the lexer actually produces for `int(int,int)` parses to the same
      signature, although every delimiter was swallowed. */
  lemma ParseQueryExample()
    ensures Parse(Lex("int(int,int)")) == FunctionSignature("int", ["int", "int"], false)
  {
    LexExample();
  }

  /** With spaces and an arrow, the arrow stays in the return type and the
      space after the comma stays in the second parameter. */
  lemma ParseArrowQueryExample()
    ensures Parse(Lex("int -> (int, int)")) == FunctionSignature("int -> ", ["int", " int"], false)
  {
    LexArrowExample();
  }
}
