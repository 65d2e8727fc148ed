/** The canonical text of a signature that `fuzzy_match` compares:
    `<return type>(<p1>,<p2>,...,<pn>,)`, every parameter followed by a comma. */
module Canonicalizer {
  import opened Collector
  import opened Tokenizer
  import opened SignatureParser

  /** Every parameter followed by a comma, in order. */
  function JoinParams(ps: seq<string>): string
    decreases |ps|
  {
    if ps == [] then [] else ps[0] + [','] + JoinParams(ps[1..])
  }

  /** The canonical text of `sig`. */
  function Render(sig: FunctionSignature): string {
    sig.returnType + ['('] + JoinParams(sig.params) + [')']
  }

  /** The total width the parameters take in the canonical text. */
  function ParamsWidth(ps: seq<string>): nat
    decreases |ps|
  {
    if ps == [] then 0 else |ps[0]| + 1 + ParamsWidth(ps[1..])
  }

  /** Builds the canonical text of `sig` by appending, as `fuzzy_match` does
      for both of its arguments. */
  method CanonicalForm(sig: FunctionSignature) returns (text: string)
    ensures text == Render(sig)
  {
    text := sig.returnType;
    text := text + ['('];
    for i := 0 to |sig.params|
      invariant text == sig.returnType + ['('] + JoinParams(sig.params[..i])
    {
      JoinParamsPush(sig.params[..i], sig.params[i]);
      assert sig.params[..i + 1] == sig.params[..i] + [sig.params[i]];
      text := text + sig.params[i];
      text := text + [','];
    }
    assert sig.params[..|sig.params|] == sig.params;
    text := text + [')'];
  }

  /** `fuzzy_match`: the similarity of the candidate's canonical text to the
      query's, asked in that order. The similarity measure (Jaro-Winkler from
      an external library, on 64-bit floats) is a parameter. */
  method FuzzyMatch(candidate: FunctionSignature, query: FunctionSignature,
                    similarity: (string, string) -> real) returns (score: real)
    ensures score == similarity(Render(candidate), Render(query))
  {
    var candidateText := CanonicalForm(candidate);
    var queryText := CanonicalForm(query);
    score := similarity(candidateText, queryText);
  }

  lemma {:induction false} JoinParamsPush(ps: seq<string>, p: string)
    ensures JoinParams(ps + [p]) == JoinParams(ps) + p + [',']
    decreases |ps|
  {
    if ps == [] {
      assert ps + [p] == [p];
    } else {
      assert (ps + [p])[1..] == ps[1..] + [p];
      JoinParamsPush(ps[1..], p);
    }
  }

  lemma {:induction false} JoinParamsLength(ps: seq<string>)
    ensures |JoinParams(ps)| == ParamsWidth(ps)
    decreases |ps|
  {
    if ps != [] {
      JoinParamsLength(ps[1..]);
    }
  }

  /** The canonical text is the return type, two parentheses, and every
      parameter with its comma. */
  lemma RenderLength(sig: FunctionSignature)
    ensures |Render(sig)| == |sig.returnType| + 2 + ParamsWidth(sig.params)
  {
    JoinParamsLength(sig.params);
  }

  /** No parameters render as `()`, and a single `void` parameter as `(void,)`:
      the two forms differ. */
  lemma RenderNoParamsDiffersFromVoid(rt: string, v: bool, w: bool)
    ensures Render(FunctionSignature(rt, [], v)) == rt + "()"
    ensures Render(FunctionSignature(rt, ["void"], w)) == rt + "(void,)"
    ensures Render(FunctionSignature(rt, [], v)) != Render(FunctionSignature(rt, ["void"], w))
  {
  }

  /** A non-empty parameter list renders to text ending in `,`. */
  lemma JoinParamsLast(ps: seq<string>)
    requires ps != []
    ensures JoinParams(ps) != [] && JoinParams(ps)[|JoinParams(ps)| - 1] == ','
  {
  }

  /** The front end substitutes `void` for an empty parameter list, so a query
      with no parameters never renders to the same text as a candidate. */
  lemma CollectedNeverRendersEmptyGroup(candidate: FunctionSignature, query: FunctionSignature)
    requires IsCollected(candidate)
    requires query.params == []
    ensures Render(candidate) != Render(query)
  {
    var c, q := Render(candidate), Render(query);
    JoinParamsLast(candidate.params);
    var j := JoinParams(candidate.params);
    assert c[|c| - 2] == j[|j| - 1] == ',';
    assert q[|q| - 2] == '(';
  }

  // The canonical text read back as a query.

  /** A signature the canonical text can carry back through the lexer and the
      parser: no delimiter in the return type, every parameter non-empty and
      delimiter-free, and not variadic. */
  predicate Readable(sig: FunctionSignature) {
    !sig.isVariadic &&
    NoDelimiters(sig.returnType) &&
    forall k :: 0 <= k < |sig.params| ==> sig.params[k] != [] && NoDelimiters(sig.params[k])
  }

  /** One `Identifier` per parameter. */
  function Identifiers(ps: seq<string>): seq<Token>
    decreases |ps|
  {
    if ps == [] then [] else [Identifier(ps[0])] + Identifiers(ps[1..])
  }

  lemma {:induction false} LexJoinParams(ps: seq<string>, tail: string)
    requires forall k :: 0 <= k < |ps| ==> ps[k] != [] && NoDelimiters(ps[k])
    ensures Lex(JoinParams(ps) + tail) == Identifiers(ps) + Lex(tail)
    decreases |ps|
  {
    if ps == [] {
      assert JoinParams(ps) + tail == tail;
    } else {
      assert JoinParams(ps) + tail == ps[0] + [','] + (JoinParams(ps[1..]) + tail);
      LexSwallow(ps[0], ',', JoinParams(ps[1..]) + tail);
      LexJoinParams(ps[1..], tail);
    }
  }

  /** Outside the return state, identifiers are appended to the parameters. */
  lemma {:induction false} RunIdentifiers(st: ParserState, ps: seq<string>)
    requires !st.isReturn
    ensures Run(st, Identifiers(ps)) == st.(params := st.params + ps)
    decreases |ps|
  {
    if ps == [] {
      assert st.params + ps == st.params;
    } else {
      var next := st.(params := st.params + [ps[0]]);
      calc {
        Run(st, Identifiers(ps));
        { assert Identifiers(ps)[1..] == Identifiers(ps[1..]); }
        Run(next, Identifiers(ps[1..]));
        { RunIdentifiers(next, ps[1..]); }
        next.(params := next.params + ps[1..]);
        { assert st.params + [ps[0]] + ps[1..] == st.params + ps; }
        st.(params := st.params + ps);
      }
    }
  }

  /** The lexer and the parser read the canonical text of a readable
      signature back to that signature. */
  lemma RenderRoundTrip(sig: FunctionSignature)
    requires Readable(sig)
    ensures Parse(Lex(Render(sig))) == sig
  {
    var rt, ps := sig.returnType, sig.params;
    var group := JoinParams(ps) + [')'];
    LexJoinParams(ps, [')']);
    assert Lex([')']) == [RightParen];
    var inner := Identifiers(ps) + [RightParen];
    assert Render(sig) == rt + ['('] + group;
    var ts: seq<Token>;
    if rt == [] {
      assert Render(sig) == ['('] + group;
      assert (['('] + group)[1..] == group;
      ts := [LeftParen] + inner;
    } else {
      LexSwallow(rt, '(', group);
      ts := [Identifier(rt)] + inner;
    }
    assert Lex(Render(sig)) == ts;
    var afterHead := ParserState(rt, [], false);
    assert Run(START, ts) == Run(afterHead, inner) by {
      assert ts[1..] == inner;
    }
    RunAppend(afterHead, Identifiers(ps), [RightParen]);
    RunIdentifiers(afterHead, ps);
    assert [] + ps == ps;
  }

  /** Distinct readable signatures have distinct canonical texts. */
  lemma RenderInjective(a: FunctionSignature, b: FunctionSignature)
    requires Readable(a) && Readable(b)
    requires Render(a) == Render(b)
    ensures a == b
  {
    RenderRoundTrip(a);
    RenderRoundTrip(b);
  }

  /** Every parameter the parser returns, and its return type unless empty,
      is the text of one of the identifier tokens it read. */
  lemma {:induction false} ParsedFromIdentifiers(ts: seq<Token>)
    ensures forall p :: p in ParamsOf(ts) ==> Identifier(p) in ts
    ensures ReturnTypeOf(ts) == [] || Identifier(ReturnTypeOf(ts)) in ts
    decreases |ts|
  {
    if ts != [] {
      var prefix := ts[..|ts| - 1];
      ParsedFromIdentifiers(prefix);
      assert ts == prefix + [ts[|ts| - 1]];
    }
  }

  /** Every query the parser builds from lexed text is readable, so the
      canonical text of a parsed query, queried again, gives the same query. */
  lemma ParsedQueryRoundTrip(s: string)
    ensures Readable(Parse(Lex(s)))
    ensures Parse(Lex(Render(Parse(Lex(s))))) == Parse(Lex(s))
  {
    var ts := Lex(s);
    ParseCharacterized(ts);
    ParsedFromIdentifiers(ts);
    LexIdentifiers(s);
    var sig := Parse(ts);
    forall k | 0 <= k < |sig.params|
      ensures sig.params[k] != [] && NoDelimiters(sig.params[k])
    {
      assert sig.params[k] in ParamsOf(ts);
      assert Identifier(sig.params[k]) in ts;
    }
    if sig.returnType != [] {
      assert Identifier(sig.returnType) in ts;
    }
    RenderRoundTrip(sig);
  }
}
