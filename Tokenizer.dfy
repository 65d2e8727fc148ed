/** The query lexer: splits a query string into identifiers, parentheses and
    commas. The delimiter that ends an identifier is swallowed without a
    token of its own, and an identifier that runs to the end of the input is
    dropped. */
module Tokenizer {

  datatype Result<T, E> = Ok(value: T) | Err(error: E)

  datatype Token = Identifier(text: string) | LeftParen | RightParen | Comma

  predicate IsDelimiter(c: char) {
    c == '(' || c == ')' || c == ','
  }

  predicate NoDelimiters(s: string) {
    forall k :: 0 <= k < |s| ==> !IsDelimiter(s[k])
  }

  /** The token a delimiter emits when it is met outside an identifier. */
  function DelimiterToken(c: char): Token
    requires IsDelimiter(c)
  {
    if c == '(' then LeftParen else if c == ')' then RightParen else Comma
  }

  /** Length of the leading run of non-delimiter characters of `s`. */
  function RunLength(s: string): (n: nat)
    ensures n <= |s|
    ensures forall k :: 0 <= k < n ==> !IsDelimiter(s[k])
    ensures n < |s| ==> IsDelimiter(s[n])
  {
    if s == [] || IsDelimiter(s[0]) then 0
    else 1 + RunLength(s[1..])
  }

  /** The tokens the lexer produces for `s`, outside any identifier. */
  function Lex(s: string): seq<Token>
    decreases |s|, 1
  {
    if s == [] then []
    else if IsDelimiter(s[0]) then [DelimiterToken(s[0])] + Lex(s[1..])
    else LexIdentifier([s[0]], s[1..])
  }

  /** The tokens the lexer produces for `s` while it has read the identifier
      characters `ident` and not yet met the delimiter that ends them. */
  function LexIdentifier(ident: string, s: string): seq<Token>
    decreases |s|, 0
  {
    if s == [] then []
    else if IsDelimiter(s[0]) then [Identifier(ident)] + Lex(s[1..])
    else LexIdentifier(ident + [s[0]], s[1..])
  }

  /** The number of delimiter characters in `s`. */
  function CountDelimiters(s: string): nat {
    if s == [] then 0
    else (if IsDelimiter(s[0]) then 1 else 0) + CountDelimiters(s[1..])
  }

  /** Lexes `s`; there is no error path, the result is always `Ok`. */
  method Tokenize(s: string) returns (r: Result<seq<Token>, string>)
    ensures r.Ok? && r.value == Lex(s)
  {
    var tokens: seq<Token> := [];
    var i := 0;
    while i < |s|
      invariant 0 <= i <= |s|
      invariant tokens + Lex(s[i..]) == Lex(s)
    {
      var chr := s[i];
      assert s[i..][1..] == s[i + 1..];
      i := i + 1;
      if chr == '(' {
        tokens := tokens + [LeftParen];
      } else if chr == ')' {
        tokens := tokens + [RightParen];
      } else if chr == ',' {
        tokens := tokens + [Comma];
      } else {
        var identifier := [chr];
        while i < |s|
          invariant 0 < i <= |s|
          invariant tokens + LexIdentifier(identifier, s[i..]) == Lex(s)
        {
          var ch := s[i];
          assert s[i..][1..] == s[i + 1..];
          i := i + 1;
          if IsDelimiter(ch) {
            tokens := tokens + [Identifier(identifier)];
            break;
          }
          identifier := identifier + [ch];
        }
      }
    }
    r := Ok(tokens);
  }

  /** Identifier characters are accumulated until a delimiter is met. */
  lemma {:induction false} LexIdentifierRun(ident: string, b: string, rest: string)
    requires NoDelimiters(b)
    ensures LexIdentifier(ident, b + rest) == LexIdentifier(ident + b, rest)
    decreases |b|
  {
    if b == [] {
      assert b + rest == rest;
      assert ident + b == ident;
    } else {
      assert (b + rest)[1..] == b[1..] + rest;
      assert ident + [b[0]] + b[1..] == ident + b;
      LexIdentifierRun(ident + [b[0]], b[1..], rest);
    }
  }

  /** A run without delimiters yields no token at all: a trailing identifier is dropped. */
  lemma LexDelimiterFree(a: string)
    requires NoDelimiters(a)
    ensures Lex(a) == []
  {
    if a != [] {
      LexIdentifierRun([a[0]], a[1..], []);
      assert a[1..] + [] == a[1..];
    }
  }

  /** A non-empty identifier ended by a delimiter is emitted as one `Identifier`
      holding the whole run, and the delimiter emits nothing of its own. */
  lemma LexSwallow(a: string, d: char, q: string)
    requires a != [] && NoDelimiters(a) && IsDelimiter(d)
    ensures Lex(a + [d] + q) == [Identifier(a)] + Lex(q)
  {
    var s := a + [d] + q;
    assert s[0] == a[0];
    assert s[1..] == a[1..] + ([d] + q);
    LexIdentifierRun([a[0]], a[1..], [d] + q);
    assert [a[0]] + a[1..] == a;
    assert ([d] + q)[1..] == q;
  }

  /** The lexer in one step after a non-delimiter: the run of `n` identifier
      characters is emitted together with the delimiter that ends it, or
      yields nothing when it reaches the end of the input. */
  lemma LexRun(s: string, n: nat)
    requires 0 < n <= |s|
    requires forall k :: 0 <= k < n ==> !IsDelimiter(s[k])
    requires n < |s| ==> IsDelimiter(s[n])
    ensures Lex(s) == if n == |s| then [] else [Identifier(s[..n])] + Lex(s[n + 1..])
  {
    if n == |s| {
      LexDelimiterFree(s);
    } else {
      var a, d, q := s[..n], s[n], s[n + 1..];
      assert NoDelimiters(a) by {
        forall k | 0 <= k < |a| ensures !IsDelimiter(a[k]) {
          assert a[k] == s[k];
        }
      }
      assert s == a + [d] + q;
      LexSwallow(a, d, q);
    }
  }

  /** Lexing restarts at every delimiter met outside an identifier: the input
      may be cut just after such a delimiter. */
  lemma {:induction false} LexAppend(p: string, q: string)
    requires p == [] || IsDelimiter(p[|p| - 1])
    ensures Lex(p + q) == Lex(p) + Lex(q)
    decreases |p|
  {
    if p == [] {
      assert p + q == q;
    } else if IsDelimiter(p[0]) {
      assert (p + q)[1..] == p[1..] + q;
      LexAppend(p[1..], q);
    } else {
      var n := RunLength(p);
      assert n < |p|;
      var a, d, rest := p[..n], p[n], p[n + 1..];
      assert p == a + [d] + rest;
      assert p + q == a + [d] + (rest + q);
      LexSwallow(a, d, rest);
      LexSwallow(a, d, rest + q);
      LexAppend(rest, q);
    }
  }

  /** A `(`, `)` or `,` met outside an identifier emits exactly its own token. */
  lemma LexTopLevelDelimiter(p: string, d: char, q: string)
    requires p == [] || IsDelimiter(p[|p| - 1])
    requires IsDelimiter(d)
    ensures Lex(p + [d] + q) == Lex(p) + [DelimiterToken(d)] + Lex(q)
  {
    LexAppend(p, [d] + q);
    assert p + [d] + q == p + ([d] + q);
    assert ([d] + q)[1..] == q;
  }

  lemma {:induction false} CountDelimitersAppend(a: string, b: string)
    ensures CountDelimiters(a + b) == CountDelimiters(a) + CountDelimiters(b)
    decreases |a|
  {
    if a == [] {
      assert a + b == b;
    } else {
      assert (a + b)[1..] == a[1..] + b;
      CountDelimitersAppend(a[1..], b);
    }
  }

  lemma {:induction false} CountDelimitersFree(a: string)
    requires NoDelimiters(a)
    ensures CountDelimiters(a) == 0
    decreases |a|
  {
    if a != [] {
      CountDelimitersFree(a[1..]);
    }
  }

  /** One token per delimiter character: a swallowed delimiter is replaced by
      the identifier it ends, and the dropped trailing run holds no delimiter. */
  lemma {:induction false} LexLength(s: string)
    ensures |Lex(s)| == CountDelimiters(s)
    decreases |s|
  {
    if s != [] {
      if IsDelimiter(s[0]) {
        LexLength(s[1..]);
      } else {
        var n := RunLength(s);
        LexRun(s, n);
        if n == |s| {
          assert s[..n] == s;
          CountDelimitersFree(s);
        } else {
          assert s == s[..n] + [s[n]] + s[n + 1..];
          CountDelimitersAppend(s[..n] + [s[n]], s[n + 1..]);
          CountDelimitersAppend(s[..n], [s[n]]);
          CountDelimitersFree(s[..n]);
          LexLength(s[n + 1..]);
        }
      }
    }
  }

  /** `w` occurs in `s` as a run of consecutive characters. */
  predicate OccursIn(w: string, s: string) {
    exists i, j :: 0 <= i <= j <= |s| && s[i..j] == w
  }

  lemma OccursInSuffix(w: string, s: string, k: nat)
    requires k <= |s| && OccursIn(w, s[k..])
    ensures OccursIn(w, s)
  {
    var i, j :| 0 <= i <= j <= |s[k..]| && s[k..][i..j] == w;
    assert s[k + i..k + j] == w;
  }

  /** Every identifier the lexer emits is non-empty, holds no delimiter, and
      is a run of consecutive characters of the input. */
  lemma {:induction false} LexIdentifiers(s: string)
    ensures forall t :: t in Lex(s) && t.Identifier? ==>
      t.text != [] && NoDelimiters(t.text) && OccursIn(t.text, s)
    decreases |s|
  {
    if s != [] {
      if IsDelimiter(s[0]) {
        LexIdentifiers(s[1..]);
        forall t | t in Lex(s[1..]) && t.Identifier?
          ensures OccursIn(t.text, s)
        {
          OccursInSuffix(t.text, s, 1);
        }
      } else {
        var n := RunLength(s);
        LexRun(s, n);
        if n < |s| {
          LexIdentifiers(s[n + 1..]);
          forall t | t in Lex(s[n + 1..]) && t.Identifier?
            ensures OccursIn(t.text, s)
          {
            OccursInSuffix(t.text, s, n + 1);
          }
          assert s[0..n] == s[..n];
        }
      }
    }
  }

  /** The query `int(int,int)` yields three identifiers and nothing else. */
  lemma LexExample()
    ensures Lex("int(int,int)") == [Identifier("int"), Identifier("int"), Identifier("int")]
  {
    var w := "int";
    var s3 := w + [')'];
    var s2 := w + [','] + s3;
    var s1 := w + ['('] + s2;
    assert s1 == "int(int,int)";
    LexSwallow(w, ')', []);
    assert s3 == w + [')'] + [];
    LexSwallow(w, ',', s3);
    LexSwallow(w, '(', s2);
  }

  /** Spaces belong to identifiers: `int -> (int, int)` yields the identifiers
      `int -> `, `int` and ` int`. */
  lemma LexArrowExample()
    ensures Lex("int -> (int, int)") == [Identifier("int -> "), Identifier("int"), Identifier(" int")]
  {
    var w1, w2, w3 := "int -> ", "int", " int";
    var s3 := w3 + [')'];
    var s2 := w2 + [','] + s3;
    var s1 := w1 + ['('] + s2;
    assert s1 == "int -> (int, int)";
    LexSwallow(w3, ')', []);
    assert s3 == w3 + [')'] + [];
    LexSwallow(w2, ',', s3);
    LexSwallow(w1, '(', s2);
  }
}
