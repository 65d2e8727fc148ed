/** `normalize_query`: splits a query into alphanumeric runs and single other
    characters, then joins them again without the single-space pieces. A run
    still open at the end of the input is never pushed, so it is lost. */
module QueryNormalizer {

  /** `char::is_alphanumeric`, approximated by the ASCII letters and digits. */
  predicate IsAlphanumeric(c: char) {
    'a' <= c <= 'z' || 'A' <= c <= 'Z' || '0' <= c <= '9'
  }

  predicate AllAlphanumeric(s: string) {
    forall k :: 0 <= k < |s| ==> IsAlphanumeric(s[k])
  }

  /** Length of the maximal run of alphanumeric characters that ends `q`. */
  function TrailingRunLength(q: string): (n: nat)
    ensures n <= |q|
    ensures forall k :: |q| - n <= k < |q| ==> IsAlphanumeric(q[k])
    ensures n < |q| ==> !IsAlphanumeric(q[|q| - n - 1])
    decreases |q|
  {
    if q == [] || !IsAlphanumeric(q[|q| - 1]) then 0
    else 1 + TrailingRunLength(q[..|q| - 1])
  }

  /** `s` with every space removed. */
  function RemoveSpaces(s: string): string
    decreases |s|
  {
    if s == [] then []
    else (if s[0] == ' ' then [] else [s[0]]) + RemoveSpaces(s[1..])
  }

  /** The normalised query: the trailing alphanumeric run dropped, then every
      space deleted. */
  function Normalized(q: string): string {
    RemoveSpaces(q[..|q| - TrailingRunLength(q)])
  }

  /** The concatenation of `pieces`. */
  function Concat(pieces: seq<string>): string
    decreases |pieces|
  {
    if pieces == [] then [] else Concat(pieces[..|pieces| - 1]) + pieces[|pieces| - 1]
  }

  /** A piece of the split query: a non-empty alphanumeric run or a single
      other character. */
  predicate IsPiece(p: string) {
    (|p| == 1 && !IsAlphanumeric(p[0])) || (p != [] && AllAlphanumeric(p))
  }

  /** No two neighbouring pieces are both alphanumeric runs, so every run is maximal. */
  predicate RunsMaximal(pieces: seq<string>) {
    forall j :: 0 <= j < |pieces| - 1 ==> !(AllAlphanumeric(pieces[j]) && AllAlphanumeric(pieces[j + 1]))
  }

  /** The first loop of `normalize_query`: the pieces, in order, spell the
      query without its trailing alphanumeric run, and each alphanumeric
      piece is a maximal run. */
  method SplitQuery(query: string) returns (pieces: seq<string>)
    ensures Concat(pieces) == query[..|query| - TrailingRunLength(query)]
    ensures forall p :: p in pieces ==> IsPiece(p)
    ensures RunsMaximal(pieces)
  {
    pieces := [];
    var current := "";
    for i := 0 to |query|
      invariant SplitSoFar(query[..i], pieces, current)
    {
      var c := query[i];
      assert query[..i + 1] == query[..i] + [c];
      if IsAlphanumeric(c) {
        SplitStepRun(query[..i], pieces, current, c);
        current := current + [c];
      } else {
        SplitStepOther(query[..i], pieces, current, c);
        if current != [] {
          pieces := pieces + [current];
          current := [];
        }
        pieces := pieces + [[c]];
      }
    }
    assert query[..|query|] == query;
    TrailingRunOf(query, |current|) by {
      assert current == query[|query| - |current|..];
    }
  }

  /** `normalize_query`: the split pieces joined again, single spaces skipped. */
  method NormalizeQuery(query: string) returns (normalized: string)
    ensures normalized == Normalized(query)
  {
    var pieces := SplitQuery(query);
    normalized := "";
    for j := 0 to |pieces|
      invariant normalized == RemoveSpaces(Concat(pieces[..j]))
    {
      var piece := pieces[j];
      ConcatPush(pieces[..j], piece);
      assert pieces[..j + 1] == pieces[..j] + [piece];
      RemoveSpacesAppend(Concat(pieces[..j]), piece);
      if piece == " " {
        continue;
      }
      assert IsPiece(piece);
      RemoveSpacesNoSpace(piece);
      // Both branches of the source append the piece unchanged.
      normalized := normalized + piece;
    }
    assert pieces[..|pieces|] == pieces;
  }

  /** The first loop's state after reading `prefix`: the pieces and the open
      run spell `prefix`, the open run is the maximal alphanumeric run ending
      `prefix`, and the pieces are well formed with maximal runs, the last one
      not alphanumeric. */
  predicate SplitSoFar(prefix: string, pieces: seq<string>, current: string) {
    Concat(pieces) + current == prefix &&
    AllAlphanumeric(current) &&
    (|current| < |prefix| ==> !IsAlphanumeric(prefix[|prefix| - |current| - 1])) &&
    (forall p :: p in pieces ==> IsPiece(p)) &&
    RunsMaximal(pieces) &&
    (pieces != [] ==> !AllAlphanumeric(pieces[|pieces| - 1]))
  }

  lemma SplitStepRun(prefix: string, pieces: seq<string>, current: string, c: char)
    requires SplitSoFar(prefix, pieces, current) && IsAlphanumeric(c)
    ensures SplitSoFar(prefix + [c], pieces, current + [c])
  {
    var p := prefix + [c];
    assert |current| < |prefix| ==> p[|p| - |current + [c]| - 1] == prefix[|prefix| - |current| - 1];
  }

  lemma SplitStepOther(prefix: string, pieces: seq<string>, current: string, c: char)
    requires SplitSoFar(prefix, pieces, current) && !IsAlphanumeric(c)
    ensures SplitSoFar(prefix + [c], (if current != [] then pieces + [current] else pieces) + [[c]], [])
  {
    if current != [] {
      PushRun(pieces, current);
      PushOther(prefix, pieces + [current], c);
    } else {
      PushOther(prefix, pieces, c);
    }
  }

  /** Closing the open run keeps the pieces well formed with maximal runs. */
  lemma PushRun(pieces: seq<string>, current: string)
    requires forall p :: p in pieces ==> IsPiece(p)
    requires RunsMaximal(pieces)
    requires pieces != [] ==> !AllAlphanumeric(pieces[|pieces| - 1])
    requires current != [] && AllAlphanumeric(current)
    ensures Concat(pieces + [current]) == Concat(pieces) + current
    ensures forall p :: p in pieces + [current] ==> IsPiece(p)
    ensures RunsMaximal(pieces + [current])
  {
    ConcatPush(pieces, current);
  }

  /** A non-alphanumeric character becomes a piece of its own. */
  lemma PushOther(prefix: string, pieces: seq<string>, c: char)
    requires Concat(pieces) == prefix && !IsAlphanumeric(c)
    requires forall p :: p in pieces ==> IsPiece(p)
    requires RunsMaximal(pieces)
    ensures SplitSoFar(prefix + [c], pieces + [[c]], [])
  {
    ConcatPush(pieces, [c]);
    assert !AllAlphanumeric([c]) by {
      assert [c][0] == c;
    }
  }

  lemma ConcatPush(pieces: seq<string>, p: string)
    ensures Concat(pieces + [p]) == Concat(pieces) + p
  {
  }

  lemma TrailingRunOf(q: string, n: nat)
    requires n <= |q|
    requires forall k :: |q| - n <= k < |q| ==> IsAlphanumeric(q[k])
    requires n < |q| ==> !IsAlphanumeric(q[|q| - n - 1])
    ensures TrailingRunLength(q) == n
  {
  }

  lemma {:induction false} RemoveSpacesAppend(a: string, b: string)
    ensures RemoveSpaces(a + b) == RemoveSpaces(a) + RemoveSpaces(b)
    decreases |a|
  {
    if a == [] {
      assert a + b == b;
    } else {
      assert (a + b)[1..] == a[1..] + b;
      RemoveSpacesAppend(a[1..], b);
    }
  }

  lemma {:induction false} RemoveSpacesNoSpace(s: string)
    requires ' ' !in s
    ensures RemoveSpaces(s) == s
    decreases |s|
  {
    if s != [] {
      assert ' ' !in s[1..] by {
        forall k | 0 <= k < |s[1..]| ensures s[1..][k] != ' ' {
          assert s[1..][k] == s[k + 1];
        }
      }
      RemoveSpacesNoSpace(s[1..]);
      assert [s[0]] + s[1..] == s;
    }
  }

  /** `a` can be obtained from `b` by deleting characters. */
  predicate IsSubsequence(a: string, b: string)
    decreases |b|
  {
    if a == [] then true
    else if b == [] then false
    else if a[0] == b[0] then IsSubsequence(a[1..], b[1..])
    else IsSubsequence(a, b[1..])
  }

  lemma {:induction false} SubsequenceExtend(a: string, b: string, c: string)
    requires IsSubsequence(a, b)
    ensures IsSubsequence(a, b + c)
    decreases |b|
  {
    if a != [] && b != [] {
      assert (b + c)[1..] == b[1..] + c;
      if a[0] == b[0] {
        SubsequenceExtend(a[1..], b[1..], c);
      } else {
        SubsequenceExtend(a, b[1..], c);
      }
    }
  }

  /** Removing spaces leaves a space-free subsequence of its input. */
  lemma {:induction false} RemoveSpacesSubsequence(s: string)
    ensures ' ' !in RemoveSpaces(s)
    ensures IsSubsequence(RemoveSpaces(s), s)
    decreases |s|
  {
    if s != [] {
      RemoveSpacesSubsequence(s[1..]);
      var r := RemoveSpaces(s[1..]);
      if s[0] != ' ' {
        assert ([s[0]] + r)[1..] == r;
      } else {
        assert RemoveSpaces(s) == r;
        if r != [] {
          assert r[0] in r && r[0] != s[0];
        }
      }
    }
  }

  /** Removing spaces keeps every other character as often as it occurs. */
  lemma {:induction false} RemoveSpacesCount(s: string, c: char)
    requires c != ' '
    ensures multiset(RemoveSpaces(s))[c] == multiset(s)[c]
    decreases |s|
  {
    if s != [] {
      RemoveSpacesCount(s[1..], c);
      assert s == [s[0]] + s[1..];
    }
  }

  /** The normalised query holds no space, is a subsequence of the query and
      is no longer than it; the characters that survive are exactly the
      non-space characters before the trailing alphanumeric run, each as
      often as there. */
  lemma NormalizedProperties(q: string)
    ensures ' ' !in Normalized(q)
    ensures IsSubsequence(Normalized(q), q)
    ensures |Normalized(q)| <= |q|
    ensures var kept := q[..|q| - TrailingRunLength(q)];
      forall c :: c != ' ' ==> multiset(Normalized(q))[c] == multiset(kept)[c]
  {
    var kept := q[..|q| - TrailingRunLength(q)];
    RemoveSpacesSubsequence(kept);
    forall c | c != ' ' ensures multiset(Normalized(q))[c] == multiset(kept)[c] {
      RemoveSpacesCount(kept, c);
    }
    assert q == kept + q[|kept|..];
    SubsequenceExtend(Normalized(q), kept, q[|kept|..]);
    SubsequenceLength(Normalized(q), q);
  }

  lemma {:induction false} SubsequenceLength(a: string, b: string)
    requires IsSubsequence(a, b)
    ensures |a| <= |b|
    decreases |b|
  {
    if a != [] {
      if a[0] == b[0] {
        SubsequenceLength(a[1..], b[1..]);
      } else {
        SubsequenceLength(a, b[1..]);
      }
    }
  }

  /** Normalising is not idempotent: `ab c` loses its trailing `c` and then
      its space, and the resulting `ab` is itself a trailing run. */
  lemma NormalizedNotIdempotent()
    ensures Normalized("ab c") == "ab"
    ensures Normalized("ab") == ""
  {
    assert TrailingRunLength("ab c") == 1 by {
      TrailingRunOf("ab c", 1);
    }
    assert TrailingRunLength("ab") == 2 by {
      TrailingRunOf("ab", 2);
    }
    assert "ab c"[..3] == "ab ";
    assert RemoveSpaces("ab ") == "ab" by {
      assert "ab "[1..] == "b ";
      assert "b "[1..] == " ";
      assert " "[1..] == [];
    }
  }
}
