/**
 Splitting the adsorption-time command on ';' the way a loop of
 `std::getline(stream, token, ';')` does: every call reads up to the next
 delimiter (or to the end) and consumes the delimiter, so an interior ";;"
 yields an empty token while a delimiter at the very end yields no empty final
 token, and the empty string yields no token at all.
 */
module Tokenizer {

  const Delimiter: char := ';'

  /** Position of the first delimiter in `s`, or |s| when there is none. */
  function FindDelimiter(s: string): (i: nat)
    ensures i <= |s|
    ensures forall k :: 0 <= k < i ==> s[k] != Delimiter
    ensures i < |s| ==> s[i] == Delimiter
  {
    if s == [] || s[0] == Delimiter then 0 else 1 + FindDelimiter(s[1..])
  }

  /** The tokens that successive `getline` calls extract from `s`. */
  function Split(s: string): (tokens: seq<string>)
    ensures tokens == [] <==> s == []
    decreases |s|
  {
    if s == [] then []
    else
      var i := FindDelimiter(s);
      if i == |s| then [s] else [s[..i]] + Split(s[i + 1..])
  }

  /** Tokens glued back together with the delimiter between them. */
  function Join(tokens: seq<string>): string {
    if tokens == [] then []
    else if |tokens| == 1 then tokens[0]
    else tokens[0] + [Delimiter] + Join(tokens[1..])
  }

  /** Number of delimiters in `s`. */
  function DelimiterCount(s: string): nat {
    if s == [] then 0 else (if s[0] == Delimiter then 1 else 0) + DelimiterCount(s[1..])
  }

  predicate EndsWithDelimiter(s: string) {
    s != [] && s[|s| - 1] == Delimiter
  }

  /**
   The `getline` loop: each pass extracts one token and appends it to `tokens`,
   until the stream is exhausted.
   */
  method Tokenize(s: string) returns (tokens: seq<string>)
    ensures tokens == Split(s)
  {
    tokens := [];
    var pos := 0;
    while pos < |s|
      invariant 0 <= pos <= |s|
      invariant tokens + Split(s[pos..]) == Split(s)
    {
      var end := pos;
      while end < |s| && s[end] != Delimiter
        invariant pos <= end <= |s|
        invariant forall k :: pos <= k < end ==> s[k] != Delimiter
      {
        end := end + 1;
      }
      var next := if end < |s| then end + 1 else end;
      NextToken(s, pos, end);
      tokens := tokens + [s[pos..end]];
      pos := next;
    }
  }

  /** One pass of the `getline` loop, read on the remaining input `s[pos..]`. */
  lemma NextToken(s: string, pos: nat, end: nat)
    requires pos < |s| && pos <= end <= |s|
    requires forall k :: pos <= k < end ==> s[k] != Delimiter
    requires end < |s| ==> s[end] == Delimiter
    ensures Split(s[pos..]) == [s[pos..end]] + Split(s[if end < |s| then end + 1 else end..])
  {
    var u := s[pos..];
    SplitAt(u, end - pos);
    assert u[..end - pos] == s[pos..end];
    if end < |s| {
      assert u[end - pos + 1..] == s[end + 1..];
    } else {
      assert u == s[pos..end];
      assert s[end..] == [];
    }
  }

  /**
   Unfolds Split at the first delimiter `i` of a non-empty string (i == |u|
   when there is none).
   */
  lemma SplitAt(u: string, i: nat)
    requires u != [] && i <= |u|
    requires forall k :: 0 <= k < i ==> u[k] != Delimiter
    requires i < |u| ==> u[i] == Delimiter
    ensures i == |u| ==> Split(u) == [u]
    ensures i < |u| ==> Split(u) == [u[..i]] + Split(u[i + 1..])
  {
    FirstDelimiterUnique(u, i, FindDelimiter(u));
  }

  /** Two positions that both satisfy the contract of `FindDelimiter` are the same. */
  lemma FirstDelimiterUnique(u: string, i: nat, j: nat)
    requires i <= |u| && j <= |u|
    requires forall k :: 0 <= k < i ==> u[k] != Delimiter
    requires i < |u| ==> u[i] == Delimiter
    requires forall k :: 0 <= k < j ==> u[k] != Delimiter
    requires j < |u| ==> u[j] == Delimiter
    ensures i == j
  {
  }

  /** No token contains the delimiter. */
  lemma {:induction false} SplitTokensHaveNoDelimiter(s: string)
    ensures forall t :: t in Split(s) ==> Delimiter !in t
    decreases |s|
  {
    if s != [] {
      var i := FindDelimiter(s);
      if i < |s| {
        SplitTokensHaveNoDelimiter(s[i + 1..]);
        assert Delimiter !in s[..i] by {
          forall k | 0 <= k < i ensures s[..i][k] != Delimiter { }
        }
      }
    }
  }

  lemma {:induction false} DelimiterCountAppend(a: string, b: string)
    ensures DelimiterCount(a + b) == DelimiterCount(a) + DelimiterCount(b)
  {
    if a == [] {
      assert a + b == b;
    } else {
      assert (a + b)[0] == a[0];
      assert (a + b)[1..] == a[1..] + b;
      DelimiterCountAppend(a[1..], b);
    }
  }

  lemma {:induction false} DelimiterCountNone(t: string)
    requires Delimiter !in t
    ensures DelimiterCount(t) == 0
  {
    if t != [] {
      assert Delimiter !in t[1..] by {
        forall k | 0 <= k < |t| - 1 ensures t[1..][k] != Delimiter {
          assert t[1..][k] == t[k + 1];
        }
      }
      DelimiterCountNone(t[1..]);
    }
  }

  /**
   A non-empty string yields one token more than it has delimiters, or exactly
   as many when it ends with a delimiter.
   */
  lemma {:induction false} SplitCount(s: string)
    requires s != []
    ensures |Split(s)| == DelimiterCount(s) + (if EndsWithDelimiter(s) then 0 else 1)
    decreases |s|
  {
    var i := FindDelimiter(s);
    assert Delimiter !in s[..i] by {
      forall k | 0 <= k < i ensures s[..i][k] != Delimiter { }
    }
    DelimiterCountNone(s[..i]);
    if i < |s| {
      var rest := s[i + 1..];
      assert s == s[..i] + ([Delimiter] + rest);
      assert Split(s) == [s[..i]] + Split(rest);
      if rest != [] {
        SplitCount(rest);
      }
      CountStep(s, s[..i], rest);
    } else {
      assert s[..i] == s;
    }
  }

  /** The inductive step of `SplitCount`: a delimiter-free token and a delimiter in front. */
  lemma CountStep(s: string, first: string, rest: string)
    requires s == first + ([Delimiter] + rest) && DelimiterCount(first) == 0
    requires |Split(s)| == 1 + |Split(rest)|
    requires rest != [] ==>
      |Split(rest)| == DelimiterCount(rest) + (if EndsWithDelimiter(rest) then 0 else 1)
    ensures |Split(s)| == DelimiterCount(s) + (if EndsWithDelimiter(s) then 0 else 1)
  {
    DelimiterCountAppend(first, [Delimiter] + rest);
    DelimiterCountAppend([Delimiter], rest);
    if rest != [] {
      assert EndsWithDelimiter(s) == EndsWithDelimiter(rest);
    }
  }

  /**
   Joining the tokens gives back the string, up to the final delimiter that
   `getline` consumes without producing a token.
   */
  lemma {:induction false} JoinSplit(s: string)
    ensures Join(Split(s)) + (if EndsWithDelimiter(s) then [Delimiter] else []) == s
    decreases |s|
  {
    if s != [] {
      var i := FindDelimiter(s);
      if i < |s| {
        var rest := s[i + 1..];
        assert s == s[..i] + [Delimiter] + rest;
        assert Split(s) == [s[..i]] + Split(rest);
        if rest != [] {
          JoinSplit(rest);
          JoinStep(s, s[..i], rest);
        }
      }
    }
  }

  /** The inductive step of `JoinSplit`: one more token in front. */
  lemma JoinStep(s: string, first: string, rest: string)
    requires s == first + [Delimiter] + rest && rest != []
    requires Split(s) == [first] + Split(rest)
    requires Join(Split(rest)) + (if EndsWithDelimiter(rest) then [Delimiter] else []) == rest
    ensures Join(Split(s)) + (if EndsWithDelimiter(s) then [Delimiter] else []) == s
  {
    var tokens := Split(rest);
    assert ([first] + tokens)[1..] == tokens;
    assert EndsWithDelimiter(s) == EndsWithDelimiter(rest);
  }

  /** A token followed by a delimiter is split off on its own. */
  lemma SplitFirst(t: string, rest: string)
    requires Delimiter !in t
    ensures Split(t + [Delimiter] + rest) == [t] + Split(rest)
  {
    var s := t + [Delimiter] + rest;
    SplitAt(s, |t|);
    assert s[..|t|] == t;
    assert s[|t| + 1..] == rest;
  }

  /** A non-empty string without delimiters is a single token. */
  lemma SplitSingle(t: string)
    requires t != [] && Delimiter !in t
    ensures Split(t) == [t]
  {
    SplitAt(t, |t|);
  }

  /**
   Splitting undoes joining when no token holds the delimiter and the last
   token is not empty.
   */
  lemma {:induction false} SplitJoin(tokens: seq<string>)
    requires tokens != [] && tokens[|tokens| - 1] != []
    requires forall k :: 0 <= k < |tokens| ==> Delimiter !in tokens[k]
    ensures Split(Join(tokens)) == tokens
    decreases |tokens|
  {
    if |tokens| == 1 {
      SplitSingle(tokens[0]);
    } else {
      SplitJoin(tokens[1..]);
      SplitFirst(tokens[0], Join(tokens[1..]));
      assert tokens == [tokens[0]] + tokens[1..];
    }
  }

  /** Three delimited fields in front of any remainder are the first three tokens. */
  lemma SplitThree(t0: string, t1: string, t2: string, rest: string)
    requires Delimiter !in t0 && Delimiter !in t1 && Delimiter !in t2
    ensures |Split(t0 + [Delimiter] + t1 + [Delimiter] + t2 + [Delimiter] + rest)| >= 3
    ensures Split(t0 + [Delimiter] + t1 + [Delimiter] + t2 + [Delimiter] + rest)[..3] == [t0, t1, t2]
  {
    var u2 := t2 + [Delimiter] + rest;
    var u1 := t1 + [Delimiter] + u2;
    assert t0 + [Delimiter] + t1 + [Delimiter] + t2 + [Delimiter] + rest == t0 + [Delimiter] + u1;
    SplitFirst(t2, rest);
    SplitFirst(t1, u2);
    SplitFirst(t0, u1);
  }
}
