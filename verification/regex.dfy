/** Wildcard matching with `.` and `*` (string/regex.rs): a tokenizer that pairs a
    character with a following `*`, and a single greedy left-to-right pass over the tokens
    that never backtracks. `Matches` is what the pattern language means; the greedy pass
    agrees with it only on some patterns, and `Backtrack` is a matcher that always does. */
module Regex {

  datatype Token = Literal(c: char) | Repeat(c: char)

  /** The `Tokens` iterator: a character followed by `*` becomes `Repeat` and takes the
      `*` with it; any other character, a lone `*` included, is a `Literal`. */
  function Tokenize(p: string): (ts: seq<Token>)
    ensures |ts| <= |p|
    decreases |p|
  {
    if |p| == 0 then []
    else if |p| >= 2 && p[1] == '*' then [Repeat(p[0])] + Tokenize(p[2..])
    else [Literal(p[0])] + Tokenize(p[1..])
  }

  /** Writes the tokens back as pattern text. */
  function Render(ts: seq<Token>): string
  {
    if |ts| == 0 then []
    else (match ts[0] case Literal(c) => [c] case Repeat(c) => [c, '*']) + Render(ts[1..])
  }

  /** Tokenizing loses nothing: the tokens spell the pattern back. */
  lemma {:induction false} RenderTokenize(p: string)
    ensures Render(Tokenize(p)) == p
    decreases |p|
  {
    if |p| > 0 {
      var ts := Tokenize(p);
      if |p| >= 2 && p[1] == '*' {
        RenderTokenize(p[2..]);
        assert ts[1..] == Tokenize(p[2..]);
        assert p == [p[0], '*'] + p[2..];
      } else {
        RenderTokenize(p[1..]);
        assert ts[1..] == Tokenize(p[1..]);
        assert p == [p[0]] + p[1..];
      }
    }
  }

  /** A token character accepts an input character: `.` accepts any. */
  predicate Fits(c: char, x: char)
  {
    c == '.' || c == x
  }

  /** Length of the longest prefix of `s` that `c` accepts throughout: what `skip_until`
      consumes for `Repeat(c)`, and, for `Repeat('.')`, the whole of `s`. */
  function RunLen(s: string, c: char): (k: nat)
    ensures k <= |s|
    ensures forall i :: 0 <= i < k ==> Fits(c, s[i])
    ensures k < |s| ==> !Fits(c, s[k])
    decreases |s|
  {
    if |s| > 0 && Fits(c, s[0]) then 1 + RunLen(s[1..], c) else 0
  }

  /** The second `skip_until`: drops the `Literal(c)` tokens right after `Repeat(c)`. */
  function DropLiterals(ts: seq<Token>, c: char): (r: seq<Token>)
    ensures |r| <= |ts| && r == ts[|ts| - |r|..]
    ensures forall i :: 0 <= i < |ts| - |r| ==> ts[i] == Literal(c)
    ensures |r| > 0 ==> r[0] != Literal(c)
    decreases |ts|
  {
    if |ts| > 0 && ts[0] == Literal(c) then DropLiterals(ts[1..], c) else ts
  }

  /** The loop of `is_match` from the current input and token positions: each token must
      succeed, and the input must be used up when the tokens are. */
  function Greedy(s: string, ts: seq<Token>): bool
    decreases |ts|
  {
    if |ts| == 0 then |s| == 0
    else match ts[0]
      case Literal(c) => |s| > 0 && Fits(c, s[0]) && Greedy(s[1..], ts[1..])
      case Repeat(c) =>
        var k := RunLen(s, c);
        Greedy(s[k..], if c == '.' then ts[1..] else DropLiterals(ts[1..], c))
  }

  /** `is_match`. */
  function IsMatch(s: string, p: string): bool
  {
    Greedy(s, Tokenize(p))
  }

  /** What a token sequence means: `Literal(c)` matches one character `c` accepts, and
      `Repeat(c)` matches any number of them, including none. */
  function Matches(s: string, ts: seq<Token>): bool
    decreases |s| + |ts|
  {
    if |ts| == 0 then |s| == 0
    else match ts[0]
      case Literal(c) => |s| > 0 && Fits(c, s[0]) && Matches(s[1..], ts[1..])
      case Repeat(c) => Matches(s, ts[1..]) || (|s| > 0 && Fits(c, s[0]) && Matches(s[1..], ts))
  }

  /** `Repeat(c)` followed by `rest` matches exactly when some prefix that `c` accepts
      throughout can be left out before `rest` matches. */
  lemma {:induction false} RepeatMatches(s: string, c: char, rest: seq<Token>)
    ensures Matches(s, [Repeat(c)] + rest) <==> exists k :: 0 <= k <= RunLen(s, c) && Matches(s[k..], rest)
    decreases |s|
  {
    var ts := [Repeat(c)] + rest;
    assert ts[1..] == rest;
    assert s[0..] == s;
    if |s| > 0 && Fits(c, s[0]) {
      RepeatMatches(s[1..], c, rest);
      assert RunLen(s, c) == 1 + RunLen(s[1..], c);
      if Matches(s, ts) && !Matches(s, rest) {
        var k :| 0 <= k <= RunLen(s[1..], c) && Matches(s[1..][k..], rest);
        assert s[1..][k..] == s[k + 1..];
      }
      if exists k :: 0 <= k <= RunLen(s, c) && Matches(s[k..], rest) {
        var k :| 0 <= k <= RunLen(s, c) && Matches(s[k..], rest);
        if k > 0 {
          assert s[1..][k - 1..] == s[k..];
        }
      }
    }
  }

  /** No `Repeat(c)` is followed directly by `Literal(c)`, so the greedy pass never drops a
      token. */
  predicate NoDrop(ts: seq<Token>)
  {
    forall i :: 0 <= i < |ts| - 1 && ts[i].Repeat? && ts[i].c != '.' ==> ts[i + 1] != Literal(ts[i].c)
  }

  /** When no token is dropped, every input the greedy pass accepts does match. */
  lemma {:induction false} GreedySound(s: string, ts: seq<Token>)
    requires NoDrop(ts) && Greedy(s, ts)
    ensures Matches(s, ts)
    decreases |ts|
  {
    if |ts| > 0 {
      var rest := ts[1..];
      NoDropTail(ts);
      match ts[0]
      case Literal(c) =>
        GreedySound(s[1..], rest);
      case Repeat(c) =>
        var k := KeepsRest(s, ts, c);
        GreedySound(s[k..], rest);
        RepeatMatchesRun(s, c, rest);
        assert ts == [Repeat(c)] + rest;
    }
  }

  lemma NoDropTail(ts: seq<Token>)
    requires |ts| > 0 && NoDrop(ts)
    ensures NoDrop(ts[1..])
  {
    var rest := ts[1..];
    forall i | 0 <= i < |rest| - 1 && rest[i].Repeat? && rest[i].c != '.'
      ensures rest[i + 1] != Literal(rest[i].c)
    {
      assert rest[i] == ts[i + 1] && rest[i + 1] == ts[i + 2];
    }
  }

  /** Without a dropped token, the greedy pass continues with the whole rest after `c*`. */
  lemma KeepsRest(s: string, ts: seq<Token>, c: char) returns (k: nat)
    requires |ts| > 0 && ts[0] == Repeat(c) && NoDrop(ts) && Greedy(s, ts)
    ensures k == RunLen(s, c) && Greedy(s[k..], ts[1..])
  {
    k := RunLen(s, c);
    var rest := ts[1..];
    if c != '.' && |rest| > 0 {
      assert rest[0] == ts[1] && ts[1] != Literal(c);
      assert DropLiterals(rest, c) == rest;
    }
  }

  /** Skipping the whole run before `rest` is one way `c*` followed by `rest` can match. */
  lemma RepeatMatchesRun(s: string, c: char, rest: seq<Token>)
    requires Matches(s[RunLen(s, c)..], rest)
    ensures Matches(s, [Repeat(c)] + rest)
  {
    var k := RunLen(s, c);
    RepeatMatches(s, c, rest);
    assert 0 <= k <= RunLen(s, c) && Matches(s[k..], rest);
  }

  predicate LiteralsOnly(ts: seq<Token>)
  {
    forall i :: 0 <= i < |ts| ==> ts[i].Literal?
  }

  /** Without any `*`, the greedy pass is exact. */
  lemma {:induction false} LiteralsExact(s: string, ts: seq<Token>)
    requires LiteralsOnly(ts)
    ensures Greedy(s, ts) <==> Matches(s, ts)
    decreases |ts|
  {
    if |ts| > 0 && |s| > 0 {
      assert LiteralsOnly(ts[1..]);
      LiteralsExact(s[1..], ts[1..]);
    }
  }

  /** A pattern without `*` tokenizes to literals only. */
  lemma {:induction false} StarFreeLiterals(p: string)
    requires forall i :: 0 <= i < |p| ==> p[i] != '*'
    ensures LiteralsOnly(Tokenize(p))
    decreases |p|
  {
    if |p| > 0 {
      StarFreeLiterals(p[1..]);
    }
  }

  /** The greedy pass is the intended matcher on star-free patterns. */
  lemma StarFreeExact(s: string, p: string)
    requires forall i :: 0 <= i < |p| ==> p[i] != '*'
    ensures IsMatch(s, p) <==> Matches(s, Tokenize(p))
  {
    StarFreeLiterals(p);
    LiteralsExact(s, Tokenize(p));
  }

  /** The greedy pass with backtracking: `Repeat(c)` first tries the longest run of
      characters `c` accepts, then each shorter one. */
  function Backtrack(s: string, ts: seq<Token>): bool
    decreases |ts|, 1, 0
  {
    if |ts| == 0 then |s| == 0
    else match ts[0]
      case Literal(c) => |s| > 0 && Fits(c, s[0]) && Backtrack(s[1..], ts[1..])
      case Repeat(c) => TryRuns(s, ts[1..], RunLen(s, c))
  }

  /** Leaves out the first `k` characters, then fewer, until `rest` matches. */
  function TryRuns(s: string, rest: seq<Token>, k: nat): bool
    requires k <= |s|
    decreases |rest| + 1, 0, k
  {
    Backtrack(s[k..], rest) || (k > 0 && TryRuns(s, rest, k - 1))
  }

  lemma {:induction false} TryRunsSome(s: string, rest: seq<Token>, k: nat)
    requires k <= |s|
    ensures TryRuns(s, rest, k) <==> exists j :: 0 <= j <= k && Backtrack(s[j..], rest)
    decreases k
  {
    if k > 0 {
      TryRunsSome(s, rest, k - 1);
    }
  }

  /** Backtracking decides exactly the pattern language, for every input and pattern. */
  lemma {:induction false} BacktrackMatches(s: string, ts: seq<Token>)
    ensures Backtrack(s, ts) == Matches(s, ts)
    decreases |ts|
  {
    if |ts| > 0 {
      var rest := ts[1..];
      match ts[0]
      case Literal(c) =>
        if |s| > 0 {
          BacktrackMatches(s[1..], rest);
        }
      case Repeat(c) =>
        forall j | 0 <= j <= |s|
          ensures Backtrack(s[j..], rest) == Matches(s[j..], rest)
        {
          BacktrackMatches(s[j..], rest);
        }
        TryRunsSome(s, rest, RunLen(s, c));
        RepeatMatches(s, c, rest);
        assert ts == [Repeat(c)] + rest;
    }
  }

  /** `is_match` as intended: the pattern matches the whole input. */
  function IsMatchBacktracking(s: string, p: string): (r: bool)
    ensures r == Matches(s, Tokenize(p))
  {
    BacktrackMatches(s, Tokenize(p));
    Backtrack(s, Tokenize(p))
  }

  /** The catalogue's first four examples, on which the greedy pass gives the intended
      answer. */
  lemma GreedyExamples()
    ensures !IsMatch("aa", "a") && !Matches("aa", Tokenize("a"))
    ensures IsMatch("aa", "a*") && Matches("aa", Tokenize("a*"))
    ensures IsMatch("ab", ".*") && Matches("ab", Tokenize(".*"))
    ensures IsMatch("aaa", "a*a") && Matches("aaa", Tokenize("a*a"))
  {
    assert Tokenize("a") == [Literal('a')];
    assert Tokenize("a*") == [Repeat('a')];
    assert Tokenize(".*") == [Repeat('.')];
    assert Tokenize("a*a") == [Repeat('a'), Literal('a')];
    assert Matches("aa"[1..], [Repeat('a')]);
    assert Matches("aaa"[2..], [Literal('a')]);
  }

  /** `Repeat('a')` drops the two `Literal('a')` after it, so "a*aa" accepts "a". */
  lemma OverMatch()
    ensures IsMatch("a", "a*aa") && !Matches("a", Tokenize("a*aa"))
  {
    var ts := [Repeat('a'), Literal('a'), Literal('a')];
    assert Tokenize("a*aa") == ts;
    assert DropLiterals(ts[1..], 'a') == [];
    assert !Matches("", ts[1..]);
    assert !Matches("a", ts[1..]);
  }

  lemma FifthTokens()
    ensures Tokenize("ab*a*c*a") == [Literal('a'), Repeat('b'), Repeat('a'), Repeat('c'), Literal('a')]
  {
    assert Tokenize("c*a") == [Repeat('c'), Literal('a')];
  }

  /** `Repeat('a')` takes both remaining a's, leaving none for the final `Literal('a')`:
      the catalogue's fifth example fails. */
  lemma UnderMatch()
    ensures !IsMatch("aaa", "ab*a*c*a") && Matches("aaa", Tokenize("ab*a*c*a"))
  {
    var ts := [Literal('a'), Repeat('b'), Repeat('a'), Repeat('c'), Literal('a')];
    FifthTokens();
    FifthGreedy(ts);
    FifthMatches(ts);
  }

  /** A `Repeat(c)` not followed by `Literal(c)` drops no token. */
  lemma RepeatStep(s: string, ts: seq<Token>, c: char)
    requires |ts| > 0 && ts[0] == Repeat(c) && c != '.' && (|ts| == 1 || ts[1] != Literal(c))
    ensures Greedy(s, ts) == Greedy(s[RunLen(s, c)..], ts[1..])
  {
    var rest := ts[1..];
    var r := DropLiterals(rest, c);
  }

  lemma FifthGreedy(ts: seq<Token>)
    requires ts == [Literal('a'), Repeat('b'), Repeat('a'), Repeat('c'), Literal('a')]
    ensures !Greedy("aaa", ts)
  {
    var aa: string := "aa";
    var e: string := [];
    var t1, t2, t3, t4 := ts[1..], ts[2..], ts[3..], ts[4..];
    assert t1[1..] == t2 && t2[1..] == t3 && t3[1..] == t4 && t4[1..] == [];
    assert !Greedy(e, t4);
    RepeatStep(e, t3, 'c');
    assert RunLen(e, 'c') == 0 && e[0..] == e;
    RepeatStep(aa, t2, 'a');
    assert RunLen(aa, 'a') == 2 && aa[2..] == e;
    RepeatStep(aa, t1, 'b');
    assert RunLen(aa, 'b') == 0 && aa[0..] == aa;
    assert "aaa"[1..] == aa;
  }

  lemma FifthMatches(ts: seq<Token>)
    requires ts == [Literal('a'), Repeat('b'), Repeat('a'), Repeat('c'), Literal('a')]
    ensures Matches("aaa", ts)
  {
    var a: string := "a";
    assert Matches(a, ts[4..]);
    assert Matches(a, ts[3..]);
    assert Matches(a, ts[2..]);
    assert Matches("aa", ts[2..]);
    assert Matches("aa", ts[1..]);
    assert "aaa"[1..] == "aa";
  }

  lemma BacktrackingExamples()
    ensures IsMatchBacktracking("aaa", "ab*a*c*a") && !IsMatchBacktracking("a", "a*aa")
  {
    OverMatch();
    UnderMatch();
  }
}
