/**
  The generator of the list of required environment variables. Each server source
  file is cleaned in three passes (block comments, then line comments, then
  single-line string literals), the names read as `process.env.NAME` are collected
  from what is left, and the distinct names are written, sorted, as a JavaScript
  module. File discovery and the file system are outside the model: a file is its
  text, or `None` when it cannot be read.
*/
module EnvGenerate {
  import opened Wrappers
  import opened JsString

  /** The characters the regular-expression `.` does not match. */
  predicate IsLineTerminator(c: char)
  {
    c == '\n' || c == '\r' || c == '\U{2028}' || c == '\U{2029}'
  }

  predicate IsQuote(c: char)
  {
    c == '\'' || c == '"' || c == '`'
  }

  // ---------------------------------------------------------------- pass 1: block comments

  /** A comment closer, star then slash, starts at position `j` of `t`. */
  predicate ClosesAt(t: string, j: int)
  {
    0 <= j && j + 1 < |t| && t[j] == '*' && t[j + 1] == '/'
  }

  /** The first comment closer in `t`: where the lazy repetition of the block-comment pattern stops. */
  function CloseIndex(t: string): (r: Option<nat>)
    ensures r.Some? ==> ClosesAt(t, r.value) && forall j :: 0 <= j < r.value ==> !ClosesAt(t, j)
    ensures r.None? ==> forall j :: 0 <= j < |t| ==> !ClosesAt(t, j)
    decreases |t|
  {
    if |t| < 2 then None
    else if t[0] == '*' && t[1] == '/' then Some(0)
    else
      assert forall j :: 1 <= j < |t| ==> (ClosesAt(t, j) <==> ClosesAt(t[1..], j - 1));
      match CloseIndex(t[1..])
      case None => None
      case Some(k) => Some(k + 1)
  }

  /** A block comment that is closed starts at the front of `s`; the value is its length. */
  function BlockCommentAt(s: string): (r: Option<nat>)
    ensures r.Some? ==> 4 <= r.value <= |s|
  {
    if |s| >= 2 && s[0] == '/' && s[1] == '*' then
      match CloseIndex(s[2..])
      case None => None
      case Some(k) => Some(k + 4)
    else None
  }

  /** The first pass: every block comment that is closed is removed, each ending at the first closer after its opener. */
  function StripBlockComments(s: string): string
    decreases |s|
  {
    if s == [] then []
    else if BlockCommentAt(s).Some? then StripBlockComments(s[BlockCommentAt(s).value..])
    else [s[0]] + StripBlockComments(s[1..])
  }

  /** No slash of `x` opens a block comment in `x + y`. */
  predicate OpensNoBlock(x: string, y: string)
  {
    forall k :: 0 <= k < |x| && x[k] == '/' && k + 1 < |x| + |y| ==> (x + y)[k + 1] != '*'
  }

  /** Text in which nothing opens a block comment passes the first pass unchanged. */
  lemma {:induction false} StripBlockKeeps(x: string, y: string)
    requires OpensNoBlock(x, y)
    ensures StripBlockComments(x + y) == x + StripBlockComments(y)
    decreases |x|
  {
    if x != [] {
      var s := x + y;
      assert s[0] == x[0] && s[1..] == x[1..] + y;
      assert BlockCommentAt(s).None?;
      assert StripBlockComments(s) == [x[0]] + StripBlockComments(x[1..] + y);
      assert OpensNoBlock(x[1..], y) by {
        forall k | 0 <= k < |x[1..]| && x[1..][k] == '/' && k + 1 < |x[1..]| + |y|
          ensures (x[1..] + y)[k + 1] != '*'
        {
          assert (x[1..] + y)[k + 1] == s[k + 2];
        }
      }
      StripBlockKeeps(x[1..], y);
      assert [x[0]] + x[1..] == x;
    } else {
      assert x + y == y;
    }
  }

  lemma CloseIndexFirst(t: string, k: nat)
    requires ClosesAt(t, k) && forall j :: 0 <= j < k ==> !ClosesAt(t, j)
    ensures CloseIndex(t) == Some(k)
  {
  }

  /** A closed block comment with no earlier closer inside disappears, and what follows is cleaned on its own. */
  lemma BlockCommentGone(a: string, b: string, c: string)
    requires '/' !in a
    requires forall j :: 0 <= j < |b| ==> !ClosesAt(b, j)
    ensures StripBlockComments(a + "/*" + b + "*/" + c) == a + StripBlockComments(c)
  {
    var rest, t := BlockCommentShape(a, b, c);
    StripBlockKeeps(a, rest);
    NoCloserBefore(b, t);
    CloseIndexFirst(t, |b|);
    assert BlockCommentAt(rest) == Some(|b| + 4);
  }

  lemma NoCloserBefore(b: string, t: string)
    requires forall j :: 0 <= j < |b| ==> !ClosesAt(b, j)
    requires |b| < |t| && t[|b|] == '*' && forall j :: 0 <= j < |b| ==> t[j] == b[j]
    ensures forall j :: 0 <= j < |b| ==> !ClosesAt(t, j)
  {
    forall j | 0 <= j < |b|
      ensures !ClosesAt(t, j)
    {
      if j + 1 < |b| {
        assert t[j] == b[j] && t[j + 1] == b[j + 1];
        assert !ClosesAt(b, j);
      }
    }
  }

  lemma BlockCommentShape(a: string, b: string, c: string) returns (rest: string, t: string)
    ensures a + "/*" + b + "*/" + c == a + rest
    ensures |rest| >= 2 && rest[0] == '/' && rest[1] == '*' && rest[2..] == t
    ensures |t| == |b| + 2 + |c| && t[|b|] == '*' && t[|b| + 1] == '/'
    ensures forall j :: 0 <= j < |b| ==> t[j] == b[j]
    ensures t[|b| + 2..] == c
  {
    var closer := "*/" + c;
    t := b + closer;
    rest := "/*" + t;
    assert rest[2..] == t;
    assert t[|b|] == closer[0] && t[|b| + 1] == closer[1];
    assert t[|b| + 2..] == closer[2..] == c;
  }

  // ---------------------------------------------------------------- pass 2: line comments

  /** The first line terminator at or after `p`, or the end of `s`. */
  function LineEnd(s: string, p: nat): (r: nat)
    requires p <= |s|
    ensures p <= r <= |s|
    ensures r < |s| ==> IsLineTerminator(s[r])
    ensures forall k :: p <= k < r ==> !IsLineTerminator(s[k])
    decreases |s| - p
  {
    if p == |s| || IsLineTerminator(s[p]) then p else LineEnd(s, p + 1)
  }

  predicate LineCommentAt(s: string)
  {
    |s| >= 2 && s[0] == '/' && s[1] == '/'
  }

  /** The second pass: from `//` up to, not including, the next line terminator. */
  function StripLineComments(s: string): (r: string)
    ensures r != [] ==> s != [] && (r[0] == s[0] || IsLineTerminator(r[0]))
    decreases |s|
  {
    if s == [] then []
    else if LineCommentAt(s) then StripLineComments(s[LineEnd(s, 2)..])
    else [s[0]] + StripLineComments(s[1..])
  }

  /** No slash of `x` opens a line comment in `x + y`. */
  predicate OpensNoLine(x: string, y: string)
  {
    forall k :: 0 <= k < |x| && x[k] == '/' && k + 1 < |x| + |y| ==> (x + y)[k + 1] != '/'
  }

  /** Text in which nothing opens a line comment passes the second pass unchanged. */
  lemma {:induction false} StripLineKeeps(x: string, y: string)
    requires OpensNoLine(x, y)
    ensures StripLineComments(x + y) == x + StripLineComments(y)
    decreases |x|
  {
    if x != [] {
      var s := x + y;
      assert s[0] == x[0] && s[1..] == x[1..] + y;
      assert !LineCommentAt(s);
      assert StripLineComments(s) == [x[0]] + StripLineComments(x[1..] + y);
      assert OpensNoLine(x[1..], y) by {
        forall k | 0 <= k < |x[1..]| && x[1..][k] == '/' && k + 1 < |x[1..]| + |y|
          ensures (x[1..] + y)[k + 1] != '/'
        {
          assert (x[1..] + y)[k + 1] == s[k + 2];
        }
      }
      StripLineKeeps(x[1..], y);
      assert [x[0]] + x[1..] == x;
    } else {
      assert x + y == y;
    }
  }

  lemma LineEndFirst(s: string, p: nat, e: nat)
    requires p <= e < |s| && IsLineTerminator(s[e])
    requires forall k :: p <= k < e ==> !IsLineTerminator(s[k])
    ensures LineEnd(s, p) == e
  {
  }

  /** A line comment is removed up to the line terminator, which stays. */
  lemma LineCommentGone(a: string, b: string, t: char, c: string)
    requires '/' !in a
    requires forall k :: 0 <= k < |b| ==> !IsLineTerminator(b[k])
    requires IsLineTerminator(t)
    ensures StripLineComments(a + "//" + b + [t] + c) == a + StripLineComments([t] + c)
  {
    var rest := LineCommentShape(a, b, t, c);
    StripLineKeeps(a, rest);
    assert LineCommentAt(rest);
    forall k | 2 <= k < |b| + 2
      ensures !IsLineTerminator(rest[k])
    {
      assert rest[k] == b[k - 2];
    }
    LineEndFirst(rest, 2, |b| + 2);
  }

  lemma LineCommentShape(a: string, b: string, t: char, c: string) returns (rest: string)
    ensures a + "//" + b + [t] + c == a + rest
    ensures |rest| == |b| + 3 + |c| && rest[0] == '/' && rest[1] == '/' && rest[|b| + 2] == t
    ensures forall k :: 2 <= k < |b| + 2 ==> rest[k] == b[k - 2]
    ensures rest[|b| + 2..] == [t] + c
  {
    var u := b + ([t] + c);
    rest := "//" + u;
    assert rest[2..] == u && u[|b|..] == [t] + c;
  }

  /** What the second pass leaves contains no `//` at all. */
  lemma {:induction false} NoLineCommentLeft(s: string)
    ensures forall k :: 0 <= k < |StripLineComments(s)| - 1 ==>
      !(StripLineComments(s)[k] == '/' && StripLineComments(s)[k + 1] == '/')
    decreases |s|
  {
    if s != [] {
      if LineCommentAt(s) {
        NoLineCommentLeft(s[LineEnd(s, 2)..]);
      } else {
        NoLineCommentLeft(s[1..]);
        var rest := StripLineComments(s[1..]);
        var r := StripLineComments(s);
        assert r == [s[0]] + rest;
        assert s[0] == '/' && rest != [] ==> rest[0] != '/';
        forall k | 0 <= k < |r| - 1
          ensures !(r[k] == '/' && r[k + 1] == '/')
        {
          if k > 0 {
            assert r[k] == rest[k - 1] && r[k + 1] == rest[k];
          }
        }
      }
    }
  }

  // ---------------------------------------------------------------- pass 3: string literals

  /**
    Where the literal opened by the quote `q` ends, when the body is read from
    position `p`, following the backtracking order of `(?:\\[\s\S]|(?!\1).)*\1`:
    the greedy repetition first tries an escape pair, then one ordinary character
    (neither the quote nor a line terminator), and only then the closing quote.
  */
  function LiteralEnd(s: string, q: char, p: nat): (r: Option<nat>)
    ensures r.Some? ==> p < r.value <= |s| && s[r.value - 1] == q
    decreases |s| - p
  {
    if p >= |s| then None
    else
      var viaEscape := if s[p] == '\\' && p + 1 < |s| then LiteralEnd(s, q, p + 2) else None;
      if viaEscape.Some? then viaEscape
      else
        var viaChar := if s[p] != q && !IsLineTerminator(s[p]) then LiteralEnd(s, q, p + 1) else None;
        if viaChar.Some? then viaChar
        else if s[p] == q then Some(p + 1)
        else None
  }

  /** A literal that is closed starts at the front of `s`; the value is its length. */
  function StringLiteralAt(s: string): (r: Option<nat>)
    ensures r.Some? ==> 2 <= r.value <= |s|
  {
    if s != [] && IsQuote(s[0]) then LiteralEnd(s, s[0], 1) else None
  }

  /** The third pass: every quoted literal that closes is removed. */
  function StripStrings(s: string): string
    decreases |s|
  {
    if s == [] then []
    else if StringLiteralAt(s).Some? then StripStrings(s[StringLiteralAt(s).value..])
    else [s[0]] + StripStrings(s[1..])
  }

  /** Text without quotes passes the third pass unchanged. */
  lemma {:induction false} StripStringsKeeps(x: string, y: string)
    requires forall k :: 0 <= k < |x| ==> !IsQuote(x[k])
    ensures StripStrings(x + y) == x + StripStrings(y)
    decreases |x|
  {
    if x != [] {
      var s := x + y;
      assert s[0] == x[0] && s[1..] == x[1..] + y;
      assert StripStrings(s) == [x[0]] + StripStrings(x[1..] + y);
      StripStringsKeeps(x[1..], y);
      assert [x[0]] + x[1..] == x;
    } else {
      assert x + y == y;
    }
  }

  /** A body of plain characters (no quote `q`, backslash or line terminator) ends at the first `q`. */
  lemma {:induction false} LiteralThrough(s: string, q: char, n: nat, p: nat)
    requires IsQuote(q) && 1 <= p <= n < |s| && s[n] == q
    requires forall k :: p <= k < n ==> s[k] != q && s[k] != '\\' && !IsLineTerminator(s[k])
    ensures LiteralEnd(s, q, p) == Some(n + 1)
    decreases n - p
  {
    if p < n {
      LiteralThrough(s, q, n, p + 1);
    }
  }

  /** A closed literal with a plain body disappears, and what follows is cleaned on its own. */
  lemma StringLiteralGone(a: string, q: char, b: string, c: string)
    requires IsQuote(q)
    requires forall k :: 0 <= k < |a| ==> !IsQuote(a[k])
    requires forall k :: 0 <= k < |b| ==> b[k] != q && b[k] != '\\' && !IsLineTerminator(b[k])
    ensures StripStrings(a + [q] + b + [q] + c) == a + StripStrings(c)
  {
    var rest := LiteralShape(a, q, b, c);
    StripStringsKeeps(a, rest);
    LiteralThrough(rest, q, |b| + 1, 1);
    assert StringLiteralAt(rest) == Some(|b| + 2);
  }

  lemma LiteralShape(a: string, q: char, b: string, c: string) returns (rest: string)
    ensures a + [q] + b + [q] + c == a + rest
    ensures |rest| == |b| + 2 + |c| && rest[0] == q && rest[|b| + 1] == q
    ensures forall k :: 1 <= k < |b| + 1 ==> rest[k] == b[k - 1]
    ensures rest[|b| + 2..] == c
  {
    var u := b + ([q] + c);
    rest := [q] + u;
    assert rest[1..] == u && u[|b|..] == [q] + c;
  }

  // ---------------------------------------------------------------- names

  const EnvPrefix: string := "process.env."

  /** A character of `[A-Z0-9_]`. */
  predicate IsNameChar(c: char)
  {
    'A' <= c <= 'Z' || '0' <= c <= '9' || c == '_'
  }

  /** The length of the longest run of name characters starting at `p`. */
  function NameRun(s: string, p: nat): (r: nat)
    requires p <= |s|
    ensures p + r <= |s|
    ensures forall k :: p <= k < p + r ==> IsNameChar(s[k])
    ensures p + r < |s| ==> !IsNameChar(s[p + r])
    decreases |s| - p
  {
    if p < |s| && IsNameChar(s[p]) then 1 + NameRun(s, p + 1) else 0
  }

  /** Where the match starting at `p` ends. */
  function MatchEnd(s: string, p: nat): nat
    requires p + |EnvPrefix| <= |s|
  {
    p + |EnvPrefix| + NameRun(s, p + |EnvPrefix|)
  }

  /** `/\bprocess\.env\.([A-Z0-9_]+)\b/` matches at position `p`. */
  predicate MatchAt(s: string, p: nat)
  {
    OccursAt(s, EnvPrefix, p)
    && (p == 0 || !IsRegexWordChar(s[p - 1]))
    && NameRun(s, p + |EnvPrefix|) > 0
    && (MatchEnd(s, p) == |s| || !IsRegexWordChar(s[MatchEnd(s, p)]))
  }

  /** The captured name of the match at `p`. */
  function NameAt(s: string, p: nat): string
    requires p + |EnvPrefix| <= |s|
  {
    s[p + |EnvPrefix|..MatchEnd(s, p)]
  }

  /** A non-empty string of name characters. */
  predicate IsName(x: string)
  {
    x != [] && forall k :: 0 <= k < |x| ==> IsNameChar(x[k])
  }

  /** `matchAll` from position `i`: after a match the search resumes where it ended. */
  function MatchesFrom(s: string, i: nat): (r: seq<string>)
    requires i <= |s|
    ensures forall k :: 0 <= k < |r| ==> IsName(r[k])
    decreases |s| - i
  {
    if i == |s| then []
    else if MatchAt(s, i) then [NameAt(s, i)] + MatchesFrom(s, MatchEnd(s, i))
    else MatchesFrom(s, i + 1)
  }

  /** `findEnvVarsInFile` on the text of one file. */
  function FindEnvVars(content: string): (r: seq<string>)
    ensures forall k :: 0 <= k < |r| ==> IsName(r[k])
  {
    MatchesFrom(StripStrings(StripLineComments(StripBlockComments(content))), 0)
  }

  lemma EnvPrefixChars()
    ensures |EnvPrefix| == 12 && EnvPrefix[0] == 'p'
    ensures forall k :: 1 <= k < |EnvPrefix| ==> EnvPrefix[k] != 'p'
  {
  }

  /** Two matches never overlap: nothing inside a match starts another. */
  lemma NoOverlap(s: string, q: nat, p: nat)
    requires MatchAt(s, q) && q < p < MatchEnd(s, q)
    ensures !MatchAt(s, p)
  {
    EnvPrefixChars();
    if MatchAt(s, p) {
      OccursAtIndex(s, EnvPrefix, p, 0);
      if p < q + |EnvPrefix| {
        OccursAtIndex(s, EnvPrefix, q, p - q);
      }
    }
  }

  /** Some match at or after `i` captures `x`. */
  predicate FoundFrom(s: string, i: nat, x: string)
  {
    exists p :: i <= p < |s| && MatchAt(s, p) && NameAt(s, p) == x
  }

  /**
    The names found from position `i` on are exactly the captures of the matches
    starting there: no match is skipped and nothing else is reported.
  */
  lemma {:induction false} MatchesSpec(s: string, i: nat, x: string)
    requires i <= |s|
    ensures x in MatchesFrom(s, i) <==> FoundFrom(s, i, x)
    decreases |s| - i
  {
    if i < |s| {
      if MatchAt(s, i) {
        MatchesSpec(s, MatchEnd(s, i), x);
        MatchStep(s, i, x);
      } else {
        MatchesSpec(s, i + 1, x);
        SkipStep(s, i, x);
      }
    }
  }

  /** A match at `i` reports its name and resumes at its end, skipping nothing. */
  lemma MatchStep(s: string, i: nat, x: string)
    requires i < |s| && MatchAt(s, i)
    requires x in MatchesFrom(s, MatchEnd(s, i)) <==> FoundFrom(s, MatchEnd(s, i), x)
    ensures x in MatchesFrom(s, i) <==> FoundFrom(s, i, x)
  {
    var e := MatchEnd(s, i);
    var rest := MatchesFrom(s, e);
    assert MatchesFrom(s, i) == [NameAt(s, i)] + rest;
    if x in MatchesFrom(s, i) && x != NameAt(s, i) {
      assert x in rest;
      var p :| e <= p < |s| && MatchAt(s, p) && NameAt(s, p) == x;
      assert i <= p;
    }
    if FoundFrom(s, i, x) {
      var p :| i <= p < |s| && MatchAt(s, p) && NameAt(s, p) == x;
      if i < p < e {
        NoOverlap(s, i, p);
      } else if p >= e {
        assert FoundFrom(s, e, x);
      }
    }
  }

  /** No match at `i`: the search moves on by one character. */
  lemma SkipStep(s: string, i: nat, x: string)
    requires i < |s| && !MatchAt(s, i)
    requires x in MatchesFrom(s, i + 1) <==> FoundFrom(s, i + 1, x)
    ensures x in MatchesFrom(s, i) <==> FoundFrom(s, i, x)
  {
    assert MatchesFrom(s, i) == MatchesFrom(s, i + 1);
    if FoundFrom(s, i, x) {
      var p :| i <= p < |s| && MatchAt(s, p) && NameAt(s, p) == x;
      assert p != i;
      assert FoundFrom(s, i + 1, x);
    }
  }

  // ---------------------------------------------------------------- what is ignored

  /** A slash at position `k` of `x`, without `/` in `a` and `b`, is one of the two that open the line comment. */
  lemma LineShapeSlashes(a: string, b: string, t: char, c: string) returns (x: string)
    requires '/' !in a && '/' !in b && (b == [] || b[0] != '*') && t != '/' && t != '*'
    ensures x == a + "//" + b + [t]
    ensures x + c == a + "//" + b + [t] + c
    ensures OpensNoBlock(x, c)
  {
    x := a + "//" + b + [t];
    assert |x| == |a| + |b| + 3;
    forall k | 0 <= k < |x| && x[k] == '/' && k + 1 < |x| + |c|
      ensures (x + c)[k + 1] != '*'
    {
      if k == |a| {
        assert (x + c)[k + 1] == x[k + 1] == '/';
      } else if k == |a| + 1 {
        if b == [] {
          assert (x + c)[k + 1] == t;
        } else {
          assert (x + c)[k + 1] == b[0];
        }
      }
    }
  }

  lemma NoSlashOpensNothing(x: string, y: string)
    requires '/' !in x
    ensures OpensNoBlock(x, y) && OpensNoLine(x, y)
  {
    forall k | 0 <= k < |x|
      ensures x[k] != '/'
    {
      assert x[k] in x;
    }
  }

  /**
    Deleting a block comment does not change what is reported, when nothing before
    it on the way is a slash and nothing inside it closes it early.
  */
  lemma BlockCommentIgnored(a: string, b: string, c: string)
    requires '/' !in a
    requires forall j :: 0 <= j < |b| ==> !ClosesAt(b, j)
    ensures FindEnvVars(a + "/*" + b + "*/" + c) == FindEnvVars(a + c)
  {
    BlockCommentGone(a, b, c);
    NoSlashOpensNothing(a, c);
    StripBlockKeeps(a, c);
  }

  /** Deleting a line comment, up to its line terminator, does not change what is reported. */
  lemma LineCommentIgnored(a: string, b: string, t: char, c: string)
    requires '/' !in a && '/' !in b && (b == [] || b[0] != '*')
    requires forall k :: 0 <= k < |b| ==> !IsLineTerminator(b[k])
    requires IsLineTerminator(t)
    ensures FindEnvVars(a + "//" + b + [t] + c) == FindEnvVars(a + [t] + c)
  {
    var x := LineShapeSlashes(a, b, t, c);
    StripBlockKeeps(x, c);
    var c1 := StripBlockComments(c);
    NoSlashOpensNothing(a + [t], c);
    StripBlockKeeps(a + [t], c);
    assert StripBlockComments(a + "//" + b + [t] + c) == a + "//" + b + [t] + c1;
    assert StripBlockComments(a + [t] + c) == a + ([t] + c1);
    LineCommentGone(a, b, t, c1);
    NoSlashOpensNothing(a, [t] + c1);
    StripLineKeeps(a, [t] + c1);
  }

  /**
    Deleting a closed literal whose body is plain (no quote of its kind, backslash,
    line terminator or slash) does not change what is reported.
  */
  lemma StringLiteralIgnored(a: string, q: char, b: string, c: string)
    requires IsQuote(q) && '/' !in a && '/' !in b
    requires forall k :: 0 <= k < |a| ==> !IsQuote(a[k])
    requires forall k :: 0 <= k < |b| ==> b[k] != q && b[k] != '\\' && !IsLineTerminator(b[k])
    ensures FindEnvVars(a + [q] + b + [q] + c) == FindEnvVars(a + c)
  {
    var x := a + [q] + b + [q];
    assert '/' !in x by {
      assert x == a + ([q] + b + [q]);
    }
    NoSlashOpensNothing(x, c);
    NoSlashOpensNothing(a, c);
    StripBlockKeeps(x, c);
    StripBlockKeeps(a, c);
    var c1 := StripBlockComments(c);
    NoSlashOpensNothing(x, c1);
    NoSlashOpensNothing(a, c1);
    StripLineKeeps(x, c1);
    StripLineKeeps(a, c1);
    var c2 := StripLineComments(c1);
    StringLiteralGone(a, q, b, c2);
    StripStringsKeeps(a, c2);
  }

  /**
    Line comments go before literals, so a `//` inside a literal (a URL, say) removes
    the rest of that line, closing quote and any `process.env` name after it included.
  */
  lemma SlashesInLiteralEndTheLine(a: string, q: char, b: string, d: string, t: char, c: string)
    requires IsQuote(q) && '/' !in a && '/' !in b && '/' !in d && (d == [] || d[0] != '*')
    requires forall k :: 0 <= k < |d| ==> !IsLineTerminator(d[k])
    requires IsLineTerminator(t)
    ensures FindEnvVars(a + [q] + b + "//" + d + [t] + c) == FindEnvVars(a + [q] + b + [t] + c)
  {
    var a' := a + [q] + b;
    assert '/' !in a' by {
      assert a' == a + ([q] + b);
    }
    LineCommentIgnored(a', d, t, c);
  }

  // ---------------------------------------------------------------- ordering

  /** The default `sort` order on strings: by character code, a proper prefix first. */
  predicate Less(a: string, b: string)
    decreases |a|
  {
    if b == [] then false
    else if a == [] then true
    else if a[0] != b[0] then a[0] < b[0]
    else Less(a[1..], b[1..])
  }

  lemma {:induction false} LessIrreflexive(a: string)
    ensures !Less(a, a)
    decreases |a|
  {
    if a != [] {
      LessIrreflexive(a[1..]);
    }
  }

  lemma {:induction false} LessTransitive(a: string, b: string, c: string)
    requires Less(a, b) && Less(b, c)
    ensures Less(a, c)
    decreases |a|
  {
    if a != [] && a[0] == b[0] && b[0] == c[0] {
      LessTransitive(a[1..], b[1..], c[1..]);
    }
  }

  lemma {:induction false} LessTotal(a: string, b: string)
    requires a != b
    ensures Less(a, b) || Less(b, a)
    decreases |a|
  {
    if a != [] && b != [] && a[0] == b[0] {
      assert a == [a[0]] + a[1..] && b == [b[0]] + b[1..];
      LessTotal(a[1..], b[1..]);
    }
  }

  /** Strictly ascending, so without repetitions. */
  predicate StrictlySorted(s: seq<string>)
  {
    forall i, j :: 0 <= i < j < |s| ==> Less(s[i], s[j])
  }

  predicate Distinct(s: seq<string>)
  {
    forall i, j :: 0 <= i < j < |s| ==> s[i] != s[j]
  }

  lemma {:induction false} BelowAll(x: string, s: seq<string>)
    requires StrictlySorted(s) && s != [] && Less(x, s[0])
    ensures StrictlySorted([x] + s)
  {
    forall j | 1 <= j < |s|
      ensures Less(x, s[j])
    {
      LessTransitive(x, s[0], s[j]);
    }
  }

  lemma HeadBelowRest(h: string, x: string, tail: seq<string>, rest: seq<string>)
    requires StrictlySorted([h] + tail) && StrictlySorted(rest) && Less(h, x)
    requires multiset(rest) == multiset(tail) + multiset{x}
    ensures StrictlySorted([h] + rest)
  {
    forall j | 0 <= j < |rest|
      ensures Less(h, rest[j])
    {
      assert rest[j] in multiset(rest);
      if rest[j] != x {
        assert rest[j] in multiset(tail);
        var k :| 0 <= k < |tail| && tail[k] == rest[j];
        assert ([h] + tail)[0] == h && ([h] + tail)[k + 1] == tail[k];
      }
    }
  }

  /** One step of sorting: `x` goes before the first element above it. */
  function Insert(x: string, s: seq<string>): (r: seq<string>)
    requires StrictlySorted(s) && x !in s
    ensures StrictlySorted(r)
    ensures multiset(r) == multiset(s) + multiset{x}
    decreases |s|
  {
    if s == [] then [x]
    else if Less(x, s[0]) then
      BelowAll(x, s);
      [x] + s
    else
      LessTotal(x, s[0]);
      var rest := Insert(x, s[1..]);
      HeadBelowRest(s[0], x, s[1..], rest);
      assert s == [s[0]] + s[1..];
      [s[0]] + rest
  }

  /** `Array.from(envVars).sort()` for names without repetitions. */
  function Sort(s: seq<string>): (r: seq<string>)
    requires Distinct(s)
    ensures StrictlySorted(r)
    ensures multiset(r) == multiset(s)
    decreases |s|
  {
    if s == [] then []
    else
      assert Distinct(s[1..]) by {
        forall i, j | 0 <= i < j < |s[1..]|
          ensures s[1..][i] != s[1..][j]
        {
          assert s[1..][i] == s[i + 1] && s[1..][j] == s[j + 1];
        }
      }
      var rest := Sort(s[1..]);
      assert s[0] !in rest by {
        forall k | 0 <= k < |s[1..]|
          ensures s[1..][k] != s[0]
        {
          assert s[1..][k] == s[k + 1];
        }
        assert s[0] !in multiset(s[1..]);
        assert s[0] !in multiset(rest);
      }
      assert s == [s[0]] + s[1..];
      Insert(s[0], rest)
  }

  lemma SameEmptiness(a: seq<string>, b: seq<string>)
    requires forall x :: x in a <==> x in b
    ensures a == [] <==> b == []
  {
    if a != [] {
      assert a[0] in a;
    }
    if b != [] {
      assert b[0] in b;
    }
  }

  /** A strictly ascending list is determined by its elements; the output depends on nothing else. */
  lemma {:induction false} SortedUnique(a: seq<string>, b: seq<string>)
    requires StrictlySorted(a) && StrictlySorted(b)
    requires forall x :: x in a <==> x in b
    ensures a == b
    decreases |a|
  {
    SameEmptiness(a, b);
    if a != [] && b != [] {
      if a[0] != b[0] {
        assert a[0] in a && b[0] in b;
        var j :| 0 <= j < |b| && b[j] == a[0];
        var i :| 0 <= i < |a| && a[i] == b[0];
        LessIrreflexive(a[0]);
        LessIrreflexive(b[0]);
        LessTransitive(a[0], a[i], b[j]);
      }
      forall x
        ensures x in a[1..] <==> x in b[1..]
      {
        if x in a[1..] {
          var i :| 0 <= i < |a[1..]| && a[1..][i] == x;
          assert Less(a[0], a[i + 1]);
          LessIrreflexive(x);
          assert x in b;
          var j :| 0 <= j < |b| && b[j] == x;
          assert j != 0;
          assert b[1..][j - 1] == x;
        }
        if x in b[1..] {
          var j :| 0 <= j < |b[1..]| && b[1..][j] == x;
          assert Less(b[0], b[j + 1]);
          LessIrreflexive(x);
          assert x in a;
          var i :| 0 <= i < |a| && a[i] == x;
          assert i != 0;
          assert a[1..][i - 1] == x;
        }
      }
      SortedUnique(a[1..], b[1..]);
      assert a == [a[0]] + a[1..] && b == [b[0]] + b[1..];
    }
  }

  // ---------------------------------------------------------------- output

  const Header: string := "const REQUIRED_VARS = [\n"
  const Footer: string := "\n];\n\nexport default REQUIRED_VARS;\n"

  /** The line written for one name. */
  function Line(v: string): string
  {
    "  \"" + v + "\","
  }

  function Lines(vs: seq<string>): (r: seq<string>)
    ensures |r| == |vs| && forall k :: 0 <= k < |vs| ==> r[k] == Line(vs[k])
  {
    seq(|vs|, k requires 0 <= k < |vs| => Line(vs[k]))
  }

  /** The generated module's text. */
  function Render(vs: seq<string>): string
  {
    Header + Join(Lines(vs), "\n") + Footer
  }

  /** The text between the fixed opening and closing of the module. */
  function Middle(out: string): string
    requires |out| >= |Header| + |Footer|
  {
    out[|Header|..|out| - |Footer|]
  }

  /** With no names the opening and the closing meet, leaving one blank line inside the brackets. */
  lemma RenderEmpty()
    ensures Render([]) == Header + Footer
    ensures Render([])[|Header| - 1] == '\n' && Render([])[|Header|] == '\n'
  {
    assert Lines([]) == [];
    assert Join([], "\n") == "";
    assert Render([]) == Header + Footer;
  }

  lemma LineShape(v: string)
    ensures |Line(v)| == |v| + 5 && Line(v)[3..|v| + 3] == v
  {
    var l := Line(v);
    assert l == "  \"" + (v + "\",");
    assert l[3..] == v + "\",";
    assert l[3..|v| + 3] == v;
  }

  lemma LineNoNewline(v: string)
    requires IsName(v)
    ensures '\n' !in Line(v)
  {
    var l := Line(v);
    assert l == "  \"" + (v + "\",");
    forall k | 0 <= k < |l|
      ensures l[k] != '\n'
    {
      if 3 <= k < |v| + 3 {
        assert l[k] == v[k - 3];
      }
    }
  }

  lemma MiddleOfRender(vs: seq<string>)
    ensures |Render(vs)| >= |Header| + |Footer| && Middle(Render(vs)) == Join(Lines(vs), "\n")
  {
    var j := Join(Lines(vs), "\n");
    var out := Header + (j + Footer);
    assert Render(vs) == out;
    assert out[|Header|..] == j + Footer;
    assert (j + Footer)[..|j|] == j;
  }

  /** Each name gets a line of its own, `  "NAME",`, in the order given. */
  lemma RenderLines(vs: seq<string>)
    requires vs != [] && forall k :: 0 <= k < |vs| ==> IsName(vs[k])
    ensures |Render(vs)| >= |Header| + |Footer|
    ensures Split(Middle(Render(vs)), '\n') == Lines(vs)
  {
    MiddleOfRender(vs);
    forall k | 0 <= k < |vs|
      ensures '\n' !in Lines(vs)[k]
    {
      LineNoNewline(vs[k]);
    }
    SplitJoin(Lines(vs), '\n');
  }

  lemma JoinNonEmpty(parts: seq<string>, sep: string)
    requires parts != [] && parts[0] != []
    ensures Join(parts, sep) != []
  {
  }

  /** Different name lists give different files: the file can be read back. */
  lemma RenderInjective(a: seq<string>, b: seq<string>)
    requires forall k :: 0 <= k < |a| ==> IsName(a[k])
    requires forall k :: 0 <= k < |b| ==> IsName(b[k])
    requires Render(a) == Render(b)
    ensures a == b
  {
    MiddleOfRender(a);
    MiddleOfRender(b);
    if a != [] && b != [] {
      RenderLines(a);
      RenderLines(b);
      forall k | 0 <= k < |a|
        ensures a[k] == b[k]
      {
        LineShape(a[k]);
        LineShape(b[k]);
      }
    } else if a != [] {
      LineShape(a[0]);
      JoinNonEmpty(Lines(a), "\n");
    } else if b != [] {
      LineShape(b[0]);
      JoinNonEmpty(Lines(b), "\n");
    }
  }

  // ---------------------------------------------------------------- the generator

  /** `x` is reported by some file of `files` that could be read. */
  predicate Reported(files: seq<Option<string>>, x: string)
  {
    exists i :: 0 <= i < |files| && files[i].Some? && x in FindEnvVars(files[i].value)
  }

  /** `vars.forEach((v) => envVars.add(v))`: a set kept in insertion order. */
  method AddAll(envVars: seq<string>, vars: seq<string>) returns (r: seq<string>)
    requires Distinct(envVars)
    ensures Distinct(r) && |envVars| <= |r| && r[..|envVars|] == envVars
    ensures forall x :: x in r <==> x in envVars || x in vars
  {
    r := envVars;
    for m := 0 to |vars|
      invariant Distinct(r) && |envVars| <= |r| && r[..|envVars|] == envVars
      invariant forall x :: x in r <==> x in envVars || x in vars[..m]
    {
      assert vars[..m + 1] == vars[..m] + [vars[m]];
      if vars[m] !in r {
        r := r + [vars[m]];
      }
    }
    assert vars[..|vars|] == vars;
  }

  /** The loop over the files: every readable file contributes its names; an unreadable one is skipped. */
  method CollectEnvVars(files: seq<Option<string>>) returns (envVars: seq<string>)
    ensures Distinct(envVars)
    ensures forall x :: x in envVars <==> Reported(files, x)
  {
    envVars := [];
    for i := 0 to |files|
      invariant Distinct(envVars)
      invariant forall x :: x in envVars <==> Reported(files[..i], x)
    {
      assert forall x :: Reported(files[..i + 1], x) <==>
        Reported(files[..i], x) || (files[i].Some? && x in FindEnvVars(files[i].value)) by {
        assert forall k :: 0 <= k < i ==> files[..i + 1][k] == files[..i][k];
        assert files[..i + 1][i] == files[i];
      }
      match files[i]
      case None =>
      case Some(content) =>
        var vars := FindEnvVars(content);
        envVars := AddAll(envVars, vars);
    }
    assert files[..|files|] == files;
  }

  /**
    `generateRequiredEnvVars` without the file system: the sorted names and the
    text written to the output file.
  */
  method GenerateRequiredEnvVars(files: seq<Option<string>>) returns (sortedVars: seq<string>, jsContent: string)
    ensures StrictlySorted(sortedVars)
    ensures forall x :: x in sortedVars <==> Reported(files, x)
    ensures forall k :: 0 <= k < |sortedVars| ==> IsName(sortedVars[k])
    ensures jsContent == Render(sortedVars)
  {
    var envVars := CollectEnvVars(files);
    sortedVars := Sort(envVars);
    forall x
      ensures x in sortedVars <==> x in envVars
    {
      assert x in sortedVars <==> x in multiset(sortedVars);
      assert x in envVars <==> x in multiset(envVars);
    }
    forall k | 0 <= k < |sortedVars|
      ensures IsName(sortedVars[k])
    {
      assert sortedVars[k] in envVars;
      var i :| 0 <= i < |files| && files[i].Some? && sortedVars[k] in FindEnvVars(files[i].value);
    }
    jsContent := Render(sortedVars);
  }
}
