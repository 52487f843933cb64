/**
  The text side of search (client/src/hooks/useSearch.js): `normalize`, the
  query words, and `matchesQuery`.

  `normalize` lower-cases, replaces every maximal run of characters outside
  `[a-z0-9]` by one space, and trims. Its result is made of words of
  `[a-z0-9]` separated by single spaces (`NormalizeIsNormalized`), it is
  idempotent (`NormalizeIdempotent`), and for a word it loses no occurrence
  and creates none (`ContainsNormalize`).
*/
module SearchText {
  import opened JsString
  import opened Html

  // ---------------------------------------------------------------- normalize

  /** The length of the leading run of characters outside `[a-z0-9]`. */
  function NonAlnumRun(s: string): (n: nat)
    ensures n <= |s|
  {
    if s == [] || IsLowerAlnum(s[0]) then 0 else 1 + NonAlnumRun(s[1..])
  }

  lemma {:induction false} NonAlnumRunSpec(s: string)
    ensures forall k :: 0 <= k < NonAlnumRun(s) ==> !IsLowerAlnum(s[k])
    ensures NonAlnumRun(s) < |s| ==> IsLowerAlnum(s[NonAlnumRun(s)])
  {
    if s != [] && !IsLowerAlnum(s[0]) {
      NonAlnumRunSpec(s[1..]);
      forall k | 1 <= k < NonAlnumRun(s) ensures !IsLowerAlnum(s[k]) {
        assert s[k] == s[1..][k - 1];
      }
    }
  }

  /** `replace(/[^a-z0-9]+/g, " ")`: every maximal run outside `[a-z0-9]` becomes one space. */
  function Squash(s: string): string
    decreases |s|
  {
    if s == [] then []
    else if IsLowerAlnum(s[0]) then [s[0]] + Squash(s[1..])
    else [' '] + Squash(s[NonAlnumRun(s)..])
  }

  /** `normalize`. */
  function Normalize(s: string): string
  {
    Trim(Squash(Lower(s)))
  }

  /** Characters of `[a-z0-9]` and spaces, never two spaces in a row. */
  predicate SpacedWords(t: string)
  {
    (forall i :: 0 <= i < |t| ==> IsLowerAlnum(t[i]) || t[i] == ' ')
    && (forall i :: 0 < i < |t| ==> t[i - 1] != ' ' || t[i] != ' ')
  }

  /** What `normalize` produces: words of `[a-z0-9]` separated by single spaces. */
  predicate IsNormalized(t: string)
  {
    SpacedWords(t) && (t != [] ==> t[0] != ' ' && t[|t| - 1] != ' ')
  }

  lemma SquashFirst(s: string)
    requires s != []
    ensures Squash(s) != [] && Squash(s)[0] == if IsLowerAlnum(s[0]) then s[0] else ' '
  {
  }

  lemma {:induction false} SquashShape(s: string)
    ensures SpacedWords(Squash(s))
    decreases |s|
  {
    if s != [] {
      if IsLowerAlnum(s[0]) {
        SquashShape(s[1..]);
        if s[1..] != [] {
          SquashFirst(s[1..]);
        }
      } else {
        var n := NonAlnumRun(s);
        NonAlnumRunSpec(s);
        SquashShape(s[n..]);
        if s[n..] != [] {
          assert s[n..][0] == s[n];
          SquashFirst(s[n..]);
        }
      }
    }
  }

  lemma SliceSpaced(t: string, i: nat, j: nat)
    requires SpacedWords(t) && i <= j <= |t|
    ensures SpacedWords(t[i..j])
  {
    var r := t[i..j];
    forall k | 0 <= k < |r| ensures IsLowerAlnum(r[k]) || r[k] == ' ' {
      assert r[k] == t[i + k];
    }
    forall k | 0 < k < |r| ensures r[k - 1] != ' ' || r[k] != ' ' {
      assert r[k - 1] == t[i + k - 1] && r[k] == t[i + k];
    }
  }

  lemma TrimSpaced(t: string)
    requires SpacedWords(t)
    ensures IsNormalized(Trim(t))
  {
    var r := Trim(t);
    var i, j :| 0 <= i <= j <= |t| && r == t[i..j];
    SliceSpaced(t, i, j);
  }

  /** The output of `normalize` is normalised. */
  lemma NormalizeIsNormalized(s: string)
    ensures IsNormalized(Normalize(s))
  {
    SquashShape(Lower(s));
    TrimSpaced(Squash(Lower(s)));
  }

  lemma {:induction false} SquashSpaced(t: string)
    requires SpacedWords(t)
    ensures Squash(t) == t
    decreases |t|
  {
    if t != [] {
      assert SpacedWords(t[1..]) by {
        forall k | 0 < k < |t[1..]| ensures t[1..][k - 1] != ' ' || t[1..][k] != ' ' {
          assert t[1..][k - 1] == t[k] && t[1..][k] == t[k + 1];
        }
      }
      SquashSpaced(t[1..]);
      if !IsLowerAlnum(t[0]) {
        assert |t| > 1 ==> t[1] != ' ';
        assert NonAlnumRun(t) == 1;
      }
    }
  }

  lemma JsSpaceNotAlnum(c: char)
    requires IsJsSpace(c)
    ensures !IsLowerAlnum(c)
  {
  }

  lemma LowerFixed(t: string)
    requires forall k :: 0 <= k < |t| ==> IsLowerAlnum(t[k]) || t[k] == ' '
    ensures Lower(t) == t
  {
  }

  lemma TrimFixed(t: string)
    requires t != [] ==> IsLowerAlnum(t[0]) && IsLowerAlnum(t[|t| - 1])
    ensures Trim(t) == t
  {
    if t != [] {
      assert !IsJsSpace(t[0]) && !IsJsSpace(t[|t| - 1]);
      assert TrimStart(t) == t;
      assert TrimEnd(t) == t;
    }
  }

  /** A normalised string is left as it is. */
  lemma NormalizedFixed(t: string)
    requires IsNormalized(t)
    ensures Normalize(t) == t
  {
    LowerFixed(t);
    SquashSpaced(t);
    TrimFixed(t);
  }

  /** `normalize` is idempotent, so re-normalising in `matchesQuery` changes nothing. */
  lemma NormalizeIdempotent(s: string)
    ensures Normalize(Normalize(s)) == Normalize(s)
  {
    NormalizeIsNormalized(s);
    NormalizedFixed(Normalize(s));
  }

  // ---------------------------------------------------------------- occurrences of words

  /** A query word: a non-empty string over `[a-z0-9]`. */
  predicate IsWord(w: string)
  {
    w != [] && forall k :: 0 <= k < |w| ==> IsLowerAlnum(w[k])
  }

  predicate StartsWith(s: string, w: string)
  {
    |w| <= |s| && s[..|w|] == w
  }

  /** Characters outside `[a-z0-9]` at both ends cannot take part in an occurrence of a word. */
  lemma ContainsWithin(s: string, i: nat, j: nat, w: string)
    requires IsWord(w) && i <= j <= |s|
    requires forall k :: 0 <= k < i ==> !IsLowerAlnum(s[k])
    requires forall k :: j <= k < |s| ==> !IsLowerAlnum(s[k])
    ensures Contains(s[i..j], w) <==> Contains(s, w)
  {
    if Contains(s[i..j], w) {
      ContainsSlice(s, i, j, w);
    }
    if Contains(s, w) {
      var p :| 0 <= p <= |s| && OccursAt(s, w, p);
      assert s[p] == w[0];
      assert s[p + |w| - 1] == w[|w| - 1];
      assert i <= p && p + |w| <= j;
      forall t | 0 <= t < |w| ensures s[i..j][p - i..p - i + |w|][t] == w[t] {
        assert s[i..j][p - i..p - i + |w|][t] == s[p + t] == s[p..p + |w|][t];
      }
      assert OccursAt(s[i..j], w, p - i);
    }
  }

  lemma StartsWithCons(c: char, x: string, w: string)
    requires w != []
    ensures StartsWith([c] + x, w) <==> c == w[0] && StartsWith(x, w[1..])
  {
    if StartsWith([c] + x, w) {
      assert x[..|w| - 1] == ([c] + x)[..|w|][1..];
    }
    if c == w[0] && StartsWith(x, w[1..]) {
      assert ([c] + x)[..|w|] == [c] + x[..|w| - 1];
    }
  }

  lemma {:induction false} StartsSquash(t: string, w: string)
    requires IsWord(w)
    ensures StartsWith(Squash(t), w) <==> StartsWith(t, w)
    decreases |t|
  {
    if t == [] {
    } else if !IsLowerAlnum(t[0]) {
      SquashFirst(t);
      assert |w| <= |t| ==> t[..|w|][0] == t[0];
      assert |w| <= |Squash(t)| ==> Squash(t)[..|w|][0] == Squash(t)[0];
    } else {
      assert t == [t[0]] + t[1..];
      StartsWithCons(t[0], Squash(t[1..]), w);
      StartsWithCons(t[0], t[1..], w);
      if |w| > 1 {
        StartsSquash(t[1..], w[1..]);
      }
    }
  }

  /** Squashing the separators neither loses nor creates an occurrence of a word. */
  lemma {:induction false} ContainsSquash(t: string, w: string)
    requires IsWord(w)
    ensures Contains(Squash(t), w) <==> Contains(t, w)
    decreases |t|
  {
    ContainsUnfold(Squash(t), w);
    ContainsUnfold(t, w);
    if t != [] {
      if IsLowerAlnum(t[0]) {
        assert Squash(t)[1..] == Squash(t[1..]);
        StartsSquash(t, w);
        ContainsSquash(t[1..], w);
      } else {
        var n := NonAlnumRun(t);
        NonAlnumRunSpec(t);
        assert Squash(t)[1..] == Squash(t[n..]);
        SquashFirst(t);
        assert |w| <= |t| ==> t[..|w|][0] == t[0];
        assert |w| <= |Squash(t)| ==> Squash(t)[..|w|][0] == ' ';
        ContainsSquash(t[n..], w);
        assert t[n..] == t[n..|t|];
        ContainsWithin(t, n, |t|, w);
        assert t[1..] == t[1..|t|];
        ContainsWithin(t, 1, |t|, w);
      }
    }
  }

  /** A word occurs in the normalised text exactly when it occurs in the lower-cased text. */
  lemma ContainsNormalize(s: string, w: string)
    requires IsWord(w)
    ensures Contains(Normalize(s), w) <==> Contains(Lower(s), w)
  {
    var t := Squash(Lower(s));
    var i, j :| 0 <= i <= j <= |t| && Trim(t) == t[i..j]
      && (forall k :: 0 <= k < i ==> IsJsSpace(t[k]))
      && (forall k :: j <= k < |t| ==> IsJsSpace(t[k]));
    forall k | 0 <= k < i || j <= k < |t| ensures !IsLowerAlnum(t[k]) {
      JsSpaceNotAlnum(t[k]);
    }
    ContainsWithin(t, i, j, w);
    ContainsSquash(Lower(s), w);
  }

  // ---------------------------------------------------------------- query words

  /** `filter(Boolean)` on strings: the non-empty ones, in order. */
  function NonEmpty(parts: seq<string>): (r: seq<string>)
    ensures |r| <= |parts|
    ensures forall k :: 0 <= k < |r| ==> r[k] != [] && r[k] in parts
  {
    if parts == [] then []
    else (if parts[0] != [] then [parts[0]] else []) + NonEmpty(parts[1..])
  }

  lemma {:induction false} NonEmptyKeeps(parts: seq<string>)
    requires forall k :: 0 <= k < |parts| ==> parts[k] != []
    ensures NonEmpty(parts) == parts
  {
    if parts != [] {
      NonEmptyKeeps(parts[1..]);
    }
  }

  /** `normalize(searchQuery).split(" ").filter(Boolean)`. */
  function QueryWords(q: string): seq<string>
  {
    NonEmpty(Split(Normalize(q), ' '))
  }

  lemma {:induction false} SplitPiecesAlnum(s: string)
    requires forall i :: 0 <= i < |s| ==> IsLowerAlnum(s[i]) || s[i] == ' '
    ensures forall k, j :: 0 <= k < |Split(s, ' ')| && 0 <= j < |Split(s, ' ')[k]| ==>
      IsLowerAlnum(Split(s, ' ')[k][j])
  {
    if s != [] {
      SplitPiecesAlnum(s[1..]);
      var rest := Split(s[1..], ' ');
      if s[0] != ' ' {
        var r := Split(s, ' ');
        forall k, j | 0 <= k < |r| && 0 <= j < |r[k]| ensures IsLowerAlnum(r[k][j]) {
          if k == 0 {
            assert r[0] == [s[0]] + rest[0];
            if j > 0 {
              assert r[0][j] == rest[0][j - 1];
            }
          } else {
            assert r[k] == rest[k];
          }
        }
      }
    }
  }

  /** Every query word is a word of `[a-z0-9]`. */
  lemma QueryWordsAreWords(q: string)
    ensures forall k :: 0 <= k < |QueryWords(q)| ==> IsWord(QueryWords(q)[k])
  {
    var t := Normalize(q);
    NormalizeIsNormalized(q);
    SplitPiecesAlnum(t);
    var parts := Split(t, ' ');
    forall k | 0 <= k < |QueryWords(q)| ensures IsWord(QueryWords(q)[k]) {
      var w := QueryWords(q)[k];
      var m :| 0 <= m < |parts| && parts[m] == w;
    }
  }

  /** Splitting at single inner spaces leaves no empty piece after the first. */
  lemma {:induction false} SplitNoEmpty(s: string)
    requires s != [] && s[|s| - 1] != ' '
    requires forall i :: 0 < i < |s| ==> s[i - 1] != ' ' || s[i] != ' '
    ensures forall k :: 1 <= k < |Split(s, ' ')| ==> Split(s, ' ')[k] != []
    ensures Split(s, ' ')[0] == [] <==> s[0] == ' '
  {
    var rest := Split(s[1..], ' ');
    if s[1..] == [] {
      assert rest == [""];
    } else {
      forall i | 0 < i < |s[1..]| ensures s[1..][i - 1] != ' ' || s[1..][i] != ' ' {
        assert s[1..][i - 1] == s[i] && s[1..][i] == s[i + 1];
      }
      SplitNoEmpty(s[1..]);
      assert s[1..][0] == s[1];
    }
  }

  /**
    The query words are the pieces of the normalised query: there are none
    exactly when it is empty, and otherwise joining them with spaces gives it back.
  */
  lemma QueryWordsJoin(q: string)
    ensures QueryWords(q) == [] <==> Normalize(q) == []
    ensures Normalize(q) != [] ==> Join(QueryWords(q), " ") == Normalize(q)
  {
    var t := Normalize(q);
    NormalizeIsNormalized(q);
    if t == [] {
      assert Split(t, ' ') == [""];
      assert NonEmpty([""]) == [] + NonEmpty([]);
    } else {
      NormalizedWords(t);
    }
  }

  /** A normalised text that is not empty is the same as its pieces, joined with spaces. */
  lemma NormalizedWords(t: string)
    requires IsNormalized(t) && t != []
    ensures NonEmpty(Split(t, ' ')) == Split(t, ' ') != []
    ensures Join(NonEmpty(Split(t, ' ')), " ") == t
  {
    SplitNoEmpty(t);
    NonEmptyKeeps(Split(t, ' '));
    JoinSplit(t, ' ');
    assert [' '] == " ";
  }

  // ---------------------------------------------------------------- matchesQuery

  /** `matchesQuery`: every query word is a substring of the normalised text. */
  predicate MatchesQuery(words: seq<string>, text: string)
  {
    forall k :: 0 <= k < |words| ==> Contains(Normalize(text), words[k])
  }

  /** The searchable text of a section or subsection: `normalize(text + " " + stripHtml(html))`. */
  function EntryText(text: string, html: seq<Node>): string
  {
    Normalize(text + " " + ForestText(html))
  }

  /** Whether an entry is found: the words all occur in its lower-cased heading and body text. */
  lemma MatchesEntryLower(words: seq<string>, text: string, html: seq<Node>)
    requires forall k :: 0 <= k < |words| ==> IsWord(words[k])
    ensures MatchesQuery(words, EntryText(text, html)) <==>
      forall k :: 0 <= k < |words| ==> Contains(Lower(text + " " + ForestText(html)), words[k])
  {
    NormalizeIdempotent(text + " " + ForestText(html));
    forall k | 0 <= k < |words| {
      ContainsNormalize(text + " " + ForestText(html), words[k]);
    }
  }
}
