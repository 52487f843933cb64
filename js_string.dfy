/**
  The JavaScript string built-ins the application relies on, on Dafny strings:
  `toLowerCase`, `trim`, `includes`, `split`, `join`, `parseInt` and the
  decimal rendering of a non-negative integer. Case mapping covers ASCII only.
*/
module JsString {
  import opened Wrappers

  // ---------------------------------------------------------------- case

  predicate IsUpper(c: char) { 'A' <= c <= 'Z' }

  predicate IsLowerAlnum(c: char) { 'a' <= c <= 'z' || '0' <= c <= '9' }

  /** A character of the regular-expression class `\w`: `[A-Za-z0-9_]`. */
  predicate IsRegexWordChar(c: char) { 'a' <= c <= 'z' || 'A' <= c <= 'Z' || '0' <= c <= '9' || c == '_' }

  function LowerChar(c: char): (r: char)
    ensures !IsUpper(r)
    ensures IsUpper(c) ==> r as int == c as int + 32
    ensures !IsUpper(c) ==> r == c
  {
    if IsUpper(c) then (c as int + 32) as char else c
  }

  /** `toLowerCase`, ASCII letters only. */
  function Lower(s: string): (r: string)
    ensures |r| == |s|
    ensures forall i :: 0 <= i < |s| ==> r[i] == LowerChar(s[i])
  {
    seq(|s|, i requires 0 <= i < |s| => LowerChar(s[i]))
  }

  lemma LowerAppend(a: string, b: string)
    ensures Lower(a + b) == Lower(a) + Lower(b)
  {
  }

  lemma LowerSlice(s: string, i: nat, j: nat)
    requires i <= j <= |s|
    ensures Lower(s[i..j]) == Lower(s)[i..j]
  {
  }

  // ---------------------------------------------------------------- trim

  /** The characters `String.prototype.trim` removes: white space and line terminators. */
  predicate IsJsSpace(c: char)
  {
    c == ' ' || c == '\t' || c == '\n' || c == '\r' || c == '\U{000B}' || c == '\U{000C}'
    || c == '\U{00A0}' || c == '\U{FEFF}' || c == '\U{1680}' || ('\U{2000}' <= c <= '\U{200A}')
    || c == '\U{2028}' || c == '\U{2029}' || c == '\U{202F}' || c == '\U{205F}' || c == '\U{3000}'
  }

  function TrimStart(s: string): (r: string)
    ensures |r| <= |s| && r == s[|s| - |r|..]
    ensures r != [] ==> !IsJsSpace(r[0])
    ensures forall k :: 0 <= k < |s| - |r| ==> IsJsSpace(s[k])
  {
    if s != [] && IsJsSpace(s[0]) then TrimStart(s[1..]) else s
  }

  function TrimEnd(s: string): (r: string)
    ensures |r| <= |s| && r == s[..|r|]
    ensures r != [] ==> !IsJsSpace(r[|r| - 1])
    ensures forall k :: |r| <= k < |s| ==> IsJsSpace(s[k])
  {
    if s != [] && IsJsSpace(s[|s| - 1]) then TrimEnd(s[..|s| - 1]) else s
  }

  /** `trim`: the slice of `s` left once white space is removed at both ends. */
  function Trim(s: string): (r: string)
    ensures exists i, j :: (0 <= i <= j <= |s| && r == s[i..j]
      && (forall k :: 0 <= k < i ==> IsJsSpace(s[k]))
      && (forall k :: j <= k < |s| ==> IsJsSpace(s[k])))
    ensures r != [] ==> !IsJsSpace(r[0]) && !IsJsSpace(r[|r| - 1])
  {
    var t := TrimStart(s);
    var r := TrimEnd(t);
    assert r == s[|s| - |t|..|s| - |t| + |r|];
    r
  }

  // ---------------------------------------------------------------- includes

  /** `s.includes(w)`: `w` occurs in `s` at some position (for strings and node lists alike). */
  predicate Contains<T(==)>(s: seq<T>, w: seq<T>)
  {
    exists i :: 0 <= i <= |s| && OccursAt(s, w, i)
  }

  /** `w` occurs in `s` starting at position `i`. */
  predicate OccursAt<T(==)>(s: seq<T>, w: seq<T>, i: nat)
  {
    i + |w| <= |s| && s[i..i + |w|] == w
  }

  /** `includes` unfolded one character at a time, the form induction proofs use. */
  lemma ContainsUnfold<T>(s: seq<T>, w: seq<T>)
    ensures Contains(s, w) <==> (|w| <= |s| && s[..|w|] == w) || (s != [] && Contains(s[1..], w))
  {
    if Contains(s, w) {
      var i :| 0 <= i <= |s| && OccursAt(s, w, i);
      if i > 0 {
        assert s[1..][i - 1..i - 1 + |w|] == w;
        assert OccursAt(s[1..], w, i - 1);
      }
    }
    if s != [] && Contains(s[1..], w) {
      var i :| 0 <= i <= |s[1..]| && OccursAt(s[1..], w, i);
      assert s[i + 1..i + 1 + |w|] == w;
      assert OccursAt(s, w, i + 1);
    }
    if |w| <= |s| && s[..|w|] == w {
      assert OccursAt(s, w, 0);
    }
  }

  lemma ContainsAt<T>(s: seq<T>, w: seq<T>, i: nat)
    requires i + |w| <= |s| && s[i..i + |w|] == w
    ensures Contains(s, w)
  {
    assert OccursAt(s, w, i);
  }

  /** An occurrence inside a slice is an occurrence in the whole string. */
  lemma ContainsSlice<T>(s: seq<T>, i: nat, j: nat, w: seq<T>)
    requires i <= j <= |s| && Contains(s[i..j], w)
    ensures Contains(s, w)
  {
    var k :| 0 <= k <= |s[i..j]| && OccursAt(s[i..j], w, k);
    assert s[i..j][k..k + |w|] == w;
    forall t | 0 <= t < |w| ensures s[i + k..i + k + |w|][t] == w[t] {
      assert s[i..j][k..k + |w|][t] == s[i..j][k + t] == s[i + k + t];
    }
    assert s[i + k..i + k + |w|] == w;
    assert OccursAt(s, w, i + k);
  }

  lemma ContainsRight<T>(a: seq<T>, b: seq<T>, w: seq<T>)
    requires Contains(b, w)
    ensures Contains(a + b, w)
  {
    assert (a + b)[|a|..|a + b|] == b;
    ContainsSlice(a + b, |a|, |a + b|, w);
  }

  lemma ContainsLeft<T>(a: seq<T>, b: seq<T>, w: seq<T>)
    requires Contains(a, w)
    ensures Contains(a + b, w)
  {
    assert (a + b)[0..|a|] == a;
    ContainsSlice(a + b, 0, |a|, w);
  }

  lemma ContainsSelf<T>(s: seq<T>, i: nat, j: nat)
    requires i <= j <= |s|
    ensures Contains(s, s[i..j])
  {
    assert OccursAt(s, s[i..j], i);
  }

  /** `includes` is transitive. */
  lemma ContainsTrans<T>(a: seq<T>, b: seq<T>, c: seq<T>)
    requires Contains(a, b) && Contains(b, c)
    ensures Contains(a, c)
  {
    var i :| 0 <= i <= |a| && OccursAt(a, b, i);
    assert a[i..i + |b|] == b;
    ContainsSlice(a, i, i + |b|, c);
  }

  /** Lower-casing keeps occurrences. */
  lemma ContainsLower(a: string, b: string)
    requires Contains(a, b)
    ensures Contains(Lower(a), Lower(b))
  {
    var i :| 0 <= i <= |a| && OccursAt(a, b, i);
    LowerSlice(a, i, i + |b|);
    assert OccursAt(Lower(a), Lower(b), i);
  }

  lemma OccursAtIndex<T>(s: seq<T>, w: seq<T>, i: nat, k: int)
    ensures OccursAt(s, w, i) && 0 <= k < |w| ==> s[i + k] == w[k]
  {
    if OccursAt(s, w, i) && 0 <= k < |w| {
      assert s[i..i + |w|][k] == s[i + k];
    }
  }

  /** An occurrence of `w` in `a + [c] + b`, where `w` has no `c`, lies in `a` or in `b`. */
  lemma ContainsAcross<T>(a: seq<T>, c: T, b: seq<T>, w: seq<T>)
    requires forall k :: 0 <= k < |w| ==> w[k] != c
    requires Contains(a + [c] + b, w)
    ensures Contains(a, w) || Contains(b, w)
  {
    var s := a + [c] + b;
    var i :| 0 <= i <= |s| && OccursAt(s, w, i);
    OccursAtIndex(s, w, i, |a| - i);
    assert i + |w| <= |a| || |a| < i;
    if i + |w| <= |a| {
      assert a[i..i + |w|] == s[i..i + |w|];
      assert OccursAt(a, w, i);
    } else {
      assert b[i - |a| - 1..i - |a| - 1 + |w|] == s[i..i + |w|];
      assert OccursAt(b, w, i - |a| - 1);
    }
  }

  // ---------------------------------------------------------------- split / join

  /** `s.split(c)` for a one-character separator. */
  function Split(s: string, c: char): (r: seq<string>)
    ensures |r| >= 1
    ensures forall k :: 0 <= k < |r| ==> c !in r[k]
  {
    if s == [] then [""]
    else
      var rest := Split(s[1..], c);
      if s[0] == c then [""] + rest else [[s[0]] + rest[0]] + rest[1..]
  }

  /** `parts.join(sep)`. */
  function Join(parts: seq<string>, sep: string): string
  {
    if |parts| == 0 then ""
    else if |parts| == 1 then parts[0]
    else parts[0] + sep + Join(parts[1..], sep)
  }

  /** Splitting on `c` and joining the pieces with `c` gives the string back. */
  lemma {:induction false} JoinSplit(s: string, c: char)
    ensures Join(Split(s, c), [c]) == s
  {
    if s != [] {
      var rest := Split(s[1..], c);
      JoinSplit(s[1..], c);
      if s[0] != c {
        if |rest| == 1 {
        } else {
          assert ([[s[0]] + rest[0]] + rest[1..])[1..] == rest[1..];
          assert rest[1..] == rest[1..][..];
          assert Join(rest, [c]) == rest[0] + [c] + Join(rest[1..], [c]);
        }
      }
    }
  }

  /** A string without the separator splits into itself. */
  lemma {:induction false} SplitNone(a: string, c: char)
    requires c !in a
    ensures Split(a, c) == [a]
  {
    if a != [] {
      SplitNone(a[1..], c);
      assert [a[0]] + a[1..] == a;
    }
  }

  lemma {:induction false} SplitCons(a: string, c: char, b: string)
    requires c !in a
    ensures Split(a + [c] + b, c) == [a] + Split(b, c)
  {
    var s := a + [c] + b;
    if a == [] {
      assert s[1..] == b;
    } else {
      assert s[1..] == a[1..] + [c] + b;
      SplitCons(a[1..], c, b);
      assert [a[0]] + a[1..] == a;
    }
  }

  /** Joining pieces that do not contain `c` with `c` and splitting on `c` gives the pieces back. */
  lemma {:induction false} SplitJoin(parts: seq<string>, c: char)
    requires |parts| >= 1
    requires forall k :: 0 <= k < |parts| ==> c !in parts[k]
    ensures Split(Join(parts, [c]), c) == parts
  {
    if |parts| == 1 {
      SplitNone(parts[0], c);
    } else {
      SplitJoin(parts[1..], c);
      SplitCons(parts[0], c, Join(parts[1..], [c]));
      assert [parts[0]] + parts[1..] == parts;
    }
  }

  // ---------------------------------------------------------------- numbers

  function DigitChar(d: nat): (c: char)
    requires d < 10
    ensures '0' <= c <= '9'
  {
    ['0', '1', '2', '3', '4', '5', '6', '7', '8', '9'][d]
  }

  /** The decimal rendering of a non-negative integer (template-literal interpolation). */
  function NatToString(n: nat): (r: string)
    ensures r != []
    ensures forall k :: 0 <= k < |r| ==> '0' <= r[k] <= '9'
  {
    if n < 10 then [DigitChar(n)] else NatToString(n / 10) + [DigitChar(n % 10)]
  }

  lemma DigitCharInjective(a: nat, b: nat)
    requires a < 10 && b < 10 && DigitChar(a) == DigitChar(b)
    ensures a == b
  {
  }

  /** Different numbers render differently, so positional ids never collide. */
  lemma {:induction false} NatToStringInjective(a: nat, b: nat)
    requires NatToString(a) == NatToString(b)
    ensures a == b
  {
    var ra, rb := NatToString(a), NatToString(b);
    if a < 10 && b < 10 {
      DigitCharInjective(a, b);
    } else if a >= 10 && b >= 10 {
      assert ra[|ra| - 1] == DigitChar(a % 10) && rb[|rb| - 1] == DigitChar(b % 10);
      DigitCharInjective(a % 10, b % 10);
      assert ra[..|ra| - 1] == NatToString(a / 10);
      assert rb[..|rb| - 1] == NatToString(b / 10);
      NatToStringInjective(a / 10, b / 10);
    }
  }

  function DigitValue(c: char, radix: nat): (v: Option<nat>)
    ensures v.Some? ==> v.value < radix
  {
    if '0' <= c <= '9' && (c as int - '0' as int) < radix then Some(c as int - '0' as int)
    else if radix == 16 && 'a' <= c <= 'f' then Some(c as int - 'a' as int + 10)
    else if radix == 16 && 'A' <= c <= 'F' then Some(c as int - 'A' as int + 10)
    else None
  }

  /** The length of the longest prefix of `s` made of digits in `radix`. */
  function DigitPrefixLength(s: string, radix: nat): (n: nat)
    ensures n <= |s|
    ensures forall k :: 0 <= k < n ==> DigitValue(s[k], radix).Some?
    ensures n < |s| ==> DigitValue(s[n], radix).None?
  {
    if s == [] || DigitValue(s[0], radix).None? then 0 else 1 + DigitPrefixLength(s[1..], radix)
  }

  function DigitsValue(z: string, radix: nat): nat
    requires forall k :: 0 <= k < |z| ==> DigitValue(z[k], radix).Some?
  {
    if z == [] then 0 else DigitsValue(z[..|z| - 1], radix) * radix + DigitValue(z[|z| - 1], radix).value
  }

  /**
    `parseInt(s)` without a radix: leading white space skipped, an optional sign,
    a `0x`/`0X` prefix selects base 16, then the longest run of digits. `None`
    stands for `NaN` (no digit at all).
  */
  function ParseInt(s: string): Option<int>
  {
    var t := TrimStart(s);
    var negative := t != [] && t[0] == '-';
    var (digits, radix) := ParseIntDigits(s);
    var n := DigitPrefixLength(digits, radix);
    if n == 0 then None
    else
      var v: int := DigitsValue(digits[..n], radix);
      Some(if negative then -v else v)
  }

  /** The part of `s` `parseInt` reads digits from, with the radix it reads them in. */
  function ParseIntDigits(s: string): (string, nat)
  {
    var t := TrimStart(s);
    var unsigned := if t != [] && (t[0] == '-' || t[0] == '+') then t[1..] else t;
    if |unsigned| >= 2 && unsigned[0] == '0' && (unsigned[1] == 'x' || unsigned[1] == 'X')
    then (unsigned[2..], 16)
    else (unsigned, 10)
  }

  /** `parseInt` of a plain decimal rendering gives the number back. */
  lemma ParseIntNatToString(n: nat)
    ensures ParseInt(NatToString(n)) == Some(n)
  {
    var s := NatToString(n);
    assert !IsJsSpace(s[0]) && s[0] != '-' && s[0] != '+';
    assert TrimStart(s) == s;
    LeadingZero(n);
    assert ParseIntDigits(s) == (s, 10);
    DecimalPrefix(n);
    assert s[..|s|] == s;
    DigitsValueNatToString(n);
  }

  lemma DecimalPrefix(n: nat)
    ensures DigitPrefixLength(NatToString(n), 10) == |NatToString(n)|
  {
    AllDigitsPrefix(NatToString(n));
  }

  lemma {:induction false} AllDigitsPrefix(s: string)
    requires forall k :: 0 <= k < |s| ==> '0' <= s[k] <= '9'
    ensures DigitPrefixLength(s, 10) == |s|
  {
    if s != [] {
      AllDigitsPrefix(s[1..]);
    }
  }

  /** A rendering of more than one digit never starts with `0`. */
  lemma {:induction false} LeadingZero(n: nat)
    ensures |NatToString(n)| >= 2 ==> NatToString(n)[0] != '0'
  {
    if n >= 10 {
      var p := NatToString(n / 10);
      assert NatToString(n)[0] == p[0];
      if n / 10 < 10 {
        assert p == [DigitChar(n / 10)];
      } else {
        LeadingZero(n / 10);
      }
    }
  }

  lemma {:induction false} DigitsValueNatToString(n: nat)
    ensures DigitsValue(NatToString(n), 10) == n
  {
    var s := NatToString(n);
    if n < 10 {
      assert s[..0] == [];
    } else {
      assert s[..|s| - 1] == NatToString(n / 10);
      DigitsValueNatToString(n / 10);
    }
  }

  // ---------------------------------------------------------------- sequences

  function Concat<T>(parts: seq<seq<T>>): seq<T>
  {
    if parts == [] then [] else parts[0] + Concat(parts[1..])
  }

  lemma {:induction false} ConcatAppend<T>(a: seq<seq<T>>, b: seq<seq<T>>)
    ensures Concat(a + b) == Concat(a) + Concat(b)
  {
    if a == [] {
      assert a + b == b;
    } else {
      assert (a + b)[1..] == a[1..] + b;
      ConcatAppend(a[1..], b);
    }
  }
}
