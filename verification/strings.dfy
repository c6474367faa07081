/** Character classes and the small string operations the cleaner applies: the Python
    `str` methods strip, lower, replace and `in`, and the parse of a run of decimal digits. */
module Strings {

  /** `\d` restricted to the ASCII digits. */
  predicate IsDigit(c: char) {
    '0' <= c <= '9'
  }

  /** `\s` of Python's `re` on text, which is the set `str.isspace` accepts. */
  predicate IsSpace(c: char) {
    || c in {'\t', '\n', '\U{B}', '\U{C}', '\r', '\U{1C}', '\U{1D}', '\U{1E}', '\U{1F}', ' '}
    || c in {'\U{85}', '\U{A0}', '\U{1680}', '\U{2028}', '\U{2029}', '\U{202F}', '\U{205F}', '\U{3000}'}
    || '\U{2000}' <= c <= '\U{200A}'
  }

  predicate AllDigits(s: string) {
    forall i | 0 <= i < |s| :: IsDigit(s[i])
  }

  predicate StartsWith(s: string, prefix: string) {
    |prefix| <= |s| && s[..|prefix|] == prefix
  }

  predicate EndsWith(s: string, suffix: string) {
    |suffix| <= |s| && s[|s| - |suffix|..] == suffix
  }

  /** `k` occurs in `s` starting at position `i`. */
  predicate OccursAt(s: string, k: string, i: int) {
    0 <= i <= |s| - |k| && s[i..i + |k|] == k
  }

  /** Python's `k in s` for strings. */
  predicate Contains(s: string, k: string) {
    exists i | 0 <= i <= |s| - |k| :: OccursAt(s, k, i)
  }

  function LowerChar(c: char): char {
    if 'A' <= c <= 'Z' then (c as int + 32) as char else c
  }

  /** `str.lower()` on the ASCII letters. */
  function Lower(s: string): (r: string)
    ensures |r| == |s|
    ensures forall i | 0 <= i < |s| :: !('A' <= r[i] <= 'Z')
  {
    seq(|s|, i requires 0 <= i < |s| => LowerChar(s[i]))
  }

  lemma LowerIdempotent(s: string)
    ensures Lower(Lower(s)) == Lower(s)
  {
    assert forall i | 0 <= i < |s| :: LowerChar(LowerChar(s[i])) == LowerChar(s[i]);
  }

  /** `s.replace(a, b)` for single characters: every `a` becomes `b`, nothing else moves. */
  function ReplaceChar(s: string, a: char, b: char): (r: string)
    ensures |r| == |s|
    ensures a != b ==> a !in r
    ensures forall x | x in r :: x == b || (x in s && x != a)
    ensures a !in s ==> r == s
  {
    seq(|s|, i requires 0 <= i < |s| => if s[i] == a then b else s[i])
  }

  /** `s.replace(c, '')`: every occurrence of `c` is removed and every other character kept. */
  function DeleteChar(s: string, c: char): (r: string)
    ensures c !in r
    ensures c !in s ==> r == s
    decreases |s|
  {
    if s == [] then []
    else
      assert s == [s[0]] + s[1..];
      (if s[0] == c then [] else [s[0]]) + DeleteChar(s[1..], c)
  }

  /** Every other character keeps its number of occurrences. */
  lemma {:induction false} DeleteCharKeepsOthers(s: string, c: char, x: char)
    requires x != c
    ensures multiset(DeleteChar(s, c))[x] == multiset(s)[x]
    decreases |s|
  {
    if s != [] {
      DeleteCharKeepsOthers(s[1..], c, x);
      assert s == [s[0]] + s[1..];
      assert multiset(s) == multiset([s[0]]) + multiset(s[1..]);
    }
  }

  /** `re.sub(pat, rep, s)` for a literal pattern: occurrences are replaced left to right,
      without overlap. */
  function ReplaceAll(s: string, pat: string, rep: string): (r: string)
    requires pat != []
    decreases |s|
  {
    if s == [] then []
    else if StartsWith(s, pat) then rep + ReplaceAll(s[|pat|..], pat, rep)
    else [s[0]] + ReplaceAll(s[1..], pat, rep)
  }

  lemma PrefixOccurs(s: string, k: string)
    ensures StartsWith(s, k) ==> Contains(s, k)
  {
    if StartsWith(s, k) {
      assert OccursAt(s, k, 0);
    }
  }

  /** A string with no occurrence of the pattern is left unchanged. */
  lemma {:induction false} ReplaceAllAbsent(s: string, pat: string, rep: string)
    requires pat != []
    requires !Contains(s, pat)
    ensures ReplaceAll(s, pat, rep) == s
    decreases |s|
  {
    if s != [] {
      PrefixOccurs(s, pat);
      assert !Contains(s[1..], pat) by {
        forall i | 0 <= i <= |s[1..]| - |pat|
          ensures !OccursAt(s[1..], pat, i)
        {
          assert s[1..][i..i + |pat|] == s[i + 1..i + 1 + |pat|];
          assert !OccursAt(s, pat, i + 1);
        }
      }
      ReplaceAllAbsent(s[1..], pat, rep);
    }
  }

  /** `str.strip(chars)`: drop characters of `cs` from the front ... */
  function StripLeft(s: string, cs: set<char>): (r: string)
    ensures |r| <= |s| && r == s[|s| - |r|..]
    ensures forall i | 0 <= i < |s| - |r| :: s[i] in cs
    ensures r != [] ==> r[0] !in cs
    decreases |s|
  {
    if s != [] && s[0] in cs then StripLeft(s[1..], cs) else s
  }

  /** ... and from the back. */
  function StripRight(s: string, cs: set<char>): (r: string)
    ensures |r| <= |s| && r == s[..|r|]
    ensures forall i | |r| <= i < |s| :: s[i] in cs
    ensures r != [] ==> r[|r| - 1] !in cs
    decreases |s|
  {
    if s != [] && s[|s| - 1] in cs then StripRight(s[..|s| - 1], cs) else s
  }

  /** Cutting `s` to `s[i..j]` removes only characters of `cs`. */
  predicate CutsOnly(s: string, cs: set<char>, i: int, j: int) {
    && 0 <= i <= j <= |s|
    && (forall k | 0 <= k < i :: s[k] in cs)
    && (forall k | j <= k < |s| :: s[k] in cs)
  }

  /** `s.strip(chars)`: the result is a slice of `s`, everything cut off on either side is in
      `cs`, and neither end of the result is in `cs`. */
  function Strip(s: string, cs: set<char>): (r: string)
    ensures exists i, j :: CutsOnly(s, cs, i, j) && r == s[i..j]
    ensures r != [] ==> r[0] !in cs && r[|r| - 1] !in cs
  {
    var l := StripLeft(s, cs);
    var r := StripRight(l, cs);
    StripCuts(s, cs, l, r);
    r
  }

  lemma StripCuts(s: string, cs: set<char>, l: string, r: string)
    requires l == StripLeft(s, cs) && r == StripRight(l, cs)
    ensures CutsOnly(s, cs, |s| - |l|, |s| - |l| + |r|) && r == s[|s| - |l|..|s| - |l| + |r|]
  {
    var i := |s| - |l|;
    assert l == s[i..];
    forall k | i + |r| <= k < |s|
      ensures s[k] in cs
    {
      assert s[k] == l[k - i];
    }
  }

  /** Stripping is idempotent. */
  lemma StripIdempotent(s: string, cs: set<char>)
    ensures Strip(Strip(s, cs), cs) == Strip(s, cs)
  {
  }

  lemma {:induction false} StripLeftAt(s: string, cs: set<char>, i: nat)
    requires i <= |s|
    requires forall k | 0 <= k < i :: s[k] in cs
    requires i < |s| ==> s[i] !in cs
    ensures StripLeft(s, cs) == s[i..]
    decreases i
  {
    if i > 0 {
      StripLeftAt(s[1..], cs, i - 1);
      assert s[1..][i - 1..] == s[i..];
    }
  }

  lemma {:induction false} StripRightAt(s: string, cs: set<char>, j: nat)
    requires j <= |s|
    requires forall k | j <= k < |s| :: s[k] in cs
    requires 0 < j ==> s[j - 1] !in cs
    ensures StripRight(s, cs) == s[..j]
    decreases |s| - j
  {
    if j < |s| {
      StripRightAt(s[..|s| - 1], cs, j);
      assert s[..|s| - 1][..j] == s[..j];
    }
  }

  /** The strip is determined by where its kept part starts and ends: any split of `s` into
      a cut-off head, a kept middle and a cut-off tail, with the middle beginning and ending
      outside `cs`, is the one `Strip` picks. */
  lemma StripUnique(s: string, cs: set<char>, i: nat, j: nat)
    requires CutsOnly(s, cs, i, j)
    requires i < j ==> s[i] !in cs && s[j - 1] !in cs
    ensures Strip(s, cs) == s[i..j]
  {
    if i < j {
      StripMiddle(s, cs, i, j);
    } else {
      StripLeftAt(s, cs, |s|);
      assert StripLeft(s, cs) == [];
    }
  }

  lemma StripMiddle(s: string, cs: set<char>, i: nat, j: nat)
    requires CutsOnly(s, cs, i, j) && i < j
    requires s[i] !in cs && s[j - 1] !in cs
    ensures StripRight(StripLeft(s, cs), cs) == s[i..j]
  {
    StripLeftAt(s, cs, i);
    StripRightOfSuffix(s, cs, i, j, StripLeft(s, cs));
  }

  lemma StripRightOfSuffix(s: string, cs: set<char>, i: nat, j: nat, l: string)
    requires CutsOnly(s, cs, i, j) && i < j && s[j - 1] !in cs && l == s[i..]
    ensures StripRight(l, cs) == s[i..j]
  {
    SuffixCuts(s, cs, i, j);
    StripRightAt(l, cs, j - i);
  }

  /** After dropping the head, the kept part still ends at `j - i`. */
  lemma SuffixCuts(s: string, cs: set<char>, i: nat, j: nat)
    requires CutsOnly(s, cs, i, j) && i < j && s[j - 1] !in cs
    ensures forall k | j - i <= k < |s[i..]| :: s[i..][k] in cs
    ensures s[i..][j - i - 1] !in cs && s[i..][..j - i] == s[i..j]
  {
    forall k | j - i <= k < |s[i..]|
      ensures s[i..][k] in cs
    {
      assert s[i..][k] == s[k + i];
    }
  }

  /** Value of a string of decimal digits, as Python's `float` reads it. */
  function DigitsValue(d: string): nat
    requires AllDigits(d)
    decreases |d|
  {
    if d == [] then 0 else 10 * DigitsValue(d[..|d| - 1]) + (d[|d| - 1] as int - '0' as int)
  }

  function Pow10(n: nat): (r: nat)
    ensures r >= 1
  {
    if n == 0 then 1 else 10 * Pow10(n - 1)
  }

  /** Deleting a character distributes over concatenation. */
  lemma {:induction false} DeleteCharConcat(a: string, b: string, c: char)
    ensures DeleteChar(a + b, c) == DeleteChar(a, c) + DeleteChar(b, c)
    decreases |a|
  {
    if a != [] {
      var h := if a[0] == c then [] else [a[0]];
      assert a + b != [] && (a + b)[0] == a[0] && (a + b)[1..] == a[1..] + b;
      assert DeleteChar(a + b, c) == h + DeleteChar(a[1..] + b, c);
      DeleteCharConcat(a[1..], b, c);
      assert DeleteChar(a, c) == h + DeleteChar(a[1..], c);
    } else {
      assert a + b == b;
    }
  }

  lemma DeleteCharAbsent(a: string, c: char)
    requires c !in a
    ensures DeleteChar(a, c) == a
  {
  }

  lemma DeleteCharItself(c: char)
    ensures DeleteChar([c], c) == []
  {
  }

  /** One occurrence between two texts free of it is removed and the texts are joined. */
  lemma DeleteCharBetween(a: string, b: string, c: char)
    requires c !in a && c !in b
    ensures DeleteChar(a + [c] + b, c) == a + b
  {
    DeleteCharConcat(a + [c], b, c);
    DeleteCharConcat(a, [c], c);
    DeleteCharItself(c);
    DeleteCharAbsent(a, c);
    DeleteCharAbsent(b, c);
    assert a + [] == a;
  }

  /** Appending a digit multiplies the value by ten and adds the digit. */
  lemma DigitsSnoc(d: string, c: char)
    requires AllDigits(d) && IsDigit(c)
    ensures AllDigits(d + [c])
    ensures DigitsValue(d + [c]) == 10 * DigitsValue(d) + (c as int - '0' as int)
  {
    assert (d + [c])[..|d|] == d;
  }

  /** Replacing a character distributes over concatenation. */
  lemma ReplaceCharConcat(a: string, b: string, x: char, y: char)
    ensures ReplaceChar(a + b, x, y) == ReplaceChar(a, x, y) + ReplaceChar(b, x, y)
  {
  }
}
