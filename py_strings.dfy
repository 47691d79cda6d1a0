/** The Python string operations the pipeline relies on, on `string` as a
    sequence of Unicode code points: `isspace`, `strip`, `startswith`,
    `endswith`, `find` and `rfind` of one character, `split`, slicing, and
    ASCII case mapping. */
module PyStr {

  /** Python's `str.isspace` for one character: the characters that `strip()`
      with no argument removes. */
  predicate IsSpace(c: char) {
    || ('\t' <= c <= '\r')
    || ('\U{1C}' <= c <= '\U{1F}')
    || c == ' '
    || c == '\U{85}'
    || c == '\U{A0}'
    || c == '\U{1680}'
    || ('\U{2000}' <= c <= '\U{200A}')
    || c == '\U{2028}'
    || c == '\U{2029}'
    || c == '\U{202F}'
    || c == '\U{205F}'
    || c == '\U{3000}'
  }

  /** True when every character of `s` is whitespace (so `not s.strip()`). */
  predicate AllSpace(s: string) {
    forall k :: 0 <= k < |s| ==> IsSpace(s[k])
  }

  /** Neither end of `s` is whitespace. */
  predicate Trimmed(s: string) {
    s == [] || (!IsSpace(s[0]) && !IsSpace(s[|s| - 1]))
  }

  /** Whitespace followed by whitespace is whitespace. */
  lemma AllSpaceConcat(a: string, b: string)
    requires AllSpace(a) && AllSpace(b)
    ensures AllSpace(a + b)
  {
    forall k | 0 <= k < |a + b| ensures IsSpace((a + b)[k]) {
      if k < |a| { assert (a + b)[k] == a[k]; } else { assert (a + b)[k] == b[k - |a|]; }
    }
  }

  /** `s.lstrip()`: the longest suffix of `s` that does not start with whitespace. */
  function LStrip(s: string): (r: string)
    ensures |r| <= |s| && r == s[|s| - |r|..]
    ensures AllSpace(s[..|s| - |r|])
    ensures r == [] || !IsSpace(r[0])
  {
    if |s| > 0 && IsSpace(s[0]) then
      var t := s[1..];
      var r := LStrip(t);
      var n := |s| - |r|;
      assert t[n - 1..] == s[n..];
      assert AllSpace(s[..n]) by {
        forall k | 0 <= k < n ensures IsSpace(s[..n][k]) {
          if k > 0 { assert s[..n][k] == t[..n - 1][k - 1]; }
        }
      }
      r
    else
      assert s[..0] == [];
      s
  }

  /** `s.rstrip()`: the longest prefix of `s` that does not end with whitespace. */
  function RStrip(s: string): (r: string)
    ensures |r| <= |s| && r == s[..|r|]
    ensures AllSpace(s[|r|..])
    ensures r == [] || !IsSpace(r[|r| - 1])
  {
    if |s| > 0 && IsSpace(s[|s| - 1]) then
      var t := s[..|s| - 1];
      var r := RStrip(t);
      assert t[..|r|] == s[..|r|];
      assert s[|r|..] == t[|r|..] + [s[|s| - 1]];
      AllSpaceConcat(t[|r|..], [s[|s| - 1]]);
      r
    else
      assert s[|s|..] == [];
      s
  }

  /** `s.strip()`: `s` with its whitespace prefix and whitespace suffix removed. */
  function Strip(s: string): (r: string)
    ensures Trimmed(r)
    ensures |r| <= |s|
    ensures r == [] <==> AllSpace(s)
  {
    StripParts(s);
    RStrip(LStrip(s))
  }

  /** Right-stripping the left-stripped text leaves no whitespace at either
      end, and nothing at all exactly when the text is all whitespace. */
  lemma StripParts(s: string)
    ensures var r := RStrip(LStrip(s));
            && Trimmed(r) && |r| <= |s|
            && (r == [] <==> AllSpace(s))
  {
    var l := LStrip(s);
    var r := RStrip(l);
    var n := |s| - |l|;
    if r == [] {
      assert l[0..] == l;
      TwoParts(s, n);
      AllSpaceConcat(s[..n], l);
    } else {
      assert r[0] == l[0] == s[n];
    }
  }

  /** Every character of a slice occurs in the whole. */
  lemma SliceChars(s: string, i: nat, j: nat)
    requires i <= j <= |s|
    ensures forall c :: c in s[i..j] ==> c in s
  {
    forall c | c in s[i..j] ensures c in s {
      var k :| 0 <= k < j - i && s[i..j][k] == c;
      assert s[i + k] == c;
    }
  }

  /** `Strip` only removes characters: every character of `Strip(s)` occurs
      in `s`. */
  lemma StripChars(s: string)
    ensures forall c :: c in Strip(s) ==> c in s
  {
    var l := LStrip(s);
    var r := RStrip(l);
    assert r == Strip(s);
    SliceChars(s, |s| - |l|, |s|);
    SliceChars(l, 0, |r|);
  }

  /** `LStrip` removes exactly a whitespace prefix in front of text that does
      not start with whitespace. */
  lemma {:induction false} LStripPadded(w: string, u: string)
    requires AllSpace(w) && (u == [] || !IsSpace(u[0]))
    ensures LStrip(w + u) == u
  {
    if w != [] {
      assert (w + u)[1..] == w[1..] + u;
      LStripPadded(w[1..], u);
    }
  }

  /** `RStrip` removes exactly a whitespace suffix behind text that does not
      end with whitespace. */
  lemma {:induction false} RStripPadded(u: string, w: string)
    requires AllSpace(w) && (u == [] || !IsSpace(u[|u| - 1]))
    ensures RStrip(u + w) == u
  {
    if w != [] {
      assert (u + w)[..|u + w| - 1] == u + w[..|w| - 1];
      RStripPadded(u, w[..|w| - 1]);
    }
  }

  /** `Strip` undoes whitespace padding on both sides of a trimmed string. */
  lemma StripPadded(w1: string, t: string, w2: string)
    requires AllSpace(w1) && AllSpace(w2) && Trimmed(t)
    ensures Strip(w1 + t + w2) == t
  {
    var s := w1 + t + w2;
    if t == [] {
      assert AllSpace(s) by {
        forall k | 0 <= k < |s| ensures IsSpace(s[k]) {
          if k < |w1| { assert s[k] == w1[k]; } else { assert s[k] == w2[k - |w1|]; }
        }
      }
    } else {
      assert s == w1 + (t + w2);
      LStripPadded(w1, t + w2);
      RStripPadded(t, w2);
    }
  }

  /** Stripping twice is stripping once. */
  lemma StripIdempotent(s: string)
    ensures Strip(Strip(s)) == Strip(s)
  {
    StripPadded([], Strip(s), []);
    assert [] + Strip(s) + [] == Strip(s);
  }

  /** `s.startswith(p)`. */
  predicate StartsWith(s: string, p: string) {
    |p| <= |s| && s[..|p|] == p
  }

  /** `s.endswith(p)`. */
  predicate EndsWith(s: string, p: string) {
    |p| <= |s| && s[|s| - |p|..] == p
  }

  /** `s.find(c)` for a single character: the first index of `c`, or -1. */
  function Find(s: string, c: char): (r: int)
    ensures -1 <= r < |s|
    ensures r == -1 <==> c !in s
    ensures r >= 0 ==> s[r] == c && c !in s[..r]
  {
    if |s| == 0 then -1
    else if s[0] == c then 0
    else
      var k := Find(s[1..], c);
      assert s == [s[0]] + s[1..];
      if k == -1 then -1
      else
        assert s[..k + 1] == [s[0]] + s[1..][..k];
        k + 1
  }

  /** `s.rfind(c)` for a single character: the last index of `c`, or -1. */
  function RFind(s: string, c: char): (r: int)
    ensures -1 <= r < |s|
    ensures r == -1 <==> c !in s
    ensures r >= 0 ==> s[r] == c && forall k :: r < k < |s| ==> s[k] != c
  {
    if |s| == 0 then -1
    else if s[|s| - 1] == c then |s| - 1
    else
      var t := s[..|s| - 1];
      assert s == t + [s[|s| - 1]];
      RFind(t, c)
  }

  /** The first occurrence of `c` is at `i` when `s[i]` is `c` and no
      earlier character is. */
  lemma FindIs(s: string, c: char, i: nat)
    requires i < |s| && s[i] == c && c !in s[..i]
    ensures Find(s, c) == i
  {
  }

  /** The last occurrence of `c` is at `j` when `s[j]` is `c` and no later
      character is. */
  lemma RFindIs(s: string, c: char, j: nat)
    requires j < |s| && s[j] == c && c !in s[j + 1..]
    ensures RFind(s, c) == j
  {
  }

  /** `pat` occurs in `s` at offset `i`. */
  predicate OccursAt(s: string, pat: string, i: int) {
    0 <= i && i + |pat| <= |s| && s[i..i + |pat|] == pat
  }

  /** `pat` occurs nowhere in `s`. */
  predicate Free(s: string, pat: string) {
    forall i :: 0 <= i <= |s| ==> !OccursAt(s, pat, i)
  }

  /** `s.find(pat, from)` for a non-empty `pat`: the first occurrence at or
      after `from`, or -1. */
  function FindFrom(s: string, pat: string, from: nat): (r: int)
    requires |pat| > 0 && from <= |s|
    ensures r == -1 || (from <= r && OccursAt(s, pat, r))
    ensures forall i :: from <= i && (r == -1 || i < r) ==> !OccursAt(s, pat, i)
    decreases |s| - from
  {
    if from + |pat| > |s| then -1
    else if s[from..from + |pat|] == pat then from
    else FindFrom(s, pat, from + 1)
  }

  /** `s.find(pat)` for a non-empty `pat`. */
  function FindSub(s: string, pat: string): (r: int)
    requires |pat| > 0
    ensures r == -1 <==> Free(s, pat)
    ensures r >= 0 ==> OccursAt(s, pat, r) && Free(s[..r + |pat| - 1], pat)
    ensures r >= 0 ==> forall i :: 0 <= i < r ==> !OccursAt(s, pat, i)
  {
    var r := FindFrom(s, pat, 0);
    assert r >= 0 ==> Free(s[..r + |pat| - 1], pat) by {
      if r >= 0 {
        var t := s[..r + |pat| - 1];
        forall i | 0 <= i <= |t| ensures !OccursAt(t, pat, i) {
          if OccursAt(t, pat, i) {
            assert s[i..i + |pat|] == t[i..i + |pat|];
            assert OccursAt(s, pat, i);
          }
        }
      }
    }
    r
  }

  /** The separator `sep` put back between consecutive parts: `sep.join(parts)`. */
  function Join(parts: seq<string>, sep: string): string
    requires |parts| > 0
  {
    if |parts| == 1 then parts[0] else parts[0] + sep + Join(parts[1..], sep)
  }

  /** `s.split(sep)` for a non-empty `sep`: the pieces between the leftmost
      non-overlapping occurrences of `sep`. */
  function Split(s: string, sep: string): (parts: seq<string>)
    requires |sep| > 0
    ensures |parts| > 0
    ensures StartsWith(s, sep) ==> |parts| >= 2 && parts[0] == []
    decreases |s|
  {
    var k := FindSub(s, sep);
    if k == -1 then [s]
    else
      assert StartsWith(s, sep) ==> k == 0 by {
        if StartsWith(s, sep) { assert OccursAt(s, sep, 0); }
      }
      [s[..k]] + Split(s[k + |sep|..], sep)
  }

  /** A split at a found separator: the text before it, then the split of
      the text after it. */
  lemma SplitAt(s: string, sep: string)
    requires |sep| > 0 && FindSub(s, sep) != -1
    ensures var k := FindSub(s, sep);
            && k + |sep| <= |s|
            && Split(s, sep) == [s[..k]] + Split(s[k + |sep|..], sep)
            && s == s[..k] + sep + s[k + |sep|..]
  {
    var k := FindSub(s, sep);
    assert OccursAt(s, sep, k);
    ThreeParts(s, k, k + |sep|);
  }

  /** A text is the concatenation of the two slices cut at `i`. */
  lemma TwoParts(s: string, i: nat)
    requires i <= |s|
    ensures s == s[..i] + s[i..]
  {
  }

  /** A text is the concatenation of the three slices cut at `i` and `j`. */
  lemma ThreeParts(s: string, i: nat, j: nat)
    requires i <= j <= |s|
    ensures s == s[..i] + s[i..j] + s[j..]
  {
  }

  /** Joining the pieces of a split with the separator gives back the text. */
  lemma {:induction false} SplitJoin(s: string, sep: string)
    requires |sep| > 0
    ensures Join(Split(s, sep), sep) == s
    decreases |s|
  {
    if FindSub(s, sep) != -1 {
      var k := FindSub(s, sep);
      var rest := s[k + |sep|..];
      SplitAt(s, sep);
      SplitJoin(rest, sep);
      assert Split(s, sep)[1..] == Split(rest, sep);
    }
  }

  /** No piece of a split contains the separator. */
  lemma {:induction false} SplitPiecesFree(s: string, sep: string)
    requires |sep| > 0
    ensures forall k :: 0 <= k < |Split(s, sep)| ==> Free(Split(s, sep)[k], sep)
    decreases |s|
  {
    var k := FindSub(s, sep);
    if k != -1 {
      var head := s[..k];
      assert Free(head, sep) by {
        forall i | 0 <= i <= |head| ensures !OccursAt(head, sep, i) {
          if OccursAt(head, sep, i) {
            assert head[i..i + |sep|] == s[..k + |sep| - 1][i..i + |sep|];
            assert OccursAt(s[..k + |sep| - 1], sep, i);
          }
        }
      }
      SplitPiecesFree(s[k + |sep|..], sep);
    }
  }

  /** Python `s[i:j]` for non-negative bounds: out-of-range ends are clamped,
      and an empty range gives the empty string. */
  function Slice(s: string, i: nat, j: nat): (r: string)
    ensures i <= j <= |s| ==> r == s[i..j]
    ensures j <= i ==> r == []
  {
    var hi := if j <= |s| then j else |s|;
    if i >= hi then [] else s[i..hi]
  }

  /** Python `s[:n]`: the first `n` characters, or all of `s` when it is shorter. */
  function Prefix(s: string, n: nat): (r: string)
    ensures |r| == if |s| <= n then |s| else n
    ensures r == s[..|r|]
  {
    if |s| <= n then s else s[..n]
  }

  /** An ASCII capital letter. */
  predicate IsAsciiUpper(c: char) {
    'A' <= c <= 'Z'
  }

  /** An ASCII small letter. */
  predicate IsAsciiLower(c: char) {
    'a' <= c <= 'z'
  }

  /** ASCII upper case of one character. */
  function UpperChar(c: char): char {
    if IsAsciiLower(c) then (c as int - 32) as char else c
  }

  /** ASCII lower case of one character. */
  function LowerChar(c: char): char {
    if IsAsciiUpper(c) then (c as int + 32) as char else c
  }

  /** `s.upper()` restricted to ASCII letters: no small letter is left, every
      small letter becomes its capital, and every other character is kept. */
  function Upper(s: string): (r: string)
    ensures |r| == |s|
    ensures forall k {:trigger r[k]} :: 0 <= k < |r| ==>
              && !IsAsciiLower(r[k])
              && if IsAsciiLower(s[k]) then r[k] as int == s[k] as int - 32 else r[k] == s[k]
  {
    seq(|s|, k requires 0 <= k < |s| => UpperChar(s[k]))
  }

  /** `s.lower()` restricted to ASCII letters: no capital is left, every
      capital becomes its small letter, and every other character is kept. */
  function Lower(s: string): (r: string)
    ensures |r| == |s|
    ensures forall k {:trigger r[k]} :: 0 <= k < |r| ==>
              && !IsAsciiUpper(r[k])
              && if IsAsciiUpper(s[k]) then r[k] as int == s[k] as int + 32 else r[k] == s[k]
  {
    seq(|s|, k requires 0 <= k < |s| => LowerChar(s[k]))
  }

  /** Lower-casing forgets an upper-casing done before it. */
  lemma LowerUpper(s: string)
    ensures Lower(Upper(s)) == Lower(s)
  {
    var u := Upper(s);
    forall k | 0 <= k < |s| ensures Lower(u)[k] == Lower(s)[k] {
      if IsAsciiLower(s[k]) {
        assert IsAsciiUpper(u[k]);
      }
    }
  }

  /** Text without capitals is its own lower case. */
  lemma LowerNoCapitals(s: string)
    requires forall k :: 0 <= k < |s| ==> !IsAsciiUpper(s[k])
    ensures Lower(s) == s
  {
  }
}
