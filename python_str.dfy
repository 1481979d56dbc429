/**
 The three Python `str` methods the rename script relies on: `strip()` with
 no argument, `lower()` and `replace(old, new)`.
 */
module PyStr {

  /** The characters `str.isspace()` accepts, which are the ones `strip()` removes:
      the ASCII whitespace and separators, NEL, NO-BREAK SPACE and the Unicode spaces. */
  const Whitespace: set<char> := {
    ' ', '\t', '\n', '\U{0b}', '\U{0c}', '\r', '\U{1c}', '\U{1d}', '\U{1e}', '\U{1f}',
    '\U{85}', '\U{a0}', '\U{1680}',
    '\U{2000}', '\U{2001}', '\U{2002}', '\U{2003}', '\U{2004}', '\U{2005}',
    '\U{2006}', '\U{2007}', '\U{2008}', '\U{2009}', '\U{200a}',
    '\U{2028}', '\U{2029}', '\U{202f}', '\U{205f}', '\U{3000}'
  }

  predicate IsSpace(c: char) {
    c in Whitespace
  }

  /** Every character of `s` is whitespace (an empty `s` included). */
  predicate Blank(s: string) {
    forall k :: 0 <= k < |s| ==> IsSpace(s[k])
  }

  /** `s[i..j]` is `s` with only whitespace cut off at either end. */
  predicate TrimmedAt(s: string, i: int, j: int) {
    0 <= i <= j <= |s| && Blank(s[..i]) && Blank(s[j..])
  }

  /** The first index from `i` on that does not hold whitespace, or `|s|`. */
  function LeftEnd(s: string, i: nat): (r: nat)
    requires i <= |s|
    ensures i <= r <= |s|
    ensures forall k :: i <= k < r ==> IsSpace(s[k])
    ensures r < |s| ==> !IsSpace(s[r])
    decreases |s| - i
  {
    if i < |s| && IsSpace(s[i]) then LeftEnd(s, i + 1) else i
  }

  /** The end of `s[lo..j]` once its trailing whitespace is cut off. */
  function RightEnd(s: string, lo: nat, j: nat): (r: nat)
    requires lo <= j <= |s|
    ensures lo <= r <= j
    ensures forall k :: r <= k < j ==> IsSpace(s[k])
    ensures r > lo ==> !IsSpace(s[r - 1])
    decreases j
  {
    if j > lo && IsSpace(s[j - 1]) then RightEnd(s, lo, j - 1) else j
  }

  /** `s.strip()`: `s` with its leading and trailing whitespace cut off. */
  function Strip(s: string): (r: string)
    ensures exists i, j :: TrimmedAt(s, i, j) && r == s[i..j]
    ensures r != [] ==> !IsSpace(r[0]) && !IsSpace(r[|r| - 1])
    ensures r == [] <==> Blank(s)
    ensures |r| <= |s|
  {
    var i := LeftEnd(s, 0);
    var j := RightEnd(s, i, |s|);
    StripBounds(s, i, j);
    s[i..j]
  }

  /** What the two ends of `Strip` cut off is whitespace, and they meet
      exactly when everything is whitespace. */
  lemma StripBounds(s: string, i: nat, j: nat)
    requires i == LeftEnd(s, 0) && j == RightEnd(s, i, |s|)
    ensures TrimmedAt(s, i, j)
    ensures i == j <==> Blank(s)
  {
    assert Blank(s[..i]) by {
      forall k | 0 <= k < i ensures IsSpace(s[..i][k]) {
        assert s[..i][k] == s[k];
      }
    }
    assert Blank(s[j..]) by {
      forall k | 0 <= k < |s| - j ensures IsSpace(s[j..][k]) {
        assert s[j..][k] == s[j + k];
      }
    }
    if i == j {
      assert forall k :: 0 <= k < |s| ==> IsSpace(s[k]) by {
        forall k | 0 <= k < |s| ensures IsSpace(s[k]) {
          if k < i {
          } else {
          }
        }
      }
    }
  }

  /** Stripping a second time changes nothing. */
  lemma StripIdempotent(s: string)
    ensures Strip(Strip(s)) == Strip(s)
  {
    var r := Strip(s);
    if r != [] {
      assert LeftEnd(r, 0) == 0;
      assert RightEnd(r, 0, |r|) == |r|;
      assert r[0..|r|] == r;
    }
  }

  /** `c.lower()` for one character; only the ASCII letters are mapped. */
  function LowerChar(c: char): (r: char)
    ensures 'A' <= c <= 'Z' ==> 'a' <= r <= 'z' && r as int - c as int == 32
    ensures !('A' <= c <= 'Z') ==> r == c
  {
    if 'A' <= c <= 'Z' then (c as int + 32) as char else c
  }

  /** `s.lower()`. */
  function Lower(s: string): (r: string)
    ensures |r| == |s|
    ensures forall k :: 0 <= k < |s| ==> r[k] == LowerChar(s[k])
  {
    if s == [] then [] else [LowerChar(s[0])] + Lower(s[1..])
  }

  /** `s.replace("", sep)`: `sep` before every character and once more at the end. */
  function InsertEverywhere(s: string, sep: string): (r: string)
    ensures |r| == |s| + (|s| + 1) * |sep|
  {
    if s == [] then sep else sep + [s[0]] + InsertEverywhere(s[1..], sep)
  }

  /** Read from the back, `s.replace("", sep)` is `sep` followed, for each
      character of `s` in turn, by that character and another copy of `sep`. */
  lemma {:induction false} InsertEverywhereSnoc(s: string, c: char, sep: string)
    ensures InsertEverywhere(s + [c], sep) == InsertEverywhere(s, sep) + [c] + sep
  {
    if s != [] {
      assert (s + [c])[0] == s[0] && (s + [c])[1..] == s[1..] + [c];
      InsertEverywhereSnoc(s[1..], c, sep);
    }
  }

  /** In `s.replace("", sep)`, the `k`-th copy of `sep` starts at `k * (|sep| + 1)`. */
  predicate SepAt(r: string, sep: string, k: nat) {
    var p := k * (|sep| + 1);
    p + |sep| <= |r| && r[p..p + |sep|] == sep
  }

  /** In `s.replace("", sep)`, the `k`-th character of `s` follows the `k`-th copy of `sep`. */
  function CharAt(r: string, sep: string, k: nat): char
    requires k * (|sep| + 1) + |sep| < |r|
  {
    r[k * (|sep| + 1) + |sep|]
  }

  /** In `s.replace("", sep)` there is a copy of `sep` at each of the `|s| + 1` slots. */
  lemma {:induction false} InsertEverywhereSep(s: string, sep: string, k: nat)
    requires k <= |s|
    ensures SepAt(InsertEverywhere(s, sep), sep, k)
    decreases k
  {
    var r := InsertEverywhere(s, sep);
    var w := |sep| + 1;
    if k == 0 {
      assert r[..|sep|] == sep;
    } else {
      var head := sep + [s[0]];
      var rest := InsertEverywhere(s[1..], sep);
      assert r == head + rest && |head| == w;
      InsertEverywhereSep(s[1..], sep, k - 1);
      ShiftSlot(k, w);
      var p := (k - 1) * w;
      SliceAfter(head, rest, p, p + |sep|);
    }
  }

  /** In `s.replace("", sep)` the characters of `s` sit between the copies of `sep`, in order. */
  lemma {:induction false} InsertEverywhereChar(s: string, sep: string, k: nat)
    requires k < |s|
    ensures k * (|sep| + 1) + |sep| < |InsertEverywhere(s, sep)|
    ensures CharAt(InsertEverywhere(s, sep), sep, k) == s[k]
    decreases k
  {
    var r := InsertEverywhere(s, sep);
    var w := |sep| + 1;
    var head := sep + [s[0]];
    var rest := InsertEverywhere(s[1..], sep);
    assert r == head + rest && |head| == w;
    if k > 0 {
      InsertEverywhereChar(s[1..], sep, k - 1);
      ShiftSlot(k, w);
      assert r[k * w + |sep|] == rest[(k - 1) * w + |sep|];
    }
  }

  lemma ShiftSlot(k: nat, w: nat)
    requires k > 0
    ensures k * w == w + (k - 1) * w
  {
  }

  lemma SliceAfter<T>(a: seq<T>, b: seq<T>, x: nat, y: nat)
    requires x <= y <= |b|
    ensures (a + b)[|a| + x..|a| + y] == b[x..y]
  {
  }

  /** `s.replace(old, new)`: every non-overlapping occurrence of `pat`, scanning
      left to right, is replaced by `repl`. */
  function Replace(s: string, pat: string, repl: string): string
    decreases |s|
  {
    if pat == [] then InsertEverywhere(s, repl)
    else if |s| < |pat| then s
    else if s[..|pat|] == pat then repl + Replace(s[|pat|..], pat, repl)
    else [s[0]] + Replace(s[1..], pat, repl)
  }

  /** `pat` occurs in `s` starting at index `i`. */
  predicate OccursAt(pat: string, s: string, i: int) {
    0 <= i <= |s| - |pat| && s[i..i + |pat|] == pat
  }

  /** `pat` occurs somewhere in `s`. */
  ghost predicate Occurs(pat: string, s: string) {
    exists i :: OccursAt(pat, s, i)
  }

  /** The number of occurrences `Replace` rewrites (Python's `s.count(old)`). */
  function Count(s: string, pat: string): (n: nat)
    requires pat != []
    ensures n * |pat| <= |s|
    decreases |s|
  {
    if |s| < |pat| then 0
    else if s[..|pat|] == pat then 1 + Count(s[|pat|..], pat)
    else Count(s[1..], pat)
  }

  /** Replacing a string by itself leaves the text as it was. */
  lemma {:induction false} ReplaceSelf(s: string, pat: string)
    ensures Replace(s, pat, pat) == s
    decreases |s|
  {
    if pat == [] {
      InsertEverywhereEmpty(s);
    } else if |s| < |pat| {
    } else if s[..|pat|] == pat {
      ReplaceSelf(s[|pat|..], pat);
      assert s == s[..|pat|] + s[|pat|..];
    } else {
      ReplaceSelf(s[1..], pat);
      assert s == [s[0]] + s[1..];
    }
  }

  lemma {:induction false} InsertEverywhereEmpty(s: string)
    ensures InsertEverywhere(s, []) == s
  {
    if s != [] {
      InsertEverywhereEmpty(s[1..]);
      assert s == [s[0]] + s[1..];
    }
  }

  /** Replace leaves a text with no occurrence of a non-empty `pat` unchanged. */
  lemma {:induction false} ReplaceAbsent(s: string, pat: string, repl: string)
    requires pat != [] && !Occurs(pat, s)
    ensures Replace(s, pat, repl) == s
    decreases |s|
  {
    if |s| >= |pat| {
      assert !OccursAt(pat, s, 0);
      assert !Occurs(pat, s[1..]) by {
        forall i | 0 <= i <= |s[1..]| - |pat| ensures OccursAt(pat, s[1..], i) ==> OccursAt(pat, s, i + 1) {
          assert s[1..][i..i + |pat|] == s[i + 1..i + 1 + |pat|];
        }
      }
      ReplaceAbsent(s[1..], pat, repl);
      assert s == [s[0]] + s[1..];
    }
  }

  /** `replace` rewrites the leftmost occurrence of a non-empty `pat` and
      carries on after it: with `ReplaceAbsent`, this fixes the result as the
      non-overlapping occurrences found left to right. */
  lemma ReplaceFirst(s: string, pat: string, repl: string, i: nat)
    requires pat != [] && OccursAt(pat, s, i)
    requires forall j :: 0 <= j < i ==> !OccursAt(pat, s, j)
    ensures Replace(s, pat, repl) == s[..i] + repl + Replace(s[i + |pat|..], pat, repl)
  {
    ReplaceFirstFrom(s, pat, repl, 0, i);
    assert s[0..] == s && s[0..i] == s[..i];
  }

  /** `ReplaceFirst` for the suffix `s[k..]`, scanning from `k` up to the occurrence at `i`. */
  lemma {:induction false} ReplaceFirstFrom(s: string, pat: string, repl: string, k: nat, i: nat)
    requires pat != [] && k <= i && OccursAt(pat, s, i)
    requires forall j :: k <= j < i ==> !OccursAt(pat, s, j)
    ensures Replace(s[k..], pat, repl) == s[k..i] + repl + Replace(s[i + |pat|..], pat, repl)
    decreases i - k
  {
    if k == i {
      ReplaceAt(s, pat, repl, i);
    } else {
      ReplaceFirstFrom(s, pat, repl, k + 1, i);
      ReplaceStep(s, pat, repl, k, i);
    }
  }

  /** An occurrence at `i` is rewritten at once. */
  lemma ReplaceAt(s: string, pat: string, repl: string, i: nat)
    requires pat != [] && OccursAt(pat, s, i)
    ensures Replace(s[i..], pat, repl) == s[i..i] + repl + Replace(s[i + |pat|..], pat, repl)
  {
    assert s[i..][..|pat|] == s[i..i + |pat|];
    assert s[i..][|pat|..] == s[i + |pat|..];
    assert s[i..i] + repl == repl;
  }

  /** A position before the occurrence at `i` is kept, and the scan goes on from the next one. */
  lemma ReplaceStep(s: string, pat: string, repl: string, k: nat, i: nat)
    requires pat != [] && k < i && OccursAt(pat, s, i) && !OccursAt(pat, s, k)
    requires Replace(s[k + 1..], pat, repl) == s[k + 1..i] + repl + Replace(s[i + |pat|..], pat, repl)
    ensures Replace(s[k..], pat, repl) == s[k..i] + repl + Replace(s[i + |pat|..], pat, repl)
  {
    ReplaceSkips(s, pat, repl, k);
    ConsSlice(s, k, i, repl, Replace(s[i + |pat|..], pat, repl));
  }

  /** Without an occurrence at `k`, `replace` keeps `s[k]` and moves on. */
  lemma ReplaceSkips(s: string, pat: string, repl: string, k: nat)
    requires pat != [] && k + |pat| <= |s| && !OccursAt(pat, s, k)
    ensures Replace(s[k..], pat, repl) == [s[k]] + Replace(s[k + 1..], pat, repl)
  {
    assert s[k..][..|pat|] == s[k..k + |pat|];
    assert s[k..][1..] == s[k + 1..];
  }

  lemma ConsSlice<T>(s: seq<T>, k: nat, i: nat, mid: seq<T>, rest: seq<T>)
    requires k < i <= |s|
    ensures [s[k]] + (s[k + 1..i] + mid + rest) == s[k..i] + mid + rest
  {
    assert s[k..i] == [s[k]] + s[k + 1..i];
  }

  /** A positive count comes with an occurrence. */
  lemma {:induction false} CountedOccurrence(s: string, pat: string) returns (i: nat)
    requires pat != [] && Count(s, pat) > 0
    ensures OccursAt(pat, s, i)
    decreases |s|
  {
    if s[..|pat|] == pat {
      i := 0;
    } else {
      var i' := CountedOccurrence(s[1..], pat);
      assert s[1..][i'..i' + |pat|] == s[i' + 1..i' + 1 + |pat|];
      i := i' + 1;
    }
  }

  /** Any occurrence is counted. */
  lemma {:induction false} OccurrenceCounted(s: string, pat: string, i: nat)
    requires pat != [] && OccursAt(pat, s, i)
    ensures Count(s, pat) > 0
    decreases |s|
  {
    if s[..|pat|] != pat {
      assert s[0..0 + |pat|] == s[..|pat|];
      assert s[1..][i - 1..i - 1 + |pat|] == s[i..i + |pat|];
      OccurrenceCounted(s[1..], pat, i - 1);
    }
  }

  /** Count is zero exactly when there is no occurrence. */
  lemma CountZeroIff(s: string, pat: string)
    requires pat != []
    ensures Count(s, pat) == 0 <==> !Occurs(pat, s)
  {
    if Count(s, pat) > 0 {
      var i := CountedOccurrence(s, pat);
    }
    forall i | OccursAt(pat, s, i) ensures Count(s, pat) > 0 {
      OccurrenceCounted(s, pat, i);
    }
  }

  /** Each rewritten occurrence trades `|pat|` characters for `|repl|`. */
  lemma {:induction false} ReplaceLength(s: string, pat: string, repl: string)
    requires pat != []
    ensures |Replace(s, pat, repl)| + Count(s, pat) * |pat| == |s| + Count(s, pat) * |repl|
    decreases |s|
  {
    if |s| < |pat| {
    } else if s[..|pat|] == pat {
      var rest := s[|pat|..];
      ReplaceLength(rest, pat, repl);
      var c := Count(rest, pat);
      assert |Replace(s, pat, repl)| == |repl| + |Replace(rest, pat, repl)|;
      assert Count(s, pat) == 1 + c;
      MulSucc(c, |pat|);
      MulSucc(c, |repl|);
    } else {
      ReplaceLength(s[1..], pat, repl);
    }
  }

  lemma MulSucc(c: nat, a: nat)
    ensures (1 + c) * a == a + c * a
  {
  }
}
