/**
 * The handful of Python `str` operations the telemetry decoders use, written
 * out over `string` (a `seq<char>`): `in`, `index`, `replace(pat, '')`,
 * `strip()`, `split()`, `" ".join(...)` and `split(" ")`, plus the
 * character-class deletion that `re.sub('[a-z]', '', s)` performs.
 */
module Text {

  /** Python's `str.isspace` on one character: the separators `split()` and `strip()` use. */
  predicate IsSpace(c: char) {
    c == ' ' || ('\t' <= c <= '\r') || ('\U{1c}' <= c <= '\U{1f}')
    || c == '\U{85}' || c == '\U{a0}' || c == '\U{1680}'
    || ('\U{2000}' <= c <= '\U{200a}') || c == '\U{2028}' || c == '\U{2029}'
    || c == '\U{202f}' || c == '\U{205f}' || c == '\U{3000}'
  }

  predicate IsAsciiLetter(c: char) {
    ('a' <= c <= 'z') || ('A' <= c <= 'Z')
  }

  // ---------------------------------------------------------------------------
  // Substring search: `pat in s` and `s.index(pat)`
  // ---------------------------------------------------------------------------

  predicate OccursAt(s: string, pat: string, j: int) {
    0 <= j && j + |pat| <= |s| && s[j..j + |pat|] == pat
  }

  /** Python's `pat in s`. */
  predicate Contains(s: string, pat: string) {
    exists j | 0 <= j <= |s| :: OccursAt(s, pat, j)
  }

  /** Python's `s.index(pat)`: the leftmost occurrence (the source raises when there is none). */
  function FirstIndex(s: string, pat: string): (i: nat)
    requires Contains(s, pat)
    ensures OccursAt(s, pat, i)
    ensures forall j | 0 <= j < i :: !OccursAt(s, pat, j)
    decreases |s|
  {
    if OccursAt(s, pat, 0) then 0
    else
      assert Contains(s[1..], pat) by {
        var j :| 0 <= j <= |s| && OccursAt(s, pat, j);
        OccursTail(s, pat, j);
      }
      var k := FirstIndex(s[1..], pat);
      OccursTail(s, pat, k + 1);
      forall j | 1 <= j < k + 1 ensures !OccursAt(s, pat, j) {
        OccursTail(s, pat, j);
      }
      k + 1
  }

  /** An occurrence past the first character is an occurrence in the rest, one place earlier. */
  lemma OccursTail(s: string, pat: string, j: nat)
    requires s != [] && 1 <= j
    ensures OccursAt(s, pat, j) <==> OccursAt(s[1..], pat, j - 1)
  {
    if j + |pat| <= |s| {
      var a, b := s[1..][j - 1..j - 1 + |pat|], s[j..j + |pat|];
      forall m | 0 <= m < |pat| ensures a[m] == b[m] {
        assert s[1..][j - 1 + m] == s[j + m];
      }
      assert a == b;
    }
  }

  /** Whatever contains `pat` contains every suffix of `pat`. */
  lemma ContainsSuffix(s: string, pat: string, k: nat)
    requires Contains(s, pat) && k <= |pat|
    ensures Contains(s, pat[k..])
  {
    var j :| 0 <= j <= |s| && OccursAt(s, pat, j);
    assert s[j + k..j + k + |pat[k..]|] == pat[k..] by {
      assert s[j + k..j + |pat|] == s[j..j + |pat|][k..];
    }
    assert OccursAt(s, pat[k..], j + k);
  }

  /** When nothing before `pre + pat` holds `pat`, `index` finds the copy right after `pre`. */
  lemma FirstIndexAfter(pre: string, pat: string, rest: string)
    requires pat != "" && !Contains(pre + pat[..|pat| - 1], pat)
    ensures Contains(pre + pat + rest, pat) && FirstIndex(pre + pat + rest, pat) == |pre|
  {
    var s := pre + pat + rest;
    assert OccursAt(s, pat, |pre|) by {
      assert s[|pre|..|pre| + |pat|] == pat;
    }
    var t := pre + pat[..|pat| - 1];
    assert t == s[..|t|];
    forall j | 0 <= j < |pre| ensures !OccursAt(s, pat, j) {
      OccursInPrefix(s, |t|, pat, j);
    }
  }

  /** An occurrence that ends within the first `n` characters is an occurrence in that prefix. */
  lemma OccursInPrefix(s: string, n: nat, pat: string, j: nat)
    requires n <= |s| && j + |pat| <= n
    ensures OccursAt(s, pat, j) <==> OccursAt(s[..n], pat, j)
  {
    assert s[..n][j..j + |pat|] == s[j..j + |pat|];
  }

  // ---------------------------------------------------------------------------
  // Deletion: `s.replace(pat, '')` and `re.sub('[lo-hi]', '', s)`
  // ---------------------------------------------------------------------------

  /** Python's `s.replace(pat, '')`: deletes the non-overlapping occurrences of `pat`, scanning left to right. */
  function Remove(s: string, pat: string): (r: string)
    requires pat != ""
    ensures |r| <= |s|
    decreases |s|
  {
    if |s| < |pat| then s
    else if s[..|pat|] == pat then Remove(s[|pat|..], pat)
    else [s[0]] + Remove(s[1..], pat)
  }

  /** No pattern of the list is the empty string. */
  predicate NoEmptyPattern(pats: seq<string>) {
    forall k | 0 <= k < |pats| :: pats[k] != ""
  }

  /** No pattern of the list occurs in `s`. */
  predicate ContainsNone(s: string, pats: seq<string>) {
    forall k | 0 <= k < |pats| :: !Contains(s, pats[k])
  }

  /** `s` holds no ASCII letter. */
  predicate NoAsciiLetters(s: string) {
    forall i | 0 <= i < |s| :: !IsAsciiLetter(s[i])
  }

  /** The replacements a decoder applies one after the other. */
  function RemoveAll(s: string, pats: seq<string>): (r: string)
    requires NoEmptyPattern(pats)
    decreases |pats|
  {
    if pats == [] then s else RemoveAll(Remove(s, pats[0]), pats[1..])
  }

  /** Python's `re.sub('[lo-hi]', '', s)`: deletes every character of the range. */
  function DropRange(s: string, lo: char, hi: char): (r: string)
    ensures forall c <- r :: c in s && !(lo <= c <= hi)
    decreases |s|
  {
    if s == [] then []
    else if lo <= s[0] <= hi then DropRange(s[1..], lo, hi)
    else [s[0]] + DropRange(s[1..], lo, hi)
  }

  /** Deleting a pattern never introduces a character. */
  lemma {:induction false} RemoveKeepsChars(s: string, pat: string)
    requires pat != ""
    ensures forall c <- Remove(s, pat) :: c in s
    decreases |s|
  {
    if |s| < |pat| {
    } else if s[..|pat|] == pat {
      RemoveKeepsChars(s[|pat|..], pat);
    } else {
      RemoveKeepsChars(s[1..], pat);
    }
  }

  /** Deleting a one-character pattern leaves none of that character. */
  lemma {:induction false} RemoveCharGone(s: string, c: char)
    ensures c !in Remove(s, [c])
    decreases |s|
  {
    if s != [] {
      RemoveCharGone(s[1..], c);
    }
  }

  lemma {:induction false} RemoveAllKeepsChars(s: string, pats: seq<string>)
    requires NoEmptyPattern(pats)
    ensures forall c <- RemoveAll(s, pats) :: c in s
    decreases |pats|
  {
    if pats != [] {
      RemoveKeepsChars(s, pats[0]);
      RemoveAllKeepsChars(Remove(s, pats[0]), pats[1..]);
    }
  }

  /** A one-character pattern in the list is absent from the result of the whole list. */
  lemma {:induction false} RemoveAllCharGone(s: string, pats: seq<string>, c: char)
    requires NoEmptyPattern(pats)
    requires [c] in pats
    ensures c !in RemoveAll(s, pats)
    decreases |pats|
  {
    if pats[0] == [c] {
      RemoveCharGone(s, c);
      RemoveAllKeepsChars(Remove(s, [c]), pats[1..]);
    } else {
      RemoveAllCharGone(Remove(s, pats[0]), pats[1..], c);
    }
  }

  /** Text that does not contain `pat` comes back unchanged. */
  lemma {:induction false} RemoveAbsent(s: string, pat: string)
    requires pat != "" && !Contains(s, pat)
    ensures Remove(s, pat) == s
    decreases |s|
  {
    if |s| >= |pat| {
      assert !OccursAt(s, pat, 0);
      assert !Contains(s[1..], pat) by {
        if Contains(s[1..], pat) {
          var j :| 0 <= j <= |s[1..]| && OccursAt(s[1..], pat, j);
          assert s[1..][j..j + |pat|] == s[j + 1..j + 1 + |pat|];
          assert OccursAt(s, pat, j + 1);
        }
      }
      RemoveAbsent(s[1..], pat);
      assert [s[0]] + s[1..] == s;
    }
  }

  /**
   * The first occurrence of `pat` is deleted, the text before it is kept, and
   * the scan resumes right after it.
   */
  lemma {:induction false} RemoveFirst(pre: string, pat: string, rest: string)
    requires pat != "" && !Contains(pre + pat[..|pat| - 1], pat)
    ensures Remove(pre + pat + rest, pat) == pre + Remove(rest, pat)
    decreases |pre|
  {
    var s := pre + pat + rest;
    if pre == [] {
      assert s[..|pat|] == pat && s[|pat|..] == rest by {
        assert s == pat + rest;
      }
    } else {
      var t := pre + pat[..|pat| - 1];
      assert s[..|pat|] != pat by {
        assert s[..|t|] == t;
        if s[..|pat|] == pat {
          assert t[0..|pat|] == s[..|t|][..|pat|];
          assert OccursAt(t, pat, 0);
        }
      }
      var u := pre[1..] + pat[..|pat| - 1];
      assert !Contains(u, pat) by {
        assert u == t[1..];
        if Contains(u, pat) {
          var j :| 0 <= j <= |u| && OccursAt(u, pat, j);
          OccursShift(t, pat, j);
        }
      }
      var x := Remove(rest, pat);
      assert Remove(s, pat) == [pre[0]] + Remove(pre[1..] + pat + rest, pat) by {
        assert s[1..] == pre[1..] + pat + rest;
      }
      RemoveFirst(pre[1..], pat, rest);
      assert [pre[0]] + (pre[1..] + x) == pre + x;
    }
  }

  lemma {:induction false} OccursShift(t: string, pat: string, j: nat)
    requires t != [] && OccursAt(t[1..], pat, j)
    ensures OccursAt(t, pat, j + 1)
  {
    assert t[1..][j..j + |pat|] == t[j + 1..j + 1 + |pat|];
  }

  /** A chain of deletions none of whose patterns occurs leaves the text unchanged. */
  lemma {:induction false} RemoveAllAbsent(s: string, pats: seq<string>)
    requires NoEmptyPattern(pats) && ContainsNone(s, pats)
    ensures RemoveAll(s, pats) == s
    decreases |pats|
  {
    if pats != [] {
      RemoveAbsent(s, pats[0]);
      assert forall k | 0 <= k < |pats[1..]| :: pats[1..][k] == pats[k + 1];
      RemoveAllAbsent(s, pats[1..]);
    }
  }

  /** `re.sub` works character by character: it distributes over concatenation. */
  lemma {:induction false} DropRangeConcat(a: string, b: string, lo: char, hi: char)
    ensures DropRange(a + b, lo, hi) == DropRange(a, lo, hi) + DropRange(b, lo, hi)
    decreases |a|
  {
    if a == [] {
      assert a + b == b;
    } else {
      assert (a + b)[1..] == a[1..] + b;
      DropRangeConcat(a[1..], b, lo, hi);
    }
  }

  /** Text with no character in the range comes back unchanged. */
  lemma {:induction false} DropRangeOutside(s: string, lo: char, hi: char)
    requires forall i | 0 <= i < |s| :: !(lo <= s[i] <= hi)
    ensures DropRange(s, lo, hi) == s
    decreases |s|
  {
    if s != [] {
      DropRangeOutside(s[1..], lo, hi);
      assert [s[0]] + s[1..] == s;
    }
  }

  // ---------------------------------------------------------------------------
  // `strip()`
  // ---------------------------------------------------------------------------

  /** Every character is whitespace. */
  predicate AllSpace(s: string) {
    forall i | 0 <= i < |s| :: IsSpace(s[i])
  }

  /** The end of the run of whitespace that starts at `i`. */
  function SpaceRunFrom(s: string, i: nat): (j: nat)
    requires i <= |s|
    ensures i <= j <= |s| && AllSpace(s[i..j])
    ensures j == |s| || !IsSpace(s[j])
    decreases |s| - i
  {
    if i == |s| || !IsSpace(s[i]) then i
    else
      var j := SpaceRunFrom(s, i + 1);
      assert s[i..j] == [s[i]] + s[i + 1..j];
      j
  }

  /** The start of the run of whitespace that ends at `j`. */
  function SpaceRunTo(s: string, j: nat): (i: nat)
    requires j <= |s|
    ensures i <= j && AllSpace(s[i..j])
    ensures i == 0 || !IsSpace(s[i - 1])
    decreases j
  {
    if j == 0 || !IsSpace(s[j - 1]) then j
    else
      var i := SpaceRunTo(s, j - 1);
      assert s[i..j] == s[i..j - 1] + [s[j - 1]];
      i
  }

  /** Python's `s.lstrip()`. */
  function TrimStart(s: string): (r: string)
    ensures |r| <= |s| && r == s[|s| - |r|..]
    ensures r == [] || !IsSpace(r[0])
    ensures AllSpace(s[..|s| - |r|])
  {
    var i := SpaceRunFrom(s, 0);
    assert s[..i] == s[0..i];
    s[i..]
  }

  /** Python's `s.rstrip()`. */
  function TrimEnd(s: string): (r: string)
    ensures |r| <= |s| && r == s[..|r|]
    ensures r == [] || !IsSpace(r[|r| - 1])
    ensures AllSpace(s[|r|..])
  {
    var j := SpaceRunTo(s, |s|);
    assert s[j..] == s[j..|s|];
    s[..j]
  }

  /** Python's `s.strip()`. */
  function Strip(s: string): (r: string)
    ensures r == [] || (!IsSpace(r[0]) && !IsSpace(r[|r| - 1]))
    ensures |r| <= |s|
  {
    TrimEnd(TrimStart(s))
  }

  /** `strip()` keeps the slice of `s` that starts after its leading whitespace. */
  lemma {:induction false} StripSlice(s: string)
    ensures |s| - |TrimStart(s)| + |Strip(s)| <= |s|
    ensures Strip(s) == s[|s| - |TrimStart(s)|..|s| - |TrimStart(s)| + |Strip(s)|]
  {
    SliceOfSuffix(s, TrimStart(s), Strip(s));
  }

  /** What `strip()` cuts from the end of that slice is whitespace. */
  lemma {:induction false} StripTail(s: string)
    ensures |s| - |TrimStart(s)| + |Strip(s)| <= |s|
    ensures AllSpace(s[|s| - |TrimStart(s)| + |Strip(s)|..])
  {
    var t := TrimStart(s);
    SpaceAfterPrefix(s, |s| - |t|, |TrimEnd(t)|);
  }

  /** `strip()` introduces no character. */
  lemma {:induction false} StripKeepsChars(s: string)
    ensures forall c <- Strip(s) :: c in s
  {
    StripSlice(s);
    SliceChars(s, |s| - |TrimStart(s)|, |s| - |TrimStart(s)| + |Strip(s)|);
  }

  /** A leading space before stripped text is all `strip()` removes. */
  lemma {:induction false} StripSpaceThen(s: string)
    requires s == [] || (!IsSpace(s[0]) && !IsSpace(s[|s| - 1]))
    ensures Strip(" " + s) == s
  {
    assert (" " + s)[1..] == s;
    assert TrimStart(" " + s) == TrimStart(s) == s;
    assert TrimEnd(s) == s;
  }

  lemma {:induction false} SliceOfSuffix(s: string, t: string, r: string)
    requires |t| <= |s| && t == s[|s| - |t|..] && |r| <= |t| && r == t[..|r|]
    ensures |s| - |t| + |r| <= |s| && r == s[|s| - |t|..|s| - |t| + |r|]
  {
    assert s[|s| - |t|..][..|r|] == s[|s| - |t|..|s| - |t| + |r|];
  }

  lemma {:induction false} SpaceAfterPrefix(s: string, i: nat, n: nat)
    requires i <= |s| && n <= |s| - i && AllSpace(s[i..][n..])
    ensures AllSpace(s[i + n..])
  {
    assert s[i..][n..] == s[i + n..];
  }

  lemma {:induction false} SliceChars(s: string, i: nat, j: nat)
    requires i <= j <= |s|
    ensures forall c <- s[i..j] :: c in s
  {
    forall c <- s[i..j] ensures c in s {
      var k :| 0 <= k < j - i && s[i..j][k] == c;
      assert s[i + k] == c;
    }
  }

  /** Text that neither starts nor ends with whitespace is its own `strip()`. */
  lemma {:induction false} StripTrimmed(s: string)
    requires s == [] || (!IsSpace(s[0]) && !IsSpace(s[|s| - 1]))
    ensures Strip(s) == s
  {
    assert TrimStart(s) == s;
    assert TrimEnd(s) == s;
  }

  // ---------------------------------------------------------------------------
  // `" ".join(s.split())` followed by `.split(" ")`
  // ---------------------------------------------------------------------------

  /** Length of the leading run of non-whitespace characters. */
  function RunLength(s: string): (n: nat)
    ensures n <= |s|
    ensures forall i | 0 <= i < n :: !IsSpace(s[i])
    ensures n == |s| || IsSpace(s[n])
    decreases |s|
  {
    if s == [] || IsSpace(s[0]) then 0 else 1 + RunLength(s[1..])
  }

  /** Python's `s.split()` with no separator: the maximal runs of non-whitespace characters. */
  function Words(s: string): (ws: seq<string>)
    decreases |s|
  {
    if s == [] then []
    else if IsSpace(s[0]) then Words(s[1..])
    else
      var n := RunLength(s);
      [s[..n]] + Words(s[n..])
  }

  /** Python's `sep.join(ws)`. */
  function Join(sep: string, ws: seq<string>): (r: string)
    decreases |ws|
  {
    if ws == [] then ""
    else if |ws| == 1 then ws[0]
    else ws[0] + sep + Join(sep, ws[1..])
  }

  /** Python's `s.split(sep)` for a one-character separator: never an empty list. */
  function SplitOn(s: string, sep: char): (parts: seq<string>)
    ensures |parts| >= 1
    decreases |s|
  {
    if s == [] then [""]
    else
      var rest := SplitOn(s[1..], sep);
      if s[0] == sep then [""] + rest
      else [[s[0]] + rest[0]] + rest[1..]
  }

  /** `" ".join(s.split()).split(" ")`: the token list every decoder checks for arity. */
  function Tokens(s: string): seq<string> {
    SplitOn(Join(" ", Words(s)), ' ')
  }

  /** Every word is a non-empty run of non-whitespace characters taken from `s`. */
  lemma {:induction false} WordsShape(s: string)
    ensures forall w <- Words(s) :: w != "" && forall c <- w :: !IsSpace(c) && c in s
    decreases |s|
  {
    if s == [] {
    } else if IsSpace(s[0]) {
      WordsShape(s[1..]);
    } else {
      var n := RunLength(s);
      WordsShape(s[n..]);
      assert Words(s) == [s[..n]] + Words(s[n..]);
      forall w <- Words(s)
        ensures w != "" && forall c <- w :: !IsSpace(c) && c in s
      {
        if w == s[..n] {
          forall c <- w ensures !IsSpace(c) && c in s {
            var i :| 0 <= i < n && w[i] == c;
          }
        } else {
          assert w in Words(s[n..]);
          forall c <- w ensures c in s {
            assert c in s[n..];
          }
        }
      }
    }
  }

  /** A non-empty run of non-whitespace characters: what `split()` yields. */
  predicate IsWord(w: string) {
    w != [] && forall i | 0 <= i < |w| :: !IsSpace(w[i])
  }

  /** The leading run of a word followed by whitespace (or nothing) is that word. */
  lemma {:induction false} RunLengthWord(w: string, rest: string)
    requires forall i | 0 <= i < |w| :: !IsSpace(w[i])
    requires rest == [] || IsSpace(rest[0])
    ensures RunLength(w + rest) == |w|
    decreases |w|
  {
    if w == [] {
      assert w + rest == rest;
    } else {
      assert (w + rest)[1..] == w[1..] + rest;
      RunLengthWord(w[1..], rest);
    }
  }

  /** A word followed by whitespace is the first word `split()` yields; it then goes on after the whitespace. */
  lemma {:induction false} WordsThen(w: string, sp: char, rest: string)
    requires IsWord(w) && IsSpace(sp)
    ensures Words(w + [sp] + rest) == [w] + Words(rest)
  {
    var s := w + [sp] + rest;
    RunLengthWord(w, [sp] + rest);
    assert s == w + ([sp] + rest);
    assert s[..|w|] == w && s[|w|..] == [sp] + rest;
    assert ([sp] + rest)[1..] == rest;
  }

  /** A single word splits into itself. */
  lemma {:induction false} WordsOfWord(w: string)
    requires IsWord(w)
    ensures Words(w) == [w]
  {
    RunLengthWord(w, []);
    assert w + [] == w;
    assert w[..|w|] == w && w[|w|..] == [];
  }

  /** `split()` gives back, in order, the words that `" ".join` put together. */
  lemma {:induction false} WordsJoin(ws: seq<string>)
    requires forall k | 0 <= k < |ws| :: IsWord(ws[k])
    ensures Words(Join(" ", ws)) == ws
    decreases |ws|
  {
    if |ws| == 1 {
      WordsOfWord(ws[0]);
    } else if |ws| > 1 {
      WordsThen(ws[0], ' ', Join(" ", ws[1..]));
      WordsJoin(ws[1..]);
      assert [ws[0]] + ws[1..] == ws;
    }
  }

  /** Words joined by single spaces neither start nor end with whitespace. */
  lemma {:induction false} JoinTrimmed(ws: seq<string>)
    requires forall k | 0 <= k < |ws| :: IsWord(ws[k])
    ensures ws != [] ==> Join(" ", ws) != []
    ensures var j := Join(" ", ws); j == [] || (!IsSpace(j[0]) && !IsSpace(j[|j| - 1]))
    decreases |ws|
  {
    if |ws| > 1 {
      JoinTrimmed(ws[1..]);
      var j, t := Join(" ", ws), Join(" ", ws[1..]);
      assert j == ws[0] + " " + t;
      assert j[0] == ws[0][0] && j[|j| - 1] == t[|t| - 1];
    }
  }

  lemma {:induction false} SplitWord(w: string, sep: char)
    requires sep !in w
    ensures SplitOn(w, sep) == [w]
    decreases |w|
  {
    if w != [] {
      SplitWord(w[1..], sep);
      assert [w[0]] + w[1..] == w;
    }
  }

  lemma {:induction false} SplitWordThen(w: string, sep: char, rest: string)
    requires sep !in w
    ensures SplitOn(w + [sep] + rest, sep) == [w] + SplitOn(rest, sep)
    decreases |w|
  {
    if w == [] {
      assert w + [sep] + rest == [sep] + rest;
      assert ([sep] + rest)[1..] == rest;
    } else {
      SplitWordThen(w[1..], sep, rest);
      assert (w + [sep] + rest)[1..] == w[1..] + [sep] + rest;
      assert [w[0]] + w[1..] == w;
    }
  }

  /** Splitting on the separator undoes joining words that do not contain it. */
  lemma {:induction false} SplitJoin(ws: seq<string>)
    requires ws != []
    requires forall w <- ws :: ' ' !in w
    ensures SplitOn(Join(" ", ws), ' ') == ws
    decreases |ws|
  {
    if |ws| == 1 {
      SplitWord(ws[0], ' ');
    } else {
      SplitJoin(ws[1..]);
      SplitWordThen(ws[0], ' ', Join(" ", ws[1..]));
      assert [ws[0]] + ws[1..] == ws;
    }
  }

  /**
   * The tokens are exactly the whitespace-separated words of `s`; only a line
   * with no word at all yields the single empty token that `"".split(" ")` gives.
   */
  lemma TokensAreWords(s: string)
    ensures Tokens(s) == if Words(s) == [] then [""] else Words(s)
    ensures Tokens(s) == [""] || forall t <- Tokens(s) :: t != "" && forall c <- t :: !IsSpace(c) && c in s
  {
    WordsShape(s);
    if Words(s) != [] {
      SplitJoin(Words(s));
    }
  }

  /** Words joined by single spaces tokenize back into exactly those words. */
  lemma TokensJoin(ws: seq<string>)
    requires ws != [] && forall k | 0 <= k < |ws| :: IsWord(ws[k])
    ensures Tokens(Join(" ", ws)) == ws
  {
    WordsJoin(ws);
    forall w <- ws ensures ' ' !in w {
      var k :| 0 <= k < |ws| && ws[k] == w;
      assert IsWord(w);
    }
    SplitJoin(ws);
  }

  /** Every character of every token is a non-whitespace character of `s`. */
  lemma TokenChars(s: string)
    ensures forall t <- Tokens(s), c <- t :: c in s && !IsSpace(c)
  {
    TokensAreWords(s);
  }
}
