/**
 * The few Python string operations the log loader and the hex decoder rely on:
 * `str.strip()`, `str.upper()`, the substring test `p in s`, `str.split(sep)`
 * (only its first two parts are ever used) and `str.split()` on whitespace.
 * Characters are restricted to what these operations do on ASCII text.
 */
module Text {
  import opened Wrappers

  /** The ASCII characters for which Python's `str.isspace()` holds:
      tab, line feed, vertical tab, form feed, carriage return,
      the four separators 0x1C-0x1F, and space. */
  predicate IsSpace(c: char) {
    var n := c as int;
    n == 32 || 9 <= n <= 13 || 28 <= n <= 31
  }

  predicate NoSpace(s: string) {
    forall i :: 0 <= i < |s| ==> !IsSpace(s[i])
  }

  predicate AllSpace(s: string) {
    forall i :: 0 <= i < |s| ==> IsSpace(s[i])
  }

  /** A string that `strip()` leaves as it is. */
  predicate Trimmed(s: string) {
    s == [] || (!IsSpace(s[0]) && !IsSpace(s[|s| - 1]))
  }

  // ---------------------------------------------------------------- strip

  /** Python's `s.lstrip()`: `s` without its leading whitespace. */
  function TrimStart(s: string): (r: string)
    ensures |r| <= |s| && r == s[|s| - |r|..]
    ensures r == [] || !IsSpace(r[0])
    decreases |s|
  {
    if s != [] && IsSpace(s[0]) then TrimStart(s[1..]) else s
  }

  /** Python's `s.rstrip()`: `s` without its trailing whitespace. */
  function TrimEnd(s: string): (r: string)
    ensures |r| <= |s| && r == s[..|r|]
    ensures r == [] || !IsSpace(r[|r| - 1])
    decreases |s|
  {
    if s != [] && IsSpace(s[|s| - 1]) then TrimEnd(s[..|s| - 1]) else s
  }

  lemma {:induction false} TrimStartAllSpace(s: string)
    ensures TrimStart(s) == [] <==> AllSpace(s)
    decreases |s|
  {
    if s != [] && IsSpace(s[0]) {
      TrimStartAllSpace(s[1..]);
      if !AllSpace(s) {
        var i :| 0 <= i < |s| && !IsSpace(s[i]);
        assert s[1..][i - 1] == s[i];
      }
    }
  }

  /** `rstrip()` leaves a string that does not end in whitespace as it is. */
  lemma TrimEndKeeps(s: string)
    ensures (s == [] || !IsSpace(s[|s| - 1])) ==> TrimEnd(s) == s
  {
  }

  /** `rstrip()` empties only an all-whitespace string. */
  lemma {:induction false} TrimEndNonEmpty(s: string)
    ensures s != [] && !IsSpace(s[0]) ==> TrimEnd(s) != [] && TrimEnd(s)[0] == s[0]
    decreases |s|
  {
    if s != [] && !IsSpace(s[0]) && IsSpace(s[|s| - 1]) {
      TrimEndNonEmpty(s[..|s| - 1]);
    }
  }

  /** Python's `s.strip()`: the text between the leading and the trailing
      whitespace. It has no whitespace at either end, is empty exactly when
      `s` is all whitespace, and is `s` itself when `s` has none to remove. */
  function Trim(s: string): (r: string)
    ensures Trimmed(r)
    ensures r == [] <==> AllSpace(s)
    ensures Trimmed(s) ==> r == s
  {
    var t := TrimStart(s);
    TrimStartAllSpace(s);
    TrimEndNonEmpty(t);
    TrimEndKeeps(s);
    TrimEnd(t)
  }

  /** What `lstrip()` removes is whitespace. */
  lemma {:induction false} TrimStartCut(s: string)
    ensures AllSpace(s[..|s| - |TrimStart(s)|])
    decreases |s|
  {
    if s != [] && IsSpace(s[0]) {
      TrimStartCut(s[1..]);
      var k := |s| - |TrimStart(s)|;
      forall i | 0 <= i < k
        ensures IsSpace(s[..k][i])
      {
        if i > 0 {
          assert s[..k][i] == s[1..][..k - 1][i - 1];
        }
      }
    }
  }

  /** What `rstrip()` removes is whitespace. */
  lemma {:induction false} TrimEndCut(s: string)
    ensures AllSpace(s[|TrimEnd(s)|..])
    decreases |s|
  {
    if s != [] && IsSpace(s[|s| - 1]) {
      var init := s[..|s| - 1];
      TrimEndCut(init);
      var k := |TrimEnd(s)|;
      forall i | 0 <= i < |s| - k
        ensures IsSpace(s[k..][i])
      {
        if i < |s| - 1 - k {
          assert s[k..][i] == init[k..][i];
        }
      }
    }
  }

  /** What `strip()` keeps is one contiguous slice of its input, and what it
      cuts off on either side is whitespace. */
  lemma TrimSlice(s: string) returns (a: nat, b: nat)
    ensures a <= b <= |s| && Trim(s) == s[a..b]
    ensures AllSpace(s[..a]) && AllSpace(s[b..])
  {
    var t := TrimStart(s);
    a := |s| - |t|;
    b := a + |TrimEnd(t)|;
    assert Trim(s) == t[..|TrimEnd(t)|];
    TrimStartCut(s);
    TrimEndCut(t);
    assert s[b..] == t[|TrimEnd(t)|..];
  }

  /** A trimmed word followed by one blank strips back to the word. */
  lemma TrimWordSpace(w: string, c: char)
    requires Trimmed(w) && IsSpace(c)
    ensures Trim(w + [c]) == w
  {
    var s := w + [c];
    if w != [] {
      assert s[0] == w[0];
      assert s[..|s| - 1] == w;
      TrimEndKeeps(w);
    } else {
      assert TrimStart(s) == TrimStart(s[1..]);
      assert s[1..] == [];
    }
  }

  /** A non-empty trimmed word preceded by one blank strips back to the word. */
  lemma TrimSpaceWord(c: char, w: string)
    requires Trimmed(w) && w != [] && IsSpace(c)
    ensures Trim([c] + w) == w
  {
    var s := [c] + w;
    assert s[0] == c && s[1..] == w;
    assert TrimStart(s) == TrimStart(w) == w;
    TrimEndKeeps(w);
  }

  // ---------------------------------------------------------------- upper

  /** `str.upper()` on one ASCII character. */
  function UpperChar(c: char): (r: char)
    ensures 'a' <= c <= 'z' ==> r as int == c as int - 32
    ensures !('a' <= c <= 'z') ==> r == c
  {
    if 'a' <= c <= 'z' then (c as int - 32) as char else c
  }

  predicate NoLower(s: string) {
    forall i :: 0 <= i < |s| ==> !('a' <= s[i] <= 'z')
  }

  /** `str.upper()` on ASCII text: same length, each letter upper-cased. */
  function Upper(s: string): (r: string)
    ensures |r| == |s|
    ensures forall i :: 0 <= i < |s| ==> r[i] == UpperChar(s[i])
    ensures NoLower(r)
  {
    seq(|s|, i requires 0 <= i < |s| => UpperChar(s[i]))
  }

  /** Text without lower-case letters is its own upper-case form. */
  lemma UpperOfNoLower(s: string)
    requires NoLower(s)
    ensures Upper(s) == s
  {
  }

  // ------------------------------------------------------ substring search

  predicate OccursAt(s: string, p: string, i: int) {
    0 <= i && i + |p| <= |s| && s[i..i + |p|] == p
  }

  /** Python's `p in s`. */
  predicate Contains(s: string, p: string) {
    exists i :: 0 <= i <= |s| - |p| && OccursAt(s, p, i)
  }

  /** `s.find(p, i)`: the first occurrence of `p` at or after `i`. */
  function IndexFrom(s: string, p: string, i: nat): (r: Option<nat>)
    ensures r.Some? ==> i <= r.value && r.value + |p| <= |s|
    decreases |s| - i
  {
    if i + |p| > |s| then None
    else if s[i..i + |p|] == p then Some(i)
    else IndexFrom(s, p, i + 1)
  }

  /** The position found is an occurrence with none before it, from `i` on;
      no position means no occurrence from `i` on. */
  lemma {:induction false} IndexFromSpec(s: string, p: string, i: nat)
    ensures IndexFrom(s, p, i).Some? ==> OccursAt(s, p, IndexFrom(s, p, i).value)
    ensures IndexFrom(s, p, i).Some? ==> forall j :: i <= j < IndexFrom(s, p, i).value ==> !OccursAt(s, p, j)
    ensures IndexFrom(s, p, i).None? ==> forall j :: i <= j ==> !OccursAt(s, p, j)
    decreases |s| - i
  {
    if i + |p| <= |s| && s[i..i + |p|] != p {
      IndexFromSpec(s, p, i + 1);
    }
  }

  /** `s.find(p)`. */
  function IndexOf(s: string, p: string): (r: Option<nat>)
    ensures r.Some? ==> r.value + |p| <= |s|
  {
    IndexFrom(s, p, 0)
  }

  /** `s.find(p)` gives the first occurrence, and nothing exactly when `p`
      does not occur. */
  lemma IndexOfSpec(s: string, p: string)
    ensures IndexOf(s, p).Some? ==>
      OccursAt(s, p, IndexOf(s, p).value) && forall j :: 0 <= j < IndexOf(s, p).value ==> !OccursAt(s, p, j)
    ensures IndexOf(s, p).None? <==> !Contains(s, p)
  {
    IndexFromSpec(s, p, 0);
  }

  /** An occurrence inside `s[..k]` is an occurrence in `s` ending by `k`. */
  lemma OccursInPrefix(s: string, k: nat, p: string, j: int)
    requires k <= |s| && OccursAt(s[..k], p, j)
    ensures OccursAt(s, p, j) && j + |p| <= k
  {
    assert s[..k][j..j + |p|] == s[j..j + |p|];
  }

  /** An occurrence inside a slice is an occurrence in the whole string. */
  lemma OccursInSlice(s: string, a: nat, b: nat, p: string, j: int)
    requires a <= b <= |s| && OccursAt(s[a..b], p, j)
    ensures OccursAt(s, p, a + j) && a + j + |p| <= b
  {
    forall m | 0 <= m < |p| ensures s[a + j + m] == p[m] {
      assert s[a..b][j..j + |p|][m] == p[m];
      assert s[a..b][j + m] == s[a + j + m];
    }
    assert s[a + j..a + j + |p|] == p;
  }

  lemma ContainsSlice(s: string, a: nat, b: nat, p: string)
    requires a <= b <= |s|
    ensures Contains(s[a..b], p) ==> Contains(s, p)
  {
    if Contains(s[a..b], p) {
      var j :| 0 <= j <= |s[a..b]| - |p| && OccursAt(s[a..b], p, j);
      OccursInSlice(s, a, b, p, j);
    }
  }

  /** The part of `rest` before the first occurrence of `p`, or all of it. */
  function UpTo(rest: string, p: string): string {
    match IndexOf(rest, p)
    case None => rest
    case Some(j) => rest[..j]
  }

  /** That part is a prefix without `p`, followed by `p` unless it is all. */
  lemma UpToSpec(rest: string, p: string)
    requires p != []
    ensures |UpTo(rest, p)| <= |rest| && UpTo(rest, p) == rest[..|UpTo(rest, p)|]
    ensures !Contains(UpTo(rest, p), p)
    ensures |UpTo(rest, p)| == |rest| || OccursAt(rest, p, |UpTo(rest, p)|)
  {
    IndexOfSpec(rest, p);
    match IndexOf(rest, p)
    case None =>
    case Some(j) =>
      if Contains(rest[..j], p) {
        var m :| 0 <= m <= j - |p| && OccursAt(rest[..j], p, m);
        OccursInPrefix(rest, j, p, m);
      }
  }

  /** Python's `s.split(p)[0]` and `s.split(p)[1]`, the only two parts the
      loader reads, or None when `s.split(p)` has a single part (`p` absent). */
  function SplitFirstTwo(s: string, p: string): Option<(string, string)> {
    match IndexOf(s, p)
    case None => None
    case Some(k) => Some((s[..k], UpTo(s[k + |p|..], p)))
  }

  /** The split yields two parts exactly when `p` occurs. The first part is
      the text before the first occurrence, the second the text after it up
      to the next occurrence or the end, and neither part contains `p`. */
  lemma SplitFirstTwoSpec(s: string, p: string)
    requires p != []
    ensures SplitFirstTwo(s, p).None? <==> !Contains(s, p)
    ensures SplitFirstTwo(s, p).Some? ==>
      var (a, b) := SplitFirstTwo(s, p).value;
      var n := |a| + |p| + |b|;
      !Contains(a, p) && !Contains(b, p) &&
      n <= |s| && s[..n] == a + p + b &&
      (n == |s| || OccursAt(s, p, n))
  {
    IndexOfSpec(s, p);
    match IndexOf(s, p)
    case None =>
    case Some(k) =>
      UpToSpec(s[k + |p|..], p);
      SplitFacts(s, p, k, UpTo(s[k + |p|..], p));
  }

  lemma SplitFacts(s: string, p: string, k: nat, b: string)
    requires p != []
    requires OccursAt(s, p, k) && forall j :: 0 <= j < k ==> !OccursAt(s, p, j)
    requires b == UpTo(s[k + |p|..], p)
    ensures !Contains(s[..k], p)
    ensures |b| + |p| + k <= |s|
    ensures s[..k + |p| + |b|] == s[..k] + p + b
    ensures k + |p| + |b| == |s| || OccursAt(s, p, k + |p| + |b|)
  {
    var a := s[..k];
    var rest := s[k + |p|..];
    UpToSpec(rest, p);
    if Contains(a, p) {
      var j :| 0 <= j <= |a| - |p| && OccursAt(a, p, j);
      OccursInPrefix(s, k, p, j);
    }
    var n := k + |p| + |b|;
    assert s[..k + |p|] == a + p;
    assert s[k + |p|..n] == b;
    assert s[..n] == s[..k + |p|] + s[k + |p|..n];
    if n < |s| {
      assert OccursAt(rest, p, |b|);
      assert rest[|b|..|b| + |p|] == s[n..n + |p|];
    }
  }

  // -------------------------------------------------- split on whitespace

  /** The scanner behind `str.split()`: `word` is the token read so far. */
  function SplitWords(s: string, word: string): (r: seq<string>)
    requires NoSpace(word)
    ensures forall i :: 0 <= i < |r| ==> r[i] != [] && NoSpace(r[i])
    decreases |s|
  {
    if s == [] then (if word == [] then [] else [word])
    else if IsSpace(s[0]) then (if word == [] then [] else [word]) + SplitWords(s[1..], [])
    else SplitWords(s[1..], word + [s[0]])
  }

  /** Python's `s.split()`: the maximal runs of non-whitespace, in order. */
  function Tokens(s: string): (r: seq<string>)
    ensures forall i :: 0 <= i < |r| ==> r[i] != [] && NoSpace(r[i])
  {
    SplitWords(s, [])
  }

  /** Words joined by single spaces, as a capture log writes them. */
  function JoinSpaced(ws: seq<string>): string {
    if ws == [] then []
    else if |ws| == 1 then ws[0]
    else ws[0] + " " + JoinSpaced(ws[1..])
  }

  lemma {:induction false} SplitWordsAcross(w: string, rest: string, word: string)
    requires NoSpace(word) && NoSpace(w)
    ensures NoSpace(word + w)
    ensures SplitWords(w + rest, word) == SplitWords(rest, word + w)
    decreases |w|
  {
    if w == [] {
      assert w + rest == rest;
      assert word + w == word;
    } else {
      assert (w + rest)[0] == w[0];
      assert (w + rest)[1..] == w[1..] + rest;
      assert NoSpace(word + [w[0]]);
      SplitWordsAcross(w[1..], rest, word + [w[0]]);
      assert word + [w[0]] + w[1..] == word + w;
    }
  }

  /** `split()` skips leading whitespace. */
  lemma {:induction false} SplitWordsSkipSpace(sp: string, rest: string)
    requires AllSpace(sp)
    ensures SplitWords(sp + rest, []) == SplitWords(rest, [])
    decreases |sp|
  {
    if sp == [] {
      assert sp + rest == rest;
    } else {
      assert (sp + rest)[0] == sp[0];
      assert (sp + rest)[1..] == sp[1..] + rest;
      SplitWordsSkipSpace(sp[1..], rest);
    }
  }

  /** A word being read is never lost. */
  lemma {:induction false} SplitWordsKeepsWord(s: string, word: string)
    requires NoSpace(word) && word != []
    ensures SplitWords(s, word) != []
    decreases |s|
  {
    if s != [] && !IsSpace(s[0]) {
      assert NoSpace(word + [s[0]]);
      SplitWordsKeepsWord(s[1..], word + [s[0]]);
    }
  }

  /** `split()` gives no token exactly when the string is all whitespace. */
  lemma {:induction false} TokensEmpty(s: string)
    ensures Tokens(s) == [] <==> AllSpace(s)
    decreases |s|
  {
    if s != [] {
      if IsSpace(s[0]) {
        TokensEmpty(s[1..]);
        assert AllSpace(s) <==> AllSpace(s[1..]) by {
          if AllSpace(s[1..]) {
            forall i | 0 < i < |s|
              ensures IsSpace(s[i])
            {
              assert s[i] == s[1..][i - 1];
            }
          }
        }
      } else {
        assert [] + [s[0]] == [s[0]];
        assert Tokens(s) == SplitWords(s[1..], [s[0]]);
        SplitWordsKeepsWord(s[1..], [s[0]]);
        assert !IsSpace(s[0]);
      }
    }
  }

  /** `split()` on any string that is not all whitespace: after the leading
      whitespace `sp`, the first token is the maximal run `w` of
      non-whitespace, and the rest of the tokens are those of what follows. */
  lemma TokensFirstWord(sp: string, w: string, rest: string)
    requires AllSpace(sp) && w != [] && NoSpace(w)
    requires rest == [] || IsSpace(rest[0])
    ensures Tokens(sp + w + rest) == [w] + Tokens(rest)
  {
    assert sp + w + rest == sp + (w + rest);
    SplitWordsSkipSpace(sp, w + rest);
    SplitWordsAcross(w, rest, []);
    assert [] + w == w;
    if rest == [] {
      assert SplitWords(rest, w) == [w];
    } else {
      assert SplitWords(rest, w) == [w] + SplitWords(rest[1..], []);
      assert Tokens(rest) == SplitWords(rest[1..], []);
    }
  }

  /** Splitting words joined by single spaces gives the words back. */
  lemma {:induction false} TokensOfJoined(ws: seq<string>)
    requires forall i :: 0 <= i < |ws| ==> ws[i] != [] && NoSpace(ws[i])
    ensures Tokens(JoinSpaced(ws)) == ws
    decreases |ws|
  {
    if ws == [] {
    } else if |ws| == 1 {
      SplitWordsAcross(ws[0], [], []);
      assert ws[0] + [] == ws[0];
      assert [] + ws[0] == ws[0];
    } else {
      var rest := " " + JoinSpaced(ws[1..]);
      assert JoinSpaced(ws) == ws[0] + rest;
      SplitWordsAcross(ws[0], rest, []);
      assert [] + ws[0] == ws[0];
      assert rest[1..] == JoinSpaced(ws[1..]);
      TokensOfJoined(ws[1..]);
      assert ws == [ws[0]] + ws[1..];
    }
  }
}
