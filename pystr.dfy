/**
 * The Python string built-ins the scripts rely on: `str.find`, slicing from an
 * index, `str.replace`, `str.split()` on white space and `sep.join`. Splitting
 * on one character (`SplitOn`) is not called by the scripts; it serves the
 * edge-file reader that the round-trip lemmas use.
 */
module PyStr {

  /** p occurs in s starting at index i. */
  predicate OccursAt(s: string, p: string, i: nat)
  {
    i + |p| <= |s| && s[i..i + |p|] == p
  }

  predicate Contains(s: string, p: string)
  {
    exists i :: 0 <= i <= |s| && OccursAt(s, p, i)
  }

  predicate HasNoChar(s: string, c: char)
  {
    forall i :: 0 <= i < |s| ==> s[i] != c
  }

  function FindFrom(s: string, p: string, i: nat): (r: int)
    requires i <= |s|
    ensures r == -1 || (i <= r <= |s| && OccursAt(s, p, r))
    ensures r == -1 <==> forall j :: i <= j <= |s| ==> !OccursAt(s, p, j)
    ensures r != -1 ==> forall j :: i <= j < r ==> !OccursAt(s, p, j)
    decreases |s| - i
  {
    if OccursAt(s, p, i) then i
    else if i == |s| then -1
    else FindFrom(s, p, i + 1)
  }

  /** `s.find(p)`: the first index where p occurs, or -1. */
  function Find(s: string, p: string): (r: int)
    ensures r == -1 <==> !Contains(s, p)
    ensures r != -1 ==> 0 <= r <= |s| && OccursAt(s, p, r)
    ensures r != -1 ==> forall j :: 0 <= j < r ==> !OccursAt(s, p, j)
  {
    FindFrom(s, p, 0)
  }

  /** `s[k:]` for any integer k: a negative k counts from the end, an index past the end gives "". */
  function SliceFrom(s: string, k: int): (r: string)
    ensures |r| <= |s| && r == s[|s| - |r|..]
    ensures 0 <= k <= |s| ==> |r| == |s| - k
    ensures k < 0 && |s| >= -k ==> |r| == -k
    ensures k > |s| ==> r == []
    ensures k < -|s| ==> r == s
  {
    if k >= 0 then (if k <= |s| then s[k..] else [])
    else if |s| + k >= 0 then s[|s| + k..]
    else s
  }

  /** `s.replace(p, q)` for a non-empty p: left-to-right, non-overlapping occurrences. */
  function Replace(s: string, p: string, q: string): string
    requires |p| > 0
    decreases |s|
  {
    if |s| < |p| then s
    else if s[..|p|] == p then q + Replace(s[|p|..], p, q)
    else [s[0]] + Replace(s[1..], p, q)
  }

  /** u agrees with p on their common length, so a match of p could begin where u begins. */
  predicate PrefixCompatible(u: string, p: string)
  {
    if |u| <= |p| then u == p[..|u|] else u[..|p|] == p
  }

  /** No match of p can begin inside a, whatever text follows a. */
  predicate MatchFree(a: string, p: string)
  {
    forall i :: 0 <= i < |a| ==> !PrefixCompatible(a[i..], p)
  }

  lemma NoFirstCharMatchFree(a: string, p: string)
    requires |p| > 0 && HasNoChar(a, p[0])
    ensures MatchFree(a, p)
  {
    forall i | 0 <= i < |a| ensures !PrefixCompatible(a[i..], p) {
      assert a[i..][0] == a[i];
    }
  }

  /** Text in which p cannot begin passes through `replace` untouched. */
  lemma {:induction false} ReplaceAfterMatchFree(a: string, t: string, p: string, q: string)
    requires |p| > 0 && MatchFree(a, p)
    ensures Replace(a + t, p, q) == a + Replace(t, p, q)
    decreases |a|
  {
    if a != [] {
      var s := a + t;
      if |s| < |p| {
        ReplaceShort(t, p, q);
        ReplaceShort(s, p, q);
      } else {
        NoMatchAtFront(a, t, p);
        MatchFreeTail(a, p);
        assert s[1..] == a[1..] + t;
        ReplaceAfterMatchFree(a[1..], t, p, q);
        assert Replace(s, p, q) == [s[0]] + Replace(s[1..], p, q);
        assert a == [a[0]] + a[1..];
      }
    } else {
      assert a + t == t;
    }
  }

  /** Where p cannot begin at the front of a, a + t does not start with p. */
  lemma NoMatchAtFront(a: string, t: string, p: string)
    requires |p| > 0 && a != [] && MatchFree(a, p) && |a + t| >= |p|
    ensures (a + t)[..|p|] != p
  {
    var s := a + t;
    assert !PrefixCompatible(a[0..], p);
    assert a[0..] == a;
    if |a| <= |p| {
      assert s[..|a|] == a;
      assert s[..|p|][..|a|] == a;
    } else {
      assert s[..|p|] == a[..|p|];
    }
  }

  lemma MatchFreeTail(a: string, p: string)
    requires a != [] && MatchFree(a, p)
    ensures MatchFree(a[1..], p)
  {
    forall i | 0 <= i < |a[1..]| ensures !PrefixCompatible(a[1..][i..], p) {
      assert a[1..][i..] == a[i + 1..];
    }
  }

  lemma ReplaceShort(t: string, p: string, q: string)
    requires |p| > 0 && |t| < |p|
    ensures Replace(t, p, q) == t
  {
  }

  /** An occurrence of p at the front is replaced by q. */
  lemma ReplaceAtMatch(t: string, p: string, q: string)
    requires |p| > 0
    ensures Replace(p + t, p, q) == q + Replace(t, p, q)
  {
    assert (p + t)[..|p|] == p;
    assert (p + t)[|p|..] == t;
  }

  /** `replace` leaves text alone when the pattern cannot occur in it. */
  lemma ReplaceMatchFree(a: string, p: string, q: string)
    requires |p| > 0 && MatchFree(a, p)
    ensures Replace(a, p, q) == a
  {
    ReplaceAfterMatchFree(a, [], p, q);
    assert a + [] == a;
  }

  /** `s.split(c)` for one separator character: always at least one piece. */
  function SplitOn(s: string, c: char): (r: seq<string>)
    ensures |r| >= 1
    ensures forall k :: 0 <= k < |r| ==> HasNoChar(r[k], c)
    decreases |s|
  {
    if s == [] then [[]]
    else if s[0] == c then [[]] + SplitOn(s[1..], c)
    else
      var rest := SplitOn(s[1..], c);
      [[s[0]] + rest[0]] + rest[1..]
  }

  /** `sep.join(parts)`. */
  function JoinWith(parts: seq<string>, sep: string): string
  {
    if parts == [] then []
    else if |parts| == 1 then parts[0]
    else parts[0] + sep + JoinWith(parts[1..], sep)
  }

  lemma {:induction false} SplitOnNoSeparator(s: string, c: char)
    requires HasNoChar(s, c)
    ensures SplitOn(s, c) == [s]
    decreases |s|
  {
    if s != [] {
      SplitOnNoSeparator(s[1..], c);
      assert [s[0]] + s[1..] == s;
    }
  }

  lemma {:induction false} SplitOnPiece(a: string, c: char, t: string)
    requires HasNoChar(a, c)
    ensures SplitOn(a + [c] + t, c) == [a] + SplitOn(t, c)
    decreases |a|
  {
    if a == [] {
      assert a + [c] + t == [c] + t;
      assert ([c] + t)[1..] == t;
    } else {
      var s := a + [c] + t;
      assert s[1..] == a[1..] + [c] + t;
      SplitOnPiece(a[1..], c, t);
      assert [a[0]] + a[1..] == a;
    }
  }

  /** The characters `str.isspace()` accepts among the ASCII range. */
  predicate IsSpace(c: char)
  {
    ('\t' <= c <= '\r') || ('\U{001C}' <= c <= ' ')
  }

  predicate NoSpace(s: string)
  {
    forall i :: 0 <= i < |s| ==> !IsSpace(s[i])
  }

  /** The longest prefix of s free of white space. */
  function Word(s: string): (w: string)
    ensures |w| <= |s| && w == s[..|w|] && NoSpace(w)
    ensures |w| < |s| ==> IsSpace(s[|w|])
    decreases |s|
  {
    if s == [] || IsSpace(s[0]) then [] else [s[0]] + Word(s[1..])
  }

  /** `s.split()`: the maximal runs of non-white-space characters, in order. */
  function Tokens(s: string): (r: seq<string>)
    ensures forall k :: 0 <= k < |r| ==> |r[k]| > 0 && NoSpace(r[k])
    decreases |s|
  {
    if s == [] then []
    else if IsSpace(s[0]) then Tokens(s[1..])
    else
      var w := Word(s);
      [w] + Tokens(s[|w|..])
  }

  lemma {:induction false} WordOfToken(w: string, t: string)
    requires NoSpace(w) && (t == [] || IsSpace(t[0]))
    ensures Word(w + t) == w
    decreases |w|
  {
    if w == [] {
      assert w + t == t;
    } else {
      assert (w + t)[1..] == w[1..] + t;
      WordOfToken(w[1..], t);
      assert [w[0]] + w[1..] == w;
    }
  }

  lemma TokensAfterSpace(c: char, t: string)
    requires IsSpace(c)
    ensures Tokens([c] + t) == Tokens(t)
  {
    assert ([c] + t)[1..] == t;
  }

  lemma TokensOfWord(w: string, t: string)
    requires |w| > 0 && NoSpace(w) && (t == [] || IsSpace(t[0]))
    ensures Tokens(w + t) == [w] + Tokens(t)
  {
    WordOfToken(w, t);
    assert (w + t)[|w|..] == t;
  }

  /** Every character of s is white space. */
  predicate AllSpace(s: string)
  {
    forall i :: 0 <= i < |s| ==> IsSpace(s[i])
  }

  /** Leading white space adds no token. */
  lemma {:induction false} TokensAfterSpaces(s: string, t: string)
    requires AllSpace(s)
    ensures Tokens(s + t) == Tokens(t)
    decreases |s|
  {
    if s != [] {
      assert s + t == [s[0]] + (s[1..] + t);
      TokensAfterSpace(s[0], s[1..] + t);
      TokensAfterSpaces(s[1..], t);
    } else {
      assert s + t == t;
    }
  }

  /** A word with no white space around it is one token. */
  lemma TokensOfLoneWord(w: string)
    requires |w| > 0 && NoSpace(w)
    ensures Tokens(w) == [w]
  {
    TokensOfWord(w, []);
    assert w + [] == w;
  }

  /** A white-space character cuts the line in two, each half split on its own. */
  lemma {:induction false} TokensSplitAtSpace(a: string, c: char, b: string)
    requires IsSpace(c)
    ensures Tokens(a + [c] + b) == Tokens(a) + Tokens(b)
    decreases |a|
  {
    if a == [] {
      assert a + [c] + b == [c] + b;
      TokensAfterSpace(c, b);
    } else if IsSpace(a[0]) {
      assert a + [c] + b == [a[0]] + (a[1..] + [c] + b);
      TokensAfterSpace(a[0], a[1..] + [c] + b);
      assert a == [a[0]] + a[1..];
      TokensAfterSpace(a[0], a[1..]);
      TokensSplitAtSpace(a[1..], c, b);
    } else {
      var w := Word(a);
      var t := a[|w|..];
      assert a == w + t;
      assert a + [c] + b == w + (t + [c] + b);
      TokensOfWord(w, t + [c] + b);
      TokensSplitAtSpace(t, c, b);
    }
  }

  /**
   * A line of words with white space between them: gaps[0] + words[0] +
   * gaps[1] + ... + words[n-1] + gaps[n].
   */
  function Spaced(words: seq<string>, gaps: seq<string>): string
    requires |gaps| == |words| + 1
    decreases |words|
  {
    if words == [] then gaps[0]
    else gaps[0] + words[0] + Spaced(words[1..], gaps[1..])
  }

  /** Gaps of white space, those between two words non-empty. */
  predicate SpaceGaps(gaps: seq<string>)
  {
    && (forall k :: 0 <= k < |gaps| ==> AllSpace(gaps[k]))
    && (forall k :: 0 < k < |gaps| - 1 ==> |gaps[k]| > 0)
  }

  /**
   * `s.split()` recovers the words of a line whatever white space separates
   * them, however much precedes the first and follows the last.
   */
  lemma {:induction false} TokensSpaced(words: seq<string>, gaps: seq<string>)
    requires |gaps| == |words| + 1 && SpaceGaps(gaps)
    requires forall k :: 0 <= k < |words| ==> |words[k]| > 0 && NoSpace(words[k])
    ensures Tokens(Spaced(words, gaps)) == words
    decreases |words|
  {
    if words == [] {
      TokensAfterSpaces(gaps[0], []);
      assert gaps[0] + [] == gaps[0];
    } else {
      var rest := Spaced(words[1..], gaps[1..]);
      assert SpaceGaps(gaps[1..]);
      TokensSpaced(words[1..], gaps[1..]);
      assert rest == [] || IsSpace(rest[0]) by {
        if |words| > 1 {
          assert rest == gaps[1] + (words[1] + Spaced(words[2..], gaps[2..]));
          assert rest[0] == gaps[1][0];
        } else {
          assert rest == gaps[1];
        }
      }
      assert Spaced(words, gaps) == gaps[0] + (words[0] + rest);
      TokensAfterSpaces(gaps[0], words[0] + rest);
      TokensOfWord(words[0], rest);
      assert [words[0]] + words[1..] == words;
    }
  }
}
