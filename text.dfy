/**
 * The three string operations of Go's `strings` package that the
 * recommendation filter relies on: `ToLower`, `Fields` and `Contains`.
 * Strings are sequences of Unicode scalar values (Go's strings of valid UTF-8).
 */
module Text {

  // ---------------------------------------------------------------------------
  // Lower-casing
  // ---------------------------------------------------------------------------

  predicate IsUpper(c: char) {
    'A' <= c <= 'Z'
  }

  /** ASCII lower-casing of one character; every other character is kept. */
  function LowerChar(c: char): (r: char)
    ensures !IsUpper(r)
    ensures !IsUpper(c) ==> r == c
    ensures IsUpper(c) ==> 'a' <= r <= 'z' && r as int - c as int == 'a' as int - 'A' as int
  {
    if IsUpper(c) then (c as int - 'A' as int + 'a' as int) as char else c
  }

  /** `strings.ToLower`, restricted to the ASCII letters. */
  function ToLower(s: string): (r: string)
    ensures |r| == |s|
    ensures forall i :: 0 <= i < |s| ==>
      && !IsUpper(r[i])
      && (!IsUpper(s[i]) ==> r[i] == s[i])
      && (IsUpper(s[i]) ==> r[i] as int - s[i] as int == 'a' as int - 'A' as int)
  {
    seq(|s|, i requires 0 <= i < |s| => LowerChar(s[i]))
  }

  /** Lower-casing twice is lower-casing once. */
  lemma ToLowerIdempotent(s: string)
    ensures ToLower(ToLower(s)) == ToLower(s)
  {
  }

  // ---------------------------------------------------------------------------
  // Splitting into words
  // ---------------------------------------------------------------------------

  /** Go's `unicode.IsSpace`: the Unicode White_Space characters. */
  predicate IsSpace(c: char) {
    || ('\t' <= c <= '\r')                  // tab, line feed, vertical tab, form feed, carriage return
    || c == ' '
    || c == '\U{0085}' || c == '\U{00A0}'   // next line, no-break space
    || c == '\U{1680}'
    || ('\U{2000}' <= c <= '\U{200A}')
    || c == '\U{2028}' || c == '\U{2029}'
    || c == '\U{202F}' || c == '\U{205F}' || c == '\U{3000}'
  }

  predicate AllSpace(s: string) {
    forall i :: 0 <= i < |s| ==> IsSpace(s[i])
  }

  /** A word as `strings.Fields` yields it: non-empty and free of white space. */
  predicate IsWord(w: string) {
    |w| > 0 && forall i :: 0 <= i < |w| ==> !IsSpace(w[i])
  }

  /** The length of the run of non-space characters at the head of `s`. */
  function WordLength(s: string): (n: nat)
    ensures n <= |s|
    ensures forall i :: 0 <= i < n ==> !IsSpace(s[i])
    ensures n < |s| ==> IsSpace(s[n])
  {
    if s == [] || IsSpace(s[0]) then 0 else 1 + WordLength(s[1..])
  }

  /**
   * `strings.Fields`: the maximal runs of non-space characters of `s`,
   * in order; white space only separates them.
   */
  function Fields(s: string): (words: seq<string>)
    ensures forall k :: 0 <= k < |words| ==> IsWord(words[k])
    decreases |s|
  {
    if s == [] then []
    else if IsSpace(s[0]) then Fields(s[1..])
    else
      var n := WordLength(s);
      [s[..n]] + Fields(s[n..])
  }

  /** A string has no words exactly when it is all white space (or empty). */
  lemma {:induction false} FieldsEmptyIffAllSpace(s: string)
    ensures Fields(s) == [] <==> AllSpace(s)
    decreases |s|
  {
    if s != [] {
      if IsSpace(s[0]) {
        FieldsEmptyIffAllSpace(s[1..]);
        assert AllSpace(s) <==> AllSpace(s[1..]) by {
          forall i | 0 <= i < |s[1..]| ensures s[1..][i] == s[i + 1] { }
        }
      } else {
        assert !AllSpace(s);
      }
    }
  }

  /** Every character of every word is a character of the string it came from. */
  lemma {:induction false} FieldsCharsFrom(s: string)
    ensures forall k, i :: 0 <= k < |Fields(s)| && 0 <= i < |Fields(s)[k]| ==> Fields(s)[k][i] in s
    decreases |s|
  {
    if s != [] {
      if IsSpace(s[0]) {
        FieldsCharsFrom(s[1..]);
      } else {
        var n := WordLength(s);
        FieldsCharsFrom(s[n..]);
        assert Fields(s) == [s[..n]] + Fields(s[n..]);
        forall k, i | 0 <= k < |Fields(s)| && 0 <= i < |Fields(s)[k]|
          ensures Fields(s)[k][i] in s
        {
          if k == 0 {
            assert Fields(s)[k][i] == s[i];
          } else {
            assert Fields(s)[k] == Fields(s[n..])[k - 1];
            assert Fields(s)[k][i] in s[n..];
          }
        }
      }
    }
  }

  /** The words joined with single spaces, as `strings.Join(words, " ")` would. */
  function JoinWords(words: seq<string>): (s: string)
    ensures |words| == 0 ==> s == []
  {
    if words == [] then []
    else if |words| == 1 then words[0]
    else words[0] + " " + JoinWords(words[1..])
  }

  /** Leading white space does not change the words. */
  lemma {:induction false} FieldsSkipsSpace(pad: string, s: string)
    requires AllSpace(pad)
    ensures Fields(pad + s) == Fields(s)
    decreases |pad|
  {
    if pad != [] {
      var t := pad + s;
      assert t[0] == pad[0] && IsSpace(t[0]);
      assert t[1..] == pad[1..] + s;
      assert Fields(t) == Fields(t[1..]);
      FieldsSkipsSpace(pad[1..], s);
    } else {
      assert pad + s == s;
    }
  }

  /** A word followed by white space or by nothing: the word comes off first. */
  lemma FieldsOfWordThen(w: string, rest: string)
    requires IsWord(w)
    requires rest == [] || IsSpace(rest[0])
    ensures Fields(w + rest) == [w] + Fields(rest)
  {
    var s := w + rest;
    WordLengthOfWordThen(w, rest);
    assert s[0] == w[0];
    assert s[..|w|] == w;
    assert s[|w|..] == rest;
  }

  lemma {:induction false} WordLengthOfWordThen(w: string, rest: string)
    requires |w| == 0 || IsWord(w)
    requires rest == [] || IsSpace(rest[0])
    ensures WordLength(w + rest) == |w|
    decreases |w|
  {
    if w != [] {
      assert (w + rest)[1..] == w[1..] + rest;
      WordLengthOfWordThen(w[1..], rest);
    }
  }

  /** A word, one space, then the rest: the word comes off and the space is dropped. */
  lemma FieldsOfWordSpaceThen(w: string, rest: string)
    requires IsWord(w)
    ensures Fields(w + " " + rest) == [w] + Fields(rest)
  {
    FieldsOfWordThen(w, " " + rest);
    assert w + " " + rest == w + (" " + rest);
    FieldsSkipsSpace(" ", rest);
  }

  /** Splitting undoes joining: `Fields(Join(ws, " ")) == ws` for genuine words. */
  lemma {:induction false} FieldsJoinWords(words: seq<string>)
    requires forall k :: 0 <= k < |words| ==> IsWord(words[k])
    ensures Fields(JoinWords(words)) == words
    decreases |words|
  {
    if |words| == 1 {
      FieldsOfWordThen(words[0], []);
      assert words[0] + [] == words[0];
    } else if |words| > 1 {
      var tail := words[1..];
      assert forall k :: 0 <= k < |tail| ==> tail[k] == words[k + 1];
      FieldsJoinWords(tail);
      FieldsOfWordSpaceThen(words[0], JoinWords(tail));
      assert [words[0]] + tail == words;
    }
  }

  /**
   * A layout of white space for `words`: one gap before each word and one
   * after the last, all white space, the gaps between two words non-empty.
   */
  ghost predicate IsLayout(words: seq<string>, gaps: seq<string>) {
    && |gaps| == |words| + 1
    && (forall i :: 0 <= i < |gaps| ==> AllSpace(gaps[i]))
    && (forall i :: 0 < i < |words| ==> |gaps[i]| > 0)
  }

  /** The words laid out with the given gaps: `gaps[0] + words[0] + gaps[1] + ... + gaps[n]`. */
  function Spaced(words: seq<string>, gaps: seq<string>): string
    requires |gaps| == |words| + 1
    decreases |words|
  {
    if words == [] then gaps[0] else gaps[0] + words[0] + Spaced(words[1..], gaps[1..])
  }

  /** Whatever white space surrounds and separates the words, splitting gives the words back. */
  lemma {:induction false} FieldsOfSpaced(words: seq<string>, gaps: seq<string>)
    requires forall k :: 0 <= k < |words| ==> IsWord(words[k])
    requires IsLayout(words, gaps)
    ensures Fields(Spaced(words, gaps)) == words
    decreases |words|
  {
    if words == [] {
      FieldsEmptyIffAllSpace(gaps[0]);
    } else {
      var tailGaps := gaps[1..];
      assert IsLayout(words[1..], tailGaps) by {
        forall i | 0 <= i < |tailGaps| ensures AllSpace(tailGaps[i]) {
          assert tailGaps[i] == gaps[i + 1];
        }
        forall i | 0 < i < |words[1..]| ensures |tailGaps[i]| > 0 {
          assert tailGaps[i] == gaps[i + 1];
        }
      }
      var rest := Spaced(words[1..], tailGaps);
      FieldsOfSpaced(words[1..], tailGaps);
      assert rest == [] || IsSpace(rest[0]) by {
        if |words| > 1 {
          assert rest == gaps[1] + words[1] + Spaced(words[2..], tailGaps[1..]);
          assert rest[0] == gaps[1][0];
        } else {
          assert rest == gaps[1];
        }
      }
      FieldsOfWordThen(words[0], rest);
      assert gaps[0] + words[0] + rest == gaps[0] + (words[0] + rest);
      FieldsSkipsSpace(gaps[0], words[0] + rest);
    }
  }

  /** The white space of `s` around and between its words, in the shape `IsLayout` describes. */
  function Gaps(s: string): (gaps: seq<string>)
    ensures |gaps| == |Fields(s)| + 1
    ensures s != [] && IsSpace(s[0]) ==> |gaps[0]| > 0
    decreases |s|
  {
    if s == [] then [[]]
    else if IsSpace(s[0]) then
      var g := Gaps(s[1..]);
      [[s[0]] + g[0]] + g[1..]
    else [[]] + Gaps(s[WordLength(s)..])
  }

  /** The gaps of `s` have the shape `IsLayout` describes for the words of `s`. */
  lemma {:induction false} GapsAreLayout(s: string)
    ensures IsLayout(Fields(s), Gaps(s))
    decreases |s|
  {
    if s != [] && IsSpace(s[0]) {
      var t := s[1..];
      GapsAreLayout(t);
      var ws, g, G := Fields(t), Gaps(t), Gaps(s);
      assert Fields(s) == ws;
      assert G == [[s[0]] + g[0]] + g[1..];
      forall i | 0 <= i < |G| ensures AllSpace(G[i]) {
        if i > 0 {
          assert G[i] == g[i];
        } else {
          assert AllSpace(g[0]);
          assert G[0] == [s[0]] + g[0];
        }
      }
      forall i | 0 < i < |ws| ensures |G[i]| > 0 {
        assert G[i] == g[i];
      }
    } else if s != [] {
      var n := WordLength(s);
      var t := s[n..];
      GapsAreLayout(t);
      var ws, g, G := Fields(t), Gaps(t), Gaps(s);
      assert Fields(s) == [s[..n]] + ws;
      assert G == [[]] + g;
      forall i | 0 <= i < |G| ensures AllSpace(G[i]) {
        if i > 0 {
          assert G[i] == g[i - 1];
        }
      }
      forall i | 0 < i < |Fields(s)| ensures |G[i]| > 0 {
        assert G[i] == g[i - 1];
        assert t != [] && IsSpace(t[0]);
      }
    }
  }

  /** Widening the first gap by one character prefixes the layout with that character. */
  lemma SpacedWidenFirstGap(words: seq<string>, gaps: seq<string>, c: char)
    requires |gaps| == |words| + 1
    ensures var wider := [[c] + gaps[0]] + gaps[1..];
      |wider| == |words| + 1 && Spaced(words, wider) == [c] + Spaced(words, gaps)
  {
    var wider := [[c] + gaps[0]] + gaps[1..];
    assert wider[0] == [c] + gaps[0] && wider[1..] == gaps[1..];
    if words != [] {
      assert Spaced(words, wider) == ([c] + gaps[0]) + words[0] + Spaced(words[1..], gaps[1..]);
    }
  }

  /** A word at the very start of the layout, with an empty gap before it. */
  lemma SpacedLeadingWord(w: string, words: seq<string>, gaps: seq<string>)
    requires |gaps| == |words| + 1
    ensures Spaced([w] + words, [[]] + gaps) == w + Spaced(words, gaps)
  {
    var ws, gs := [w] + words, [[]] + gaps;
    assert ws[0] == w && ws[1..] == words;
    assert gs[0] == [] && gs[1..] == gaps;
  }

  /**
   * No character is lost: every string is its words laid out with its gaps.
   * With `GapsAreLayout` and `FieldsOfSpaced`, this determines `Fields` on
   * every string.
   */
  lemma {:induction false} SpacedGapsRebuilds(s: string)
    ensures Spaced(Fields(s), Gaps(s)) == s
    decreases |s|
  {
    if s != [] && IsSpace(s[0]) {
      var t := s[1..];
      SpacedGapsRebuilds(t);
      SpacedWidenFirstGap(Fields(t), Gaps(t), s[0]);
      assert [s[0]] + t == s;
    } else if s != [] {
      var n := WordLength(s);
      var t := s[n..];
      SpacedGapsRebuilds(t);
      SpacedLeadingWord(s[..n], Fields(t), Gaps(t));
      assert s[..n] + t == s;
    }
  }

  // ---------------------------------------------------------------------------
  // Substring search
  // ---------------------------------------------------------------------------

  /** `sub` appears in `s` starting at position `i`. */
  ghost predicate OccursAt(sub: string, s: string, i: int) {
    0 <= i && i + |sub| <= |s| && s[i..i + |sub|] == sub
  }

  ghost predicate IsSubstring(sub: string, s: string) {
    exists i :: OccursAt(sub, s, i)
  }

  /** `strings.Contains(s, sub)`: whether `sub` occurs anywhere in `s`. */
  function Contains(s: string, sub: string): (r: bool)
    ensures r <==> IsSubstring(sub, s)
    decreases |s|
  {
    if |sub| > |s| then
      assert forall i :: !OccursAt(sub, s, i);
      false
    else if s[..|sub|] == sub then
      assert OccursAt(sub, s, 0);
      true
    else
      var r := Contains(s[1..], sub);
      OccursShift(sub, s);
      r
  }

  /** Occurrences in `s[1..]` are the occurrences in `s` after position 0. */
  lemma OccursShift(sub: string, s: string)
    requires |s| > 0 && !OccursAt(sub, s, 0)
    ensures IsSubstring(sub, s[1..]) <==> IsSubstring(sub, s)
  {
    if IsSubstring(sub, s[1..]) {
      var i :| OccursAt(sub, s[1..], i);
      assert s[1..][i..i + |sub|] == s[i + 1..i + 1 + |sub|];
      assert OccursAt(sub, s, i + 1);
    }
    if IsSubstring(sub, s) {
      var i :| OccursAt(sub, s, i);
      assert i != 0;
      assert s[1..][i - 1..i - 1 + |sub|] == s[i..i + |sub|];
      assert OccursAt(sub, s[1..], i - 1);
    }
  }
}
