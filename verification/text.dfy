/** The text primitives of Go's `strings` package that the poll bot relies on:
    `HasPrefix`, `Split` with a one-character separator, `TrimSpace` and
    `Fields`. Text is a sequence of Unicode scalar values. */
module Text {

  /** `unicode.IsSpace`: the Latin-1 white-space characters plus the other
      characters carrying the Unicode White_Space property. */
  predicate IsSpace(c: char)
  {
    || c == ' ' || c == '\t' || c == '\n' || c == '\U{000B}' || c == '\U{000C}' || c == '\r'
    || c == '\U{0085}' || c == '\U{00A0}' || c == '\U{1680}'
    || ('\U{2000}' <= c <= '\U{200A}')
    || c == '\U{2028}' || c == '\U{2029}' || c == '\U{202F}' || c == '\U{205F}' || c == '\U{3000}'
  }

  predicate AllSpace(s: string)
  {
    forall i :: 0 <= i < |s| ==> IsSpace(s[i])
  }

  predicate NoSpace(s: string)
  {
    forall i :: 0 <= i < |s| ==> !IsSpace(s[i])
  }

  /** `strings.HasPrefix`. */
  predicate HasPrefix(s: string, prefix: string)
  {
    |prefix| <= |s| && s[..|prefix|] == prefix
  }

  /** A text lacks a prefix once one position disagrees with it. */
  lemma NotPrefix(s: string, prefix: string, i: nat)
    requires i < |prefix| && (i >= |s| || s[i] != prefix[i])
    ensures !HasPrefix(s, prefix)
  {
    if |prefix| <= |s| {
      assert s[..|prefix|][i] == s[i];
    }
  }

  /** Number of occurrences of `c` in `s`. */
  function Occurrences(s: string, c: char): nat
  {
    if |s| == 0 then 0 else (if s[0] == c then 1 else 0) + Occurrences(s[1..], c)
  }

  lemma {:induction false} OccurrencesPositive(s: string, c: char)
    ensures Occurrences(s, c) > 0 <==> c in s
  {
    if |s| > 0 {
      OccurrencesPositive(s[1..], c);
      assert s == [s[0]] + s[1..];
    }
  }

  // ---------------------------------------------------------------- Split

  /** The pieces glued back together with `sep` between neighbours. */
  function Join(parts: seq<string>, sep: char): string
    requires |parts| >= 1
  {
    if |parts| == 1 then parts[0] else parts[0] + [sep] + Join(parts[1..], sep)
  }

  /** `strings.Split(s, string(sep))`: the maximal `sep`-free pieces of `s`,
      one more than there are separators; the empty text gives one empty piece. */
  function Split(s: string, sep: char): (parts: seq<string>)
    ensures |parts| == Occurrences(s, sep) + 1
    ensures forall i :: 0 <= i < |parts| ==> sep !in parts[i]
    ensures Join(parts, sep) == s
  {
    if |s| == 0 then [""]
    else if s[0] == sep then
      var rest := Split(s[1..], sep);
      assert ([""] + rest)[1..] == rest;
      assert s == [sep] + s[1..];
      [""] + rest
    else
      var rest := Split(s[1..], sep);
      var first := [s[0]] + rest[0];
      assert sep !in first;
      assert ([first] + rest[1..])[1..] == rest[1..];
      assert s == [s[0]] + s[1..];
      [first] + rest[1..]
  }

  /** The first piece is exactly the text before the first separator. */
  lemma SplitFirst(s: string, sep: char)
    requires sep in s
    ensures var first := Split(s, sep)[0];
      |first| < |s| && s[..|first|] == first && s[|first|] == sep && sep !in first
  {
    var parts := Split(s, sep);
    OccurrencesPositive(s, sep);
    assert s == parts[0] + [sep] + Join(parts[1..], sep);
  }

  lemma {:induction false} SplitNoSeparator(w: string, sep: char)
    requires sep !in w
    ensures Split(w, sep) == [w]
  {
    if |w| > 0 {
      SplitNoSeparator(w[1..], sep);
      assert [w[0]] + w[1..] == w;
    }
  }

  lemma {:induction false} SplitPiece(w: string, t: string, sep: char)
    requires sep !in w
    ensures Split(w + [sep] + t, sep) == [w] + Split(t, sep)
  {
    if |w| == 0 {
      assert w + [sep] + t == [sep] + t;
      assert ([sep] + t)[1..] == t;
    } else {
      SplitPiece(w[1..], t, sep);
      assert (w + [sep] + t)[1..] == w[1..] + [sep] + t;
      assert [w[0]] + w[1..] == w;
    }
  }

  /** Splitting undoes joining separator-free pieces, so the decomposition of
      a text into pieces is unique. */
  lemma {:induction false} SplitJoin(parts: seq<string>, sep: char)
    requires |parts| >= 1
    requires forall i :: 0 <= i < |parts| ==> sep !in parts[i]
    ensures Split(Join(parts, sep), sep) == parts
  {
    if |parts| == 1 {
      SplitNoSeparator(parts[0], sep);
    } else {
      SplitJoin(parts[1..], sep);
      SplitPiece(parts[0], Join(parts[1..], sep), sep);
      assert [parts[0]] + parts[1..] == parts;
    }
  }

  // ------------------------------------------------------------- TrimSpace

  /** Length of the longest prefix of `s` whose characters are white space
      (`space`) or not white space (`!space`). */
  function RunLength(s: string, space: bool): (n: nat)
    ensures n <= |s|
    ensures forall i :: 0 <= i < n ==> IsSpace(s[i]) == space
    ensures n < |s| ==> IsSpace(s[n]) != space
  {
    if |s| == 0 || IsSpace(s[0]) != space then 0 else 1 + RunLength(s[1..], space)
  }

  /** Length of the longest all-white-space suffix of `s`. */
  function TrailingSpace(s: string): (n: nat)
    ensures n <= |s|
    ensures forall i :: |s| - n <= i < |s| ==> IsSpace(s[i])
    ensures n < |s| ==> !IsSpace(s[|s| - n - 1])
  {
    if |s| == 0 || !IsSpace(s[|s| - 1]) then 0 else 1 + TrailingSpace(s[..|s| - 1])
  }

  /** `strings.TrimSpace`: `s` without its leading and trailing white space.
      The result sits inside `s` between two all-white-space margins and
      neither starts nor ends with white space. */
  function TrimSpace(s: string): (r: string)
    ensures |r| <= |s|
    ensures r == [] || (!IsSpace(r[0]) && !IsSpace(r[|r| - 1]))
    ensures exists lo :: 0 <= lo <= |s| - |r| && s[lo..lo + |r|] == r && AllSpace(s[..lo]) && AllSpace(s[lo + |r|..])
  {
    var lo := RunLength(s, true);
    var hi := |s| - TrailingSpace(s[lo..]);
    var r := s[lo..hi];
    assert AllSpace(s[..lo]);
    assert AllSpace(s[hi..]) by {
      forall i | 0 <= i < |s| - hi ensures IsSpace(s[hi..][i]) {
        assert s[hi..][i] == s[lo..][hi - lo + i];
      }
    }
    assert s[lo..lo + |r|] == r;
    r
  }

  /** The converse of TrimSpace's contract: surrounding a trimmed text with
      white space of any length gives it back. */
  lemma TrimSpacePadded(a: string, w: string, b: string)
    requires AllSpace(a) && AllSpace(b)
    requires w == [] || (!IsSpace(w[0]) && !IsSpace(w[|w| - 1]))
    ensures TrimSpace(a + w + b) == w
  {
    var s := a + w + b;
    var lo := RunLength(s, true);
    if w == [] {
      assert s == a + b;
      assert AllSpace(s);
      assert lo == |s|;
    } else {
      assert s[|a|] == w[0];
      assert lo == |a|;
      var t := s[lo..];
      assert t == w + b;
      var n := TrailingSpace(t);
      assert t[|w| - 1] == w[|w| - 1];
      assert n == |b|;
      assert s[lo..|s| - n] == w;
    }
  }

  lemma TrimSpaceIdempotent(s: string)
    ensures TrimSpace(TrimSpace(s)) == TrimSpace(s)
  {
    TrimSpacePadded([], TrimSpace(s), []);
    assert [] + TrimSpace(s) + [] == TrimSpace(s);
  }

  // ---------------------------------------------------------------- Fields

  /** Concatenation of a sequence of texts. */
  function Concat(fs: seq<string>): string
  {
    if |fs| == 0 then [] else fs[0] + Concat(fs[1..])
  }

  /** `s` with every white-space character deleted. */
  function RemoveSpaces(s: string): string
  {
    if |s| == 0 then [] else (if IsSpace(s[0]) then [] else [s[0]]) + RemoveSpaces(s[1..])
  }

  lemma {:induction false} RemoveSpacesWord(s: string, n: nat)
    requires n <= |s| && NoSpace(s[..n])
    ensures RemoveSpaces(s) == s[..n] + RemoveSpaces(s[n..])
  {
    if n > 0 {
      assert !IsSpace(s[..n][0]);
      RemoveSpacesWord(s[1..], n - 1);
      assert s[1..][..n - 1] == s[1..n];
      assert s[1..][n - 1..] == s[n..];
      assert s[..n] == [s[0]] + s[1..n];
    }
  }

  /** `strings.Fields`: the maximal runs of non-white-space characters of `s`,
      in order. Every field is non-empty and white-space free, and together
      they hold exactly the non-white-space characters of `s`. */
  function Fields(s: string): (fs: seq<string>)
    ensures forall i :: 0 <= i < |fs| ==> |fs[i]| > 0 && NoSpace(fs[i])
    ensures Concat(fs) == RemoveSpaces(s)
    decreases |s|
  {
    if |s| == 0 then []
    else if IsSpace(s[0]) then Fields(s[1..])
    else
      var n := RunLength(s, false);
      var rest := Fields(s[n..]);
      RemoveSpacesWord(s, n);
      assert ([s[..n]] + rest)[1..] == rest;
      [s[..n]] + rest
  }

  lemma FieldsWord(w: string, t: string)
    requires |w| > 0 && NoSpace(w)
    requires t == [] || IsSpace(t[0])
    ensures Fields(w + t) == [w] + Fields(t)
  {
    var s := w + t;
    assert s[0] == w[0];
    var n := RunLength(s, false);
    assert forall i :: 0 <= i < |w| ==> s[i] == w[i];
    assert |t| > 0 ==> s[|w|] == t[0];
    assert n <= |w|;
    assert n == |w|;
    assert s[..n] == w && s[n..] == t;
  }

  /** Fields undoes joining non-empty white-space-free words with single
      spaces. */
  lemma {:induction false} FieldsJoin(ws: seq<string>)
    requires |ws| >= 1
    requires forall i :: 0 <= i < |ws| ==> |ws[i]| > 0 && NoSpace(ws[i])
    ensures Fields(Join(ws, ' ')) == ws
  {
    if |ws| == 1 {
      FieldsWord(ws[0], []);
      assert ws[0] + [] == ws[0];
    } else {
      var t := Join(ws[1..], ' ');
      FieldsJoin(ws[1..]);
      FieldsWord(ws[0], [' '] + t);
      assert ws[0] + [' '] + t == ws[0] + ([' '] + t);
      assert ([' '] + t)[1..] == t;
      assert [ws[0]] + ws[1..] == ws;
    }
  }

  /** Words with the given gaps between them: `ws[0] + gaps[0] + ws[1] + …`. */
  function Interleave(ws: seq<string>, gaps: seq<string>): string
    requires |ws| >= 1 && |gaps| == |ws| - 1
    decreases |ws|
  {
    if |ws| == 1 then ws[0] else ws[0] + gaps[0] + Interleave(ws[1..], gaps[1..])
  }

  /** Leading white space contributes no field. */
  lemma {:induction false} FieldsSpacePrefix(a: string, t: string)
    requires AllSpace(a)
    ensures Fields(a + t) == Fields(t)
    decreases |a|
  {
    if |a| == 0 {
      assert a + t == t;
    } else {
      assert (a + t)[0] == a[0];
      assert (a + t)[1..] == a[1..] + t;
      FieldsSpacePrefix(a[1..], t);
    }
  }

  /** Fields are maximal: whatever white space surrounds the words and
      however long the (non-empty) white-space gaps between them, the
      fields are exactly the words. */
  lemma {:induction false} FieldsPadded(a: string, ws: seq<string>, gaps: seq<string>, b: string)
    requires AllSpace(a) && AllSpace(b)
    requires |ws| >= 1 && |gaps| == |ws| - 1
    requires forall i :: 0 <= i < |ws| ==> |ws[i]| > 0 && NoSpace(ws[i])
    requires forall i :: 0 <= i < |gaps| ==> |gaps[i]| > 0 && AllSpace(gaps[i])
    ensures Fields(a + Interleave(ws, gaps) + b) == ws
    decreases |ws|
  {
    if |ws| == 1 {
      assert a + Interleave(ws, gaps) + b == a + (ws[0] + b);
      FieldsSpacePrefix(a, ws[0] + b);
      FieldsWord(ws[0], b);
      FieldsSpacePrefix(b, []);
      assert b + [] == b;
    } else {
      var rest := Interleave(ws[1..], gaps[1..]);
      var tail := gaps[0] + rest + b;
      assert a + Interleave(ws, gaps) + b == a + (ws[0] + tail);
      FieldsSpacePrefix(a, ws[0] + tail);
      assert tail[0] == gaps[0][0];
      FieldsWord(ws[0], tail);
      FieldsPadded(gaps[0], ws[1..], gaps[1..], b);
      assert [ws[0]] + ws[1..] == ws;
    }
  }
}
