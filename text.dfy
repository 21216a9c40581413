/** String helpers the ingestion pipeline applies through Python and pandas:
    reading a text file line by line, splitting a row on runs of blanks,
    case folding, substring search and `str.replace`. */
module TextUtil {

  // ---------------------------------------------------------------------
  // Lines of a text file

  /** Length of the first line of `text`, its '\n' included. */
  function LineLength(text: string): (n: nat)
    requires text != []
    ensures 0 < n <= |text|
    ensures forall i :: 0 <= i < n - 1 ==> text[i] != '\n'
    ensures n < |text| ==> text[n - 1] == '\n'
    decreases |text|
  {
    if text[0] == '\n' || |text| == 1 then 1 else 1 + LineLength(text[1..])
  }

  /** Iteration over a file opened in text mode: every line keeps its '\n',
      the last one may lack it. */
  function SplitLines(text: string): (lines: seq<string>)
    ensures |lines| <= |text|
    ensures lines == [] <==> text == []
    decreases |text|
  {
    if text == [] then []
    else
      var n := LineLength(text);
      [text[..n]] + SplitLines(text[n..])
  }

  /** `"".join(lines)`: nothing is lost, so only empty lines join to the
      empty text, and non-empty lines give at least one character each. */
  function JoinLines(lines: seq<string>): (text: string)
    ensures text == [] ==> forall i :: 0 <= i < |lines| ==> lines[i] == []
    ensures (forall i :: 0 <= i < |lines| ==> lines[i] != []) ==> |lines| <= |text|
  {
    if lines == [] then [] else lines[0] + JoinLines(lines[1..])
  }

  /** A single line as a text file yields it: not empty, '\n' only at its
      end, and that '\n' present unless it is the file's last line. */
  predicate IsLine(line: string, last: bool)
  {
    && line != []
    && (forall j :: 0 <= j < |line| - 1 ==> line[j] != '\n')
    && (!last ==> line[|line| - 1] == '\n')
  }

  /** The lines of some text, as SplitLines produces them. */
  predicate WellFormedLines(lines: seq<string>)
  {
    forall i :: 0 <= i < |lines| ==> IsLine(lines[i], i == |lines| - 1)
  }

  lemma WellFormedCons(line: string, rest: seq<string>)
    ensures WellFormedLines([line] + rest) <==> IsLine(line, rest == []) && WellFormedLines(rest)
  {
    var all := [line] + rest;
    if IsLine(line, rest == []) && WellFormedLines(rest) {
      forall i | 0 <= i < |all| ensures IsLine(all[i], i == |all| - 1) {
        if i > 0 { assert all[i] == rest[i - 1]; }
      }
    }
    if WellFormedLines(all) {
      assert IsLine(all[0], 0 == |all| - 1);
      forall i | 0 <= i < |rest| ensures IsLine(rest[i], i == |rest| - 1) {
        assert all[i + 1] == rest[i];
      }
    }
  }

  /** The first line of a text is a line, the last one when nothing follows. */
  lemma FirstLineIsLine(text: string)
    requires text != []
    ensures IsLine(text[..LineLength(text)], LineLength(text) == |text|)
  {
    var n := LineLength(text);
    var line := text[..n];
    assert forall j :: 0 <= j < |line| - 1 ==> line[j] == text[j];
    assert line[|line| - 1] == text[n - 1];
  }

  /** Every line read from a file is a line, and only the last may lack its '\n'. */
  lemma {:induction false} SplitLinesWellFormed(text: string)
    ensures WellFormedLines(SplitLines(text))
    decreases |text|
  {
    if text != [] {
      var n := LineLength(text);
      var rest := SplitLines(text[n..]);
      assert SplitLines(text) == [text[..n]] + rest;
      SplitLinesWellFormed(text[n..]);
      FirstLineIsLine(text);
      WellFormedCons(text[..n], rest);
    }
  }

  /** Joining the lines read from a file gives back its text. */
  lemma {:induction false} SplitLinesJoinBack(text: string)
    ensures JoinLines(SplitLines(text)) == text
    decreases |text|
  {
    if text != [] {
      var n := LineLength(text);
      var rest := SplitLines(text[n..]);
      assert SplitLines(text) == [text[..n]] + rest;
      SplitLinesJoinBack(text[n..]);
      var lines := [text[..n]] + rest;
      assert lines[0] == text[..n] && lines[1..] == rest;
      assert JoinLines(lines) == text[..n] + text[n..];
      assert text[..n] + text[n..] == text;
    }
  }

  /** Splitting text into lines loses nothing and yields well-formed lines. */
  lemma SplitLinesJoin(text: string)
    ensures WellFormedLines(SplitLines(text))
    ensures JoinLines(SplitLines(text)) == text
  {
    SplitLinesWellFormed(text);
    SplitLinesJoinBack(text);
  }

  lemma {:induction false} LineLengthOfLine(line: string, rest: string)
    requires IsLine(line, rest == [])
    ensures LineLength(line + rest) == |line|
    decreases |line|
  {
    var t := line + rest;
    if t[0] == '\n' || |t| == 1 {
      assert |line| == 1;
    } else if |line| > 1 {
      assert t[1..] == line[1..] + rest;
      LineLengthOfLine(line[1..], rest);
    }
  }

  /** Joining well-formed lines and reading them back gives the same lines:
      the round trip through the in-memory file is the identity. */
  lemma {:induction false} JoinLinesSplit(lines: seq<string>)
    requires WellFormedLines(lines)
    ensures SplitLines(JoinLines(lines)) == lines
  {
    if lines != [] {
      WellFormedCons(lines[0], lines[1..]);
      assert [lines[0]] + lines[1..] == lines;
      var t := JoinLines(lines);
      JoinLinesSplit(lines[1..]);
      if lines[1..] != [] {
        assert |lines[1]| > 0;
        assert JoinLines(lines[1..]) != [];
      }
      LineLengthOfLine(lines[0], JoinLines(lines[1..]));
      assert t[..|lines[0]|] == lines[0];
      assert t[|lines[0]|..] == JoinLines(lines[1..]);
    }
  }

  /** The text of a line without its terminating '\n'. */
  function LineContent(line: string): string
  {
    if line != [] && line[|line| - 1] == '\n' then line[..|line| - 1] else line
  }

  // ---------------------------------------------------------------------
  // Splitting a row on runs of blanks

  /** The separators of pandas' whitespace tokenizer. */
  predicate IsBlank(c: char)
  {
    c == ' ' || c == '\t'
  }

  /** A token: a non-empty run of non-blank characters. */
  predicate IsWord(w: string)
  {
    w != [] && forall i :: 0 <= i < |w| ==> !IsBlank(w[i])
  }

  /** Length of the leading run of non-blank characters. */
  function WordLength(s: string): (n: nat)
    ensures n <= |s|
    ensures forall i :: 0 <= i < n ==> !IsBlank(s[i])
    ensures n < |s| ==> IsBlank(s[n])
    decreases |s|
  {
    if s == [] || IsBlank(s[0]) then 0 else 1 + WordLength(s[1..])
  }

  /** The fields of one row under `sep=r"\s+"`: leading and trailing blanks
      are ignored and each run of blanks separates two fields. Every field
      is a non-empty run of non-blank characters, so there are no more
      fields than characters. */
  function Tokens(s: string): (ts: seq<string>)
    ensures |ts| <= |s|
    ensures forall i :: 0 <= i < |ts| ==> IsWord(ts[i])
    decreases |s|
  {
    if s == [] then []
    else if IsBlank(s[0]) then Tokens(s[1..])
    else
      var n := WordLength(s);
      assert IsWord(s[..n]);
      [s[..n]] + Tokens(s[n..])
  }

  /** `n` spaces. */
  function Blanks(n: nat): (b: string)
    ensures |b| == n
  {
    seq(n, _ => ' ')
  }

  /** Words laid out on a row, word i followed by `gaps[i]` spaces. */
  function Layout(ws: seq<string>, gaps: seq<nat>): string
    requires |gaps| == |ws|
  {
    if ws == [] then [] else ws[0] + Blanks(gaps[0]) + Layout(ws[1..], gaps[1..])
  }

  /** Laying words out adds nothing but spaces: every character of the row
      is a space or a character of some word. */
  lemma {:induction false} LayoutChars(ws: seq<string>, gaps: seq<nat>, allowed: set<char>)
    requires |gaps| == |ws|
    requires ' ' in allowed
    requires forall i, j :: 0 <= i < |ws| && 0 <= j < |ws[i]| ==> ws[i][j] in allowed
    ensures forall k :: 0 <= k < |Layout(ws, gaps)| ==> Layout(ws, gaps)[k] in allowed
  {
    if ws != [] {
      forall i, j | 0 <= i < |ws[1..]| && 0 <= j < |ws[1..][i]|
        ensures ws[1..][i][j] in allowed
      {
        assert ws[1..][i] == ws[i + 1];
      }
      LayoutChars(ws[1..], gaps[1..], allowed);
      var w := ws[0];
      var b := Blanks(gaps[0]);
      var r := Layout(ws[1..], gaps[1..]);
      var l := Layout(ws, gaps);
      assert l == w + b + r;
      forall k | 0 <= k < |l|
        ensures l[k] in allowed
      {
        if k < |w| {
          assert l[k] == ws[0][k];
        } else if k < |w| + |b| {
          assert l[k] == b[k - |w|];
        } else {
          assert l[k] == r[k - |w| - |b|];
        }
      }
    }
  }

  lemma {:induction false} WordLengthAppend(a: string, b: string)
    requires a != []
    requires b == [] || IsBlank(a[|a| - 1]) || IsBlank(b[0])
    ensures WordLength(a + b) == WordLength(a)
    decreases |a|
  {
    if !IsBlank(a[0]) {
      assert (a + b)[1..] == a[1..] + b;
      if a[1..] == [] {
        assert a[|a| - 1] == a[0];
        assert a[1..] + b == b;
      } else {
        assert a[1..][|a[1..]| - 1] == a[|a| - 1];
        WordLengthAppend(a[1..], b);
      }
    }
  }

  /** A blank at the seam keeps the tokens of the two halves apart. */
  lemma {:induction false} TokensAppend(a: string, b: string)
    requires a == [] || b == [] || IsBlank(a[|a| - 1]) || IsBlank(b[0])
    ensures Tokens(a + b) == Tokens(a) + Tokens(b)
    decreases |a|, 1
  {
    if a == [] {
      assert a + b == b;
    } else if IsBlank(a[0]) {
      TokensAppendAfterBlank(a, b);
    } else {
      TokensAppendAfterWord(a, b);
    }
  }

  lemma {:induction false} TokensAppendAfterBlank(a: string, b: string)
    requires a != [] && IsBlank(a[0])
    requires b == [] || IsBlank(a[|a| - 1]) || IsBlank(b[0])
    ensures Tokens(a + b) == Tokens(a) + Tokens(b)
    decreases |a|, 0
  {
    var a' := a[1..];
    assert (a + b)[0] == a[0];
    assert (a + b)[1..] == a' + b;
    if a' != [] {
      assert a'[|a'| - 1] == a[|a| - 1];
    }
    TokensAppend(a', b);
  }

  lemma {:induction false} TokensAppendAfterWord(a: string, b: string)
    requires a != [] && !IsBlank(a[0])
    requires b == [] || IsBlank(a[|a| - 1]) || IsBlank(b[0])
    ensures Tokens(a + b) == Tokens(a) + Tokens(b)
    decreases |a|, 0
  {
    var n := WordLength(a);
    var a' := a[n..];
    WordLengthAppend(a, b);
    SplitAfterWord(a, b, n);
    assert n > 0;
    if a' != [] {
      assert a'[|a'| - 1] == a[|a| - 1];
    }
    assert a' == [] || b == [] || IsBlank(a'[|a'| - 1]) || IsBlank(b[0]);
    TokensAppend(a', b);
    assert [a[..n]] + (Tokens(a') + Tokens(b)) == ([a[..n]] + Tokens(a')) + Tokens(b);
  }

  /** The first word of `a + b` is that of `a`, and what follows it is the
      rest of `a` followed by `b`. */
  lemma SplitAfterWord(a: string, b: string, n: nat)
    requires a != [] && !IsBlank(a[0]) && n == WordLength(a) == WordLength(a + b)
    ensures Tokens(a + b) == [a[..n]] + Tokens(a[n..] + b)
    ensures Tokens(a) == [a[..n]] + Tokens(a[n..])
  {
    var ab := a + b;
    assert ab[0] == a[0];
    assert ab[..n] == a[..n];
    assert ab[n..] == a[n..] + b;
  }

  lemma {:induction false} TokensOfBlanks(n: nat)
    ensures Tokens(Blanks(n)) == []
    decreases n
  {
    if n > 0 {
      assert Blanks(n)[1..] == Blanks(n - 1);
      TokensOfBlanks(n - 1);
    }
  }

  lemma TokensOfWord(w: string)
    requires IsWord(w)
    ensures Tokens(w) == [w]
  {
    assert WordLength(w) == |w|;
    assert w[..|w|] == w;
    assert w[|w|..] == [];
  }

  /** Splitting a laid-out row recovers exactly its words: the tokenizer is
      the inverse of Layout whenever the words are separated by blanks. */
  lemma {:induction false} TokensOfLayout(ws: seq<string>, gaps: seq<nat>)
    requires |gaps| == |ws|
    requires forall i :: 0 <= i < |ws| ==> IsWord(ws[i])
    requires forall i :: 0 <= i < |gaps| - 1 ==> gaps[i] > 0
    ensures Tokens(Layout(ws, gaps)) == ws
  {
    if ws != [] {
      var rest := Layout(ws[1..], gaps[1..]);
      TokensOfLayout(ws[1..], gaps[1..]);
      TokensOfBlanks(gaps[0]);
      TokensOfWord(ws[0]);
      if gaps[0] == 0 {
        assert |ws| == 1;
        assert rest == [];
        TokensAppend(ws[0], Blanks(0));
        assert Blanks(gaps[0]) + rest == Blanks(0);
      } else {
        TokensAppend(Blanks(gaps[0]), rest);
        TokensAppend(ws[0], Blanks(gaps[0]) + rest);
      }
      assert ws[0] + Blanks(gaps[0]) + rest == ws[0] + (Blanks(gaps[0]) + rest);
      assert [ws[0]] + ws[1..] == ws;
    }
  }

  // ---------------------------------------------------------------------
  // Case folding and substring search

  /** Lower-cases the letters A to Z and leaves every other character. */
  function FoldChar(c: char): char
  {
    if 'A' <= c <= 'Z' then (c as int + 32) as char else c
  }

  /** `s.casefold()`, restricted to ASCII letters: every capital becomes its
      small letter, no capital is left, and every other character is kept
      in its place. */
  function CaseFold(s: string): (f: string)
    ensures |f| == |s|
    ensures forall i :: 0 <= i < |s| && 'A' <= s[i] <= 'Z' ==> f[i] == (s[i] as int + 32) as char
    ensures forall i :: 0 <= i < |f| ==> !('A' <= f[i] <= 'Z')
    ensures forall i :: 0 <= i < |s| && !('A' <= s[i] <= 'Z') ==> f[i] == s[i]
  {
    seq(|s|, i requires 0 <= i < |s| => FoldChar(s[i]))
  }

  /** Folding works character by character, so folding a slice is slicing
      the folded text. */
  lemma FoldSlice(s: string, i: nat, j: nat)
    requires i <= j <= |s|
    ensures CaseFold(s[i..j]) == CaseFold(s)[i..j]
  {
    assert forall k :: 0 <= k < j - i ==> s[i..j][k] == s[i + k];
  }

  /** `pat` occurs in `s` at index `i`. */
  ghost predicate OccursAt(s: string, pat: string, i: int)
  {
    0 <= i && i + |pat| <= |s| && s[i..i + |pat|] == pat
  }

  /** `pat in s`: the empty pattern is in every text, and no pattern is in
      a shorter text. */
  predicate Contains(s: string, pat: string)
    ensures pat == [] ==> Contains(s, pat)
    ensures Contains(s, pat) ==> |pat| <= |s|
    decreases |s|
  {
    |pat| <= |s| && (s[..|pat|] == pat || (s != [] && Contains(s[1..], pat)))
  }

  /** The scanning definition of Contains finds a match exactly when one
      exists at some index. */
  lemma {:induction false} ContainsOccurs(s: string, pat: string)
    ensures Contains(s, pat) <==> exists i :: OccursAt(s, pat, i)
    decreases |s|
  {
    if |pat| <= |s| && s != [] {
      ContainsOccurs(s[1..], pat);
      if Contains(s, pat) {
        if s[..|pat|] == pat {
          assert OccursAt(s, pat, 0);
        } else {
          var i :| OccursAt(s[1..], pat, i);
          assert 0 <= i && i + |pat| <= |s| - 1;
          assert s[1..][i..i + |pat|] == s[i + 1..i + 1 + |pat|];
          assert s[i + 1..i + 1 + |pat|] == pat;
          assert OccursAt(s, pat, i + 1);
        }
      } else {
        forall i ensures !OccursAt(s, pat, i) {
          if 0 < i && i + |pat| <= |s| {
            assert s[1..][i - 1..i - 1 + |pat|] == s[i..i + |pat|];
            assert !OccursAt(s[1..], pat, i - 1);
          }
        }
      }
    } else if |pat| <= |s| {
      assert s[..|pat|] == pat;
      assert OccursAt(s, pat, 0);
    }
  }

  /** Text in which the first character of `pat` never appears does not
      contain `pat`. */
  lemma MissingFirstChar(s: string, pat: string)
    requires pat != []
    requires forall k :: 0 <= k < |s| ==> s[k] != pat[0]
    ensures !Contains(s, pat)
  {
    ContainsOccurs(s, pat);
    forall i | 0 <= i && i + |pat| <= |s|
      ensures !OccursAt(s, pat, i)
    {
      assert s[i..i + |pat|][0] == s[i];
    }
  }

  /** Folding the case of a text keeps every occurrence of a pattern that
      has no capital in it. */
  lemma FoldKeepsLowercase(s: string, pat: string)
    requires forall k :: 0 <= k < |pat| ==> !('A' <= pat[k] <= 'Z')
    ensures Contains(s, pat) ==> Contains(CaseFold(s), pat)
  {
    if Contains(s, pat) {
      ContainsOccurs(s, pat);
      var i :| OccursAt(s, pat, i);
      var f := CaseFold(s);
      forall k | 0 <= k < |pat|
        ensures f[i + k] == pat[k]
      {
        assert s[i + k] == s[i..i + |pat|][k] == pat[k];
      }
      assert f[i..i + |pat|] == pat;
      assert OccursAt(f, pat, i);
      ContainsOccurs(f, pat);
    }
  }

  /** `s.endswith(suffix)`: the text is some prefix followed by `suffix`. */
  predicate EndsWith(s: string, suffix: string)
    ensures EndsWith(s, suffix) <==> exists p :: s == p + suffix
  {
    if |suffix| <= |s| && s[|s| - |suffix|..] == suffix then
      assert s == s[..|s| - |suffix|] + suffix;
      true
    else
      assert forall p :: s != p + suffix by {
        forall p
          ensures s != p + suffix
        {
          if |p| + |suffix| == |s| {
            assert (p + suffix)[|s| - |suffix|..] == suffix;
          }
        }
      }
      false
  }

  // ---------------------------------------------------------------------
  // str.replace

  /** `s.replace(pat, rep)`: every non-overlapping occurrence of `pat`, found
      scanning from the left, is replaced by `rep`. Text without an
      occurrence is left alone, and removing occurrences never lengthens the
      text. */
  function ReplaceAll(s: string, pat: string, rep: string): (r: string)
    requires pat != []
    ensures !Contains(s, pat) ==> r == s
    ensures rep == [] ==> |r| <= |s|
    decreases |s|
  {
    if |s| < |pat| then s
    else if s[..|pat|] == pat then rep + ReplaceAll(s[|pat|..], pat, rep)
    else
      assert [s[0]] + s[1..] == s;
      [s[0]] + ReplaceAll(s[1..], pat, rep)
  }

  /** No proper prefix of `pat` is also a suffix of it, so two occurrences
      of `pat` can never overlap. */
  predicate Unbordered(pat: string)
  {
    forall k :: 0 < k < |pat| ==> pat[..k] != pat[|pat| - k..]
  }

  /** When `stem` holds no occurrence of an unbordered `pat`, the first
      occurrence in `stem + pat + rest` is the one right after `stem`. */
  lemma {:induction false} ReplaceAllFirstOccurrence(stem: string, pat: string, rep: string, rest: string)
    requires pat != [] && Unbordered(pat)
    requires !Contains(stem, pat)
    ensures ReplaceAll(stem + pat + rest, pat, rep) == stem + rep + ReplaceAll(rest, pat, rep)
    decreases |stem|
  {
    var s := stem + pat + rest;
    if stem == [] {
      assert s == pat + rest;
      assert s[..|pat|] == pat;
      assert s[|pat|..] == rest;
    } else {
      NoMatchBeforeStemEnds(stem, pat, rest);
      assert s[1..] == stem[1..] + pat + rest;
      ReplaceAllFirstOccurrence(stem[1..], pat, rep, rest);
      assert ReplaceAll(s, pat, rep) == [s[0]] + ReplaceAll(s[1..], pat, rep);
      assert [s[0]] + (stem[1..] + rep + ReplaceAll(rest, pat, rep)) == stem + rep + ReplaceAll(rest, pat, rep);
    }
  }

  /** Scanning `stem + pat + rest` from inside a non-empty `stem` that does
      not contain an unbordered `pat` finds no match at the first position. */
  lemma NoMatchBeforeStemEnds(stem: string, pat: string, rest: string)
    requires pat != [] && Unbordered(pat)
    requires stem != [] && !Contains(stem, pat)
    ensures (stem + pat + rest)[..|pat|] != pat
    ensures !Contains(stem[1..], pat)
  {
    var s := stem + pat + rest;
    if |stem| >= |pat| {
      assert s[..|pat|] == stem[..|pat|];
    } else {
      var k := |pat| - |stem|;
      assert s[..|pat|] == stem + pat[..k];
      assert (stem + pat[..k])[|stem|..] == pat[..k];
      assert pat[|pat| - k..] != pat[..k];
    }
  }
}
