/** The line sanitiser: lines announcing that a site closed are removed from
    a station file before anything is parsed
    (`_preprocess_metoffice_file`, and the explicit loops of the early
    scripts). */
module Sanitizer {
  import opened TextUtil

  const ClosureMarker := "site closed"

  /** `"site closed" in line.casefold()`: the marker in any mix of cases,
      so always when the line holds it in lower case, and never in a line
      shorter than the marker. */
  predicate IsClosureNotice(line: string)
    ensures Contains(line, ClosureMarker) ==> IsClosureNotice(line)
    ensures IsClosureNotice(line) ==> |line| >= |ClosureMarker|
  {
    FoldKeepsLowercase(line, ClosureMarker);
    Contains(CaseFold(line), ClosureMarker)
  }

  /** Any case variant of the marker makes a line a notice: a stretch of
      the line that folds to "site closed", such as "Site Closed" or
      "SITE CLOSED", wherever it stands. */
  lemma CaseVariantIsNotice(line: string, i: nat)
    requires i + |ClosureMarker| <= |line|
    requires CaseFold(line[i..i + |ClosureMarker|]) == ClosureMarker
    ensures IsClosureNotice(line)
  {
    var f := CaseFold(line);
    FoldSlice(line, i, i + |ClosureMarker|);
    assert OccursAt(f, ClosureMarker, i);
    ContainsOccurs(f, ClosureMarker);
  }

  /** A line holding a spelling of the marker between any two texts is a notice. */
  lemma VariantInLineIsNotice(before: string, variant: string, after: string)
    requires |variant| == |ClosureMarker| && CaseFold(variant) == ClosureMarker
    ensures IsClosureNotice(before + variant + after)
  {
    var line := before + variant + after;
    assert line[|before|..|before| + |variant|] == variant;
    CaseVariantIsNotice(line, |before|);
  }

  /** The spellings of the marker found in station files are all notices. */
  lemma CapitalisedNotices(before: string, after: string)
    ensures IsClosureNotice(before + "Site Closed" + after)
    ensures IsClosureNotice(before + "Site closed" + after)
    ensures IsClosureNotice(before + "SITE CLOSED" + after)
  {
    FoldsToMarker("Site Closed");
    VariantInLineIsNotice(before, "Site Closed", after);
    FoldsToMarker("Site closed");
    VariantInLineIsNotice(before, "Site closed", after);
    FoldsToMarker("SITE CLOSED");
    VariantInLineIsNotice(before, "SITE CLOSED", after);
  }

  /** A text that matches the marker character by character, up to capitals,
      folds to it. */
  lemma FoldsToMarker(variant: string)
    requires |variant| == |ClosureMarker|
    requires forall k :: 0 <= k < |variant| ==> variant[k] == ClosureMarker[k] || ('A' <= variant[k] <= 'Z' && variant[k] as int + 32 == ClosureMarker[k] as int)
    ensures CaseFold(variant) == ClosureMarker
  {
    var f := CaseFold(variant);
    forall k | 0 <= k < |variant| ensures f[k] == ClosureMarker[k] {
      if 'A' <= variant[k] <= 'Z' {
        assert f[k] == (variant[k] as int + 32) as char;
      }
    }
  }

  /** The list comprehension of `_preprocess_metoffice_file`: the lines, in
      order, whose case-folded text does not mention a closed site. */
  function SanitizeLines(lines: seq<string>): (clean: seq<string>)
    ensures |clean| <= |lines|
    ensures forall i :: 0 <= i < |clean| ==> clean[i] in lines && !IsClosureNotice(clean[i])
    ensures forall i :: 0 <= i < |lines| && !IsClosureNotice(lines[i]) ==> lines[i] in clean
  {
    if lines == [] then []
    else (if IsClosureNotice(lines[0]) then [] else [lines[0]]) + SanitizeLines(lines[1..])
  }

  /** Filtering distributes over concatenation: kept lines stay in their
      original relative order. */
  lemma {:induction false} SanitizeConcat(a: seq<string>, b: seq<string>)
    ensures SanitizeLines(a + b) == SanitizeLines(a) + SanitizeLines(b)
  {
    if a == [] {
      assert a + b == b;
    } else {
      assert (a + b)[1..] == a[1..] + b;
      SanitizeConcat(a[1..], b);
    }
  }

  /** A file with no closure notice passes through unchanged. */
  lemma {:induction false} SanitizeNoNotice(lines: seq<string>)
    requires forall i :: 0 <= i < |lines| ==> !IsClosureNotice(lines[i])
    ensures SanitizeLines(lines) == lines
  {
    if lines != [] {
      SanitizeNoNotice(lines[1..]);
      assert [lines[0]] + lines[1..] == lines;
    }
  }

  /** A file made only of closure notices becomes empty. */
  lemma {:induction false} SanitizeAllNotices(lines: seq<string>)
    requires forall i :: 0 <= i < |lines| ==> IsClosureNotice(lines[i])
    ensures SanitizeLines(lines) == []
  {
    if lines != [] {
      SanitizeAllNotices(lines[1..]);
    }
  }

  /** Sanitising twice removes nothing more. */
  lemma SanitizeIdempotent(lines: seq<string>)
    ensures SanitizeLines(SanitizeLines(lines)) == SanitizeLines(lines)
  {
    SanitizeNoNotice(SanitizeLines(lines));
  }

  /** A closure notice anywhere in the file has no effect on what is kept. */
  lemma SanitizeDropsNotice(before: seq<string>, notice: string, after: seq<string>)
    requires IsClosureNotice(notice)
    ensures SanitizeLines(before + [notice] + after) == SanitizeLines(before + after)
  {
    SanitizeConcat(before + [notice], after);
    SanitizeConcat(before, [notice]);
    SanitizeConcat(before, after);
  }

  /** Dropping whole lines keeps the lines well formed, so the text that is
      joined back together splits into exactly the kept lines. */
  lemma {:induction false} SanitizeWellFormed(lines: seq<string>)
    requires WellFormedLines(lines)
    ensures WellFormedLines(SanitizeLines(lines))
  {
    if lines != [] {
      WellFormedCons(lines[0], lines[1..]);
      assert [lines[0]] + lines[1..] == lines;
      SanitizeWellFormed(lines[1..]);
      if !IsClosureNotice(lines[0]) {
        WellFormedCons(lines[0], SanitizeLines(lines[1..]));
      }
    }
  }

  /** A line without the letter s, in either case, announces no closure. */
  lemma NoticeNeedsLetterS(line: string)
    requires forall k :: 0 <= k < |line| ==> line[k] != 's' && line[k] != 'S'
    ensures !IsClosureNotice(line)
  {
    var folded := CaseFold(line);
    assert forall k :: 0 <= k < |folded| ==> folded[k] == FoldChar(line[k]) != ClosureMarker[0];
    MissingFirstChar(folded, ClosureMarker);
  }

  /** `_preprocess_metoffice_file`: the text of the file without its
      closure notices. Reading the result line by line yields exactly the
      kept lines, terminators included. */
  function PreprocessMetOfficeFile(text: string): (clean: string)
    ensures SplitLines(clean) == SanitizeLines(SplitLines(text))
  {
    SplitLinesJoin(text);
    SanitizeWellFormed(SplitLines(text));
    JoinLinesSplit(SanitizeLines(SplitLines(text)));
    JoinLines(SanitizeLines(SplitLines(text)))
  }

  /** The sanitising loop of `ProcessFile` in the early scripts
      (`clean += [lines]`, `cleaned_lines.append(line)`). */
  method CleanLines(lines: seq<string>) returns (clean: seq<string>)
    ensures clean == SanitizeLines(lines)
  {
    clean := [];
    for i := 0 to |lines|
      invariant clean == SanitizeLines(lines[..i])
    {
      if !IsClosureNotice(lines[i]) {
        clean := clean + [lines[i]];
      }
      SanitizeConcat(lines[..i], [lines[i]]);
      assert lines[..i + 1] == lines[..i] + [lines[i]];
    }
    assert lines[..|lines|] == lines;
  }
}
