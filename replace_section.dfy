/** `replaceSection(content, heading, newSection)`: a line-based splice. The
    document is split on newlines, the first line equal to `heading` once
    both are trimmed is located, the section runs from that line up to (not
    including) the next line matching `/^##+\s/` or to the end of the
    document, and the lines of `newSection` take the place of that range. */
module SectionSplice {
  import opened Text
  import opened Outcomes

  /** The one way the routine fails: the heading line is not in the document. */
  datatype SpliceError = SectionNotLocated {
    function Message(): string {
      "Failed to locate section to replace."
    }
  }

  /** Number of '#' characters at the start of a line. */
  function LeadingHashes(line: string): (n: nat)
    ensures n <= |line|
    ensures forall j :: 0 <= j < n ==> line[j] == '#'
    ensures n == |line| || line[n] != '#'
  {
    if line != [] && line[0] == '#' then 1 + LeadingHashes(line[1..]) else 0
  }

  /** The regular expression `/^##+\s/` read literally: at least two '#' from
      the start of the line, then one whitespace character. */
  ghost predicate MatchesHeadingPattern(line: string) {
    exists k :: 2 <= k < |line| && IsWhitespace(line[k]) && forall j :: 0 <= j < k ==> line[j] == '#'
  }

  /** A line that ends a section: its run of leading '#' is at least two long
      and is followed by a whitespace character. */
  predicate IsSectionBoundary(line: string)
    ensures IsSectionBoundary(line) ==> 3 <= |line| && line[0] == '#' && line[1] == '#'
  {
    var n := LeadingHashes(line);
    2 <= n < |line| && IsWhitespace(line[n])
  }

  /** The boundary test is exactly the regular expression: since '#' is not
      whitespace, backtracking over the `#+` run can never find another match. */
  lemma BoundaryIsHeadingPattern(line: string)
    ensures IsSectionBoundary(line) <==> MatchesHeadingPattern(line)
  {
    var n := LeadingHashes(line);
    if MatchesHeadingPattern(line) {
      var k :| 2 <= k < |line| && IsWhitespace(line[k]) && forall j :: 0 <= j < k ==> line[j] == '#';
      assert line[k] != '#';
      assert n == k;
    }
    if IsSectionBoundary(line) {
      assert 2 <= n < |line| && IsWhitespace(line[n]) && forall j :: 0 <= j < n ==> line[j] == '#';
    }
  }

  /** Lines that never end a section: a single '#' followed by anything but
      '#' (`# Title`, `#x`), a line that does not start with '#' at all, and a
      '#' run followed by anything but whitespace, such as `##x`. */
  lemma NonBoundaryLines(t: string, c: char)
    ensures c != '#' ==> !IsSectionBoundary("#" + [c] + t)
    ensures c != '#' ==> !IsSectionBoundary([c] + t)
    ensures c != '#' && !IsWhitespace(c) ==> !IsSectionBoundary("##" + [c] + t)
  {
    if c != '#' {
      var l := "##" + [c] + t;
      assert l[1..] == "#" + [c] + t && l[1..][1..] == [c] + t;
      assert LeadingHashes([c] + t) == 0;
      assert LeadingHashes(l[1..]) == 1;
    }
  }

  /** Whether `line` is the heading line sought: equal to `heading` once both are trimmed. */
  predicate IsHeadingLine(line: string, heading: string)
    ensures line == heading ==> IsHeadingLine(line, heading)
    ensures Trim(line) == line && Trim(heading) == heading ==> (IsHeadingLine(line, heading) <==> line == heading)
  {
    Trim(line) == Trim(heading)
  }

  /** `lines.findIndex(...)` started at position `i`: the first index at or
      after `i` holding the heading line, or -1 when there is none. */
  function FindHeadingFrom(lines: seq<string>, heading: string, i: nat): (r: int)
    requires i <= |lines|
    ensures r == -1 || i <= r < |lines|
    ensures r != -1 ==> IsHeadingLine(lines[r], heading)
    ensures forall j :: i <= j < (if r == -1 then |lines| else r) ==> !IsHeadingLine(lines[j], heading)
    decreases |lines| - i
  {
    if i == |lines| then -1
    else if IsHeadingLine(lines[i], heading) then i
    else FindHeadingFrom(lines, heading, i + 1)
  }

  /** The index of the heading line, or -1 (`findIndex` over the whole array). */
  function HeadingIndex(lines: seq<string>, heading: string): (r: int)
    ensures r == -1 || 0 <= r < |lines|
    ensures r != -1 ==> IsHeadingLine(lines[r], heading)
    ensures forall j :: 0 <= j < (if r == -1 then |lines| else r) ==> !IsHeadingLine(lines[j], heading)
  {
    FindHeadingFrom(lines, heading, 0)
  }

  /** The first index at or after `i` holding a boundary line, or the number of lines. */
  function SectionEndFrom(lines: seq<string>, i: nat): (r: nat)
    requires i <= |lines|
    ensures i <= r <= |lines|
    ensures r == |lines| || IsSectionBoundary(lines[r])
    ensures forall j :: i <= j < r ==> !IsSectionBoundary(lines[j])
    decreases |lines| - i
  {
    if i == |lines| then |lines|
    else if IsSectionBoundary(lines[i]) then i
    else SectionEndFrom(lines, i + 1)
  }

  /** Where the section that starts at line `start` ends: the search begins
      on the line after the heading, so the heading line itself is always
      inside the range, whatever it looks like. */
  function SectionEnd(lines: seq<string>, start: nat): (r: nat)
    requires start < |lines|
    ensures start < r <= |lines|
  {
    SectionEndFrom(lines, start + 1)
  }

  /** What `replaceSection` returns, as a function of its arguments. */
  function SectionReplaced(content: string, heading: string, newSection: string): (r: Result<string, SpliceError>)
    ensures r.Failure? <==> forall j :: 0 <= j < |Split(content)| ==> !IsHeadingLine(Split(content)[j], heading)
    ensures r.Failure? ==> r.error == SectionNotLocated
  {
    var lines := Split(content);
    var start := HeadingIndex(lines, heading);
    if start == -1 then Failure(SectionNotLocated)
    else
      assert 0 <= start < |Split(content)| && IsHeadingLine(Split(content)[start], heading);
      var end := SectionEnd(lines, start);
      Success(Join(lines[..start] + Split(newSection) + lines[end..]))
  }

  /** The linear search behind `lines.findIndex(line => line.trim() === heading.trim())`. */
  method FindHeadingIndex(lines: seq<string>, heading: string) returns (startIndex: int)
    ensures startIndex == -1 || 0 <= startIndex < |lines|
    ensures startIndex != -1 ==> IsHeadingLine(lines[startIndex], heading)
    ensures forall j :: 0 <= j < (if startIndex == -1 then |lines| else startIndex) ==> !IsHeadingLine(lines[j], heading)
    ensures startIndex == HeadingIndex(lines, heading)
  {
    var key := Trim(heading);
    var i := 0;
    while i < |lines|
      invariant 0 <= i <= |lines|
      invariant forall j :: 0 <= j < i ==> !IsHeadingLine(lines[j], heading)
      invariant FindHeadingFrom(lines, heading, i) == HeadingIndex(lines, heading)
    {
      if Trim(lines[i]) == key {
        return i;
      }
      i := i + 1;
    }
    return -1;
  }

  /** The routine itself: locate the heading line, scan forward for the end
      of its section, and splice the replacement's lines in. */
  method ReplaceSection(content: string, heading: string, newSection: string) returns (r: Result<string, SpliceError>)
    ensures r.Failure? <==> forall j :: 0 <= j < |Split(content)| ==> !IsHeadingLine(Split(content)[j], heading)
    ensures r == SectionReplaced(content, heading, newSection)
  {
    var lines := Split(content);
    var startIndex := FindHeadingIndex(lines, heading);
    if startIndex == -1 {
      return Failure(SectionNotLocated);
    }

    var endIndex := |lines|;
    var i := startIndex + 1;
    while i < |lines|
      invariant startIndex + 1 <= i <= |lines|
      invariant endIndex == |lines|
      invariant SectionEndFrom(lines, i) == SectionEnd(lines, startIndex)
    {
      if IsSectionBoundary(lines[i]) {
        endIndex := i;
        break;
      }
      i := i + 1;
    }

    assert 0 <= startIndex < |Split(content)| && IsHeadingLine(Split(content)[startIndex], heading);
    var updatedLines := lines[..startIndex] + Split(newSection) + lines[endIndex..];
    return Success(Join(updatedLines));
  }

  /** The output, split again, is exactly the spliced line sequence: the lines
      before the heading, the replacement's lines, the lines from the boundary on. */
  lemma ReplacedLines(content: string, heading: string, newSection: string)
    requires HeadingIndex(Split(content), heading) != -1
    ensures var lines := Split(content);
      var start := HeadingIndex(lines, heading);
      var r := SectionReplaced(content, heading, newSection);
      r.Success? && Split(r.value) == lines[..start] + Split(newSection) + lines[SectionEnd(lines, start)..]
  {
    var lines := Split(content);
    var start := HeadingIndex(lines, heading);
    var end := SectionEnd(lines, start);
    var spliced := lines[..start] + Split(newSection) + lines[end..];
    assert NewlineFree(spliced) by {
      SplitNewlineFree(content);
      SplitNewlineFree(newSection);
      NewlineFreeSlice(lines, 0, start);
      NewlineFreeSlice(lines, end, |lines|);
      assert lines[0..start] == lines[..start] && lines[end..|lines|] == lines[end..];
      NewlineFreeConcat(lines[..start], Split(newSection));
      NewlineFreeConcat(lines[..start] + Split(newSection), lines[end..]);
    }
    SplicedAt(content, heading, newSection);
    SplitJoin(spliced);
  }

  /** Every line before the heading line is kept at its position. */
  lemma PrefixPreserved(content: string, heading: string, newSection: string, j: nat)
    requires j < HeadingIndex(Split(content), heading)
    ensures SectionReplaced(content, heading, newSection).Success?
    ensures j < |Split(SectionReplaced(content, heading, newSection).value)|
    ensures Split(SectionReplaced(content, heading, newSection).value)[j] == Split(content)[j]
  {
    ReplacedLines(content, heading, newSection);
  }

  /** Every line from the boundary on is kept, in order, right after the replacement's lines. */
  lemma SuffixPreserved(content: string, heading: string, newSection: string, j: nat)
    requires HeadingIndex(Split(content), heading) != -1
    requires SectionEnd(Split(content), HeadingIndex(Split(content), heading)) <= j < |Split(content)|
    ensures var lines := Split(content);
      var start := HeadingIndex(lines, heading);
      var out := Split(SectionReplaced(content, heading, newSection).value);
      var k := start + |Split(newSection)| + (j - SectionEnd(lines, start));
      SectionReplaced(content, heading, newSection).Success? && k < |out| && out[k] == lines[j]
  {
    ReplacedLines(content, heading, newSection);
  }

  /** The output has the kept lines plus the replacement's lines, and nothing
      of the replaced range [start, end), which always holds the heading line. */
  lemma LineCount(content: string, heading: string, newSection: string)
    requires HeadingIndex(Split(content), heading) != -1
    ensures var lines := Split(content);
      var start := HeadingIndex(lines, heading);
      var end := SectionEnd(lines, start);
      var r := SectionReplaced(content, heading, newSection);
      start < end <= |lines|
      && r.Success? && |Split(r.value)| == start + |Split(newSection)| + (|lines| - end)
  {
    ReplacedLines(content, heading, newSection);
  }

  /** Putting the section's own text back in its place gives the document unchanged. */
  lemma RoundTrip(content: string, heading: string)
    requires HeadingIndex(Split(content), heading) != -1
    ensures var lines := Split(content);
      var start := HeadingIndex(lines, heading);
      var section := Join(lines[start..SectionEnd(lines, start)]);
      SectionReplaced(content, heading, section) == Success(content)
  {
    var lines := Split(content);
    var start := HeadingIndex(lines, heading);
    var end := SectionEnd(lines, start);
    var middle := lines[start..end];
    assert Split(Join(middle)) == middle by {
      SplitNewlineFree(content);
      NewlineFreeSlice(lines, start, end);
      SplitJoin(middle);
    }
    Recombine(lines, start, end);
    assert Join(lines) == content by {
      JoinSplit(content);
    }
    SplicedAt(content, heading, Join(middle));
  }

  /** Cutting a sequence in three and gluing the pieces back gives the sequence. */
  lemma Recombine<T>(s: seq<T>, i: nat, j: nat)
    requires i <= j <= |s|
    ensures s[..i] + s[i..j] + s[j..] == s
  {
  }

  /** The success value, spelled out for one call (a helper for the proofs above). */
  lemma SplicedAt(content: string, heading: string, newSection: string)
    requires HeadingIndex(Split(content), heading) != -1
    ensures var lines := Split(content);
      var start := HeadingIndex(lines, heading);
      SectionReplaced(content, heading, newSection)
        == Success(Join(lines[..start] + Split(newSection) + lines[SectionEnd(lines, start)..]))
  {
  }

  /** Conversely, two or more '#' then a whitespace character is a boundary,
      whatever follows and whatever the heading's depth. */
  lemma HashesThenSpaceIsBoundary(hashes: string, c: char, t: string)
    requires |hashes| >= 2 && forall j :: 0 <= j < |hashes| ==> hashes[j] == '#'
    requires IsWhitespace(c)
    ensures IsSectionBoundary(hashes + [c] + t)
  {
    var line := hashes + [c] + t;
    assert line[|hashes|] == c;
    assert forall j :: 0 <= j < |hashes| ==> line[j] == '#';
    BoundaryIsHeadingPattern(line);
  }

  /** A deeper heading ends the section too: below a `### A` heading line,
      the `#### B` line is where the replaced range stops. */
  lemma DeeperHeadingEndsSection()
    ensures SectionEnd(["### A", "x", "#### B", "y"], 0) == 2
  {
    var lines := ["### A", "x", "#### B", "y"];
    assert !IsSectionBoundary(lines[1]);
    assert lines[2] == "####" + [' '] + "B";
    HashesThenSpaceIsBoundary("####", ' ', "B");
  }
}
