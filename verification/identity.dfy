/** The per-diagnostic line range and the instance hash: which text of the
    file identifies a finding, and what string is hashed. */
module Identity {
  import opened Js
  import opened Eslint

  /** The 0-based start line, the exclusive end line and the start column
      derived from a diagnostic. */
  datatype LineRange = LineRange(start: int, end: int, column: int)

  /** Line/column normalisation: the 1-based `line` becomes a 0-based start,
      an absent `endLine` makes the range cover the diagnostic's own line
      only, and an absent `column` becomes 0. */
  function Range(m: RawMessage): (r: LineRange)
    ensures r.start + 1 == m.line
    ensures m.endLine.None? ==> r.end == r.start + 1
    ensures m.endLine.Some? ==> r.end == m.endLine.value
    ensures m.column.None? ==> r.column == 0
    ensures m.column.Some? ==> r.column == m.column.value
  {
    LineRange(m.line - 1, IfUndefined(m.endLine, m.line), IfUndefined(m.column, 0))
  }

  /** The test that selects a column slice of the whole source instead of a
      range of lines: start and end line both equal to 1. */
  predicate TakesColumnSlice(r: LineRange) {
    r.start == r.end && r.end == 1
  }

  /** Because `start` is 0-based and `end` is not, the column slice is taken
      only for a diagnostic on line 2 whose `endLine` is 1, and never when
      `endLine` is absent. */
  lemma ColumnSliceOnlyForLineTwoEndingAtOne(m: RawMessage)
    ensures TakesColumnSlice(Range(m)) <==> m.line == 2 && m.endLine == Some(1)
    ensures m.endLine.None? ==> !TakesColumnSlice(Range(m))
  {
  }

  /** The offending text before normalisation. In ordinary slicing terms:
      the column slice runs from the column to `endColumn`, or to the end of
      the source when `endColumn` is absent; otherwise the lines of the range
      are concatenated with nothing between them. Bounds past the end are
      clamped and an inverted range is empty, as `slice` does: ESLint also
      counts `\r`, U+2028 and U+2029 as line breaks, so `endLine` can exceed
      the number of `'\n'`-separated lines. */
  function Span(source: string, lines: seq<string>, m: RawMessage): (sp: string)
    ensures TakesColumnSlice(Range(m)) && 0 <= Range(m).column && m.endColumn.None? ==>
              sp == source[Min(Range(m).column, |source|)..]
    ensures TakesColumnSlice(Range(m)) && m.endColumn.Some? && 0 <= Range(m).column && 0 <= m.endColumn.value ==>
              var from := Min(Range(m).column, |source|);
              sp == source[from..Max(from, Min(m.endColumn.value, |source|))]
    ensures !TakesColumnSlice(Range(m)) && 0 <= Range(m).start && 0 <= Range(m).end ==>
              var from := Min(Range(m).start, |lines|);
              sp == Join(lines[from..Max(from, Min(Range(m).end, |lines|))], "")
  {
    var r := Range(m);
    if TakesColumnSlice(r) then
      SliceClamped(source, r.column, IfUndefined(m.endColumn, |source|));
      Slice(source, r.column, m.endColumn)
    else
      SliceClamped(lines, r.start, r.end);
      Join(Slice(lines, r.start, Some(r.end)), "")
  }

  /** `replace('\s', '')`: in a string literal `'\s'` is just `"s"`, so this
      removes the first letter `s` and leaves every whitespace character in
      place. */
  function StripFirstS(s: string): (r: string)
    ensures 's' !in s ==> r == s
    ensures 's' in s ==> |r| + 1 == |s| && multiset(r) + multiset{'s'} == multiset(s)
    ensures forall c :: c != 's' ==> multiset(r)[c] == multiset(s)[c]
    ensures 's' in s ==> exists i :: 0 <= i < |s| && s[i] == 's' && 's' !in s[..i] && r == s[..i] + s[i + 1..]
  {
    FirstSFacts(s);
    StripFirstSCounts(s);
    ReplaceFirst(s, "s", "")
  }

  /** Where the first `s` is, and what removing it does. */
  lemma FirstSFacts(s: string)
    ensures 's' !in s ==> ReplaceFirst(s, "s", "") == s
    ensures 's' in s ==> exists i :: 0 <= i < |s| && s[i] == 's' && 's' !in s[..i]
                                    && s == s[..i] + "s" + s[i + 1..]
                                    && ReplaceFirst(s, "s", "") == s[..i] + s[i + 1..]
  {
    if 's' in s {
      FirstSPresent(s);
    } else {
      assert forall j :: OccursAt(s, "s", j) ==> s[j] == s[j..j + 1][0];
    }
  }

  lemma FirstSPresent(s: string)
    requires 's' in s
    ensures exists i :: 0 <= i < |s| && s[i] == 's' && 's' !in s[..i]
                        && s == s[..i] + "s" + s[i + 1..]
                        && ReplaceFirst(s, "s", "") == s[..i] + s[i + 1..]
  {
    var j :| 0 <= j < |s| && s[j] == 's';
    assert s[j..j + 1] == "s";
    assert OccursAt(s, "s", j);
    var i := IndexOf(s, "s");
    RemoveFirstSAt(s, i);
  }

  /** Removing the pattern `"s"` where it first occurs. */
  lemma RemoveFirstSAt(s: string, i: int)
    requires OccursAt(s, "s", i)
    requires forall j :: 0 <= j < i ==> !OccursAt(s, "s", j)
    ensures 0 <= i < |s| && s[i] == 's' && 's' !in s[..i]
    ensures s == s[..i] + "s" + s[i + 1..]
    ensures ReplaceFirst(s, "s", "") == s[..i] + s[i + 1..]
  {
    assert s[i..i + 1] == "s";
    assert s == s[..i] + s[i..i + 1] + s[i + 1..];
    NoEarlierS(s, i);
    assert ReplaceFirst(s, "s", "") == s[..i] + "" + s[i + 1..];
    assert s[..i] + "" + s[i + 1..] == s[..i] + s[i + 1..];
  }

  /** No occurrence of the pattern `"s"` before `i` means no letter `s` before `i`. */
  lemma NoEarlierS(s: string, i: int)
    requires 0 <= i <= |s|
    requires forall j :: 0 <= j < i ==> !OccursAt(s, "s", j)
    ensures 's' !in s[..i]
  {
    forall j | 0 <= j < i ensures s[..i][j] != 's' {
      assert !OccursAt(s, "s", j);
      assert s[j..j + 1] == [s[j]];
    }
  }

  lemma StripFirstSCounts(s: string)
    ensures 's' in s ==> multiset(ReplaceFirst(s, "s", "")) + multiset{'s'} == multiset(s)
  {
    FirstSFacts(s);
    if 's' in s {
      var i :| 0 <= i < |s| && s[i] == 's' && ReplaceFirst(s, "s", "") == s[..i] + s[i + 1..];
      RemoveOneKeepsOthers(s, i);
    }
  }

  /** Removing the character at `i` from `s` keeps every other count. */
  lemma RemoveOneKeepsOthers(s: string, i: int)
    requires 0 <= i < |s|
    ensures multiset(s[..i] + s[i + 1..]) + multiset{s[i]} == multiset(s)
  {
    assert s == s[..i] + [s[i]] + s[i + 1..];
  }

  /** The text whose hash identifies the finding: the span without its
      first letter `s`, everything else in order. */
  function InstanceData(source: string, lines: seq<string>, m: RawMessage): (d: string)
    ensures var sp := Span(source, lines, m);
            's' !in sp ==> d == sp
    ensures var sp := Span(source, lines, m);
            's' in sp ==> exists i :: 0 <= i < |sp| && sp[i] == 's' && 's' !in sp[..i] && d == sp[..i] + sp[i + 1..]
  {
    StripFirstS(Span(source, lines, m))
  }

  /** `filePath.replace(rootPath, '.')`: a path under the root becomes
      `"."` followed by the rest of the path; a path not containing the root
      is unchanged. The FIRST occurrence is replaced, wherever it is. */
  function Relative(filePath: string, rootPath: string): (r: string)
    ensures rootPath <= filePath ==> r == "." + filePath[|rootPath|..]
    ensures (forall j :: !OccursAt(filePath, rootPath, j)) ==> r == filePath
    ensures forall i :: OccursAt(filePath, rootPath, i) && (forall j :: 0 <= j < i ==> !OccursAt(filePath, rootPath, j)) ==>
              r == filePath[..i] + "." + filePath[i + |rootPath|..]
  {
    assert rootPath <= filePath ==> OccursAt(filePath, rootPath, 0);
    ReplaceFirst(filePath, rootPath, ".")
  }

  /** The root is replaced where it first occurs even when that is not at
      the start: a root that reappears inside the path is cut out there. */
  lemma RelativeReplacesInsidePath()
    ensures Relative("/w/p/a.js", "/p") == "/w./a.js"
  {
    var f := "/w/p/a.js";
    assert OccursAt(f, "/p", 2) by { assert f[2..4] == "/p"; }
    assert !OccursAt(f, "/p", 0) by { assert f[0..2] == "/w"; }
    assert !OccursAt(f, "/p", 1) by { assert f[1..3] == "w/"; }
    assert f[..2] + "." + f[4..] == "/w./a.js";
  }

  /** The string handed to the hash: revision, relative path and span
      concatenated, with an absent revision rendered as `"null"`. */
  function HashInput(gitHash: Option<string>, relative: string, span: string): (r: string)
    ensures |r| == |NullableText(gitHash)| + |relative| + |span|
    ensures r[|r| - |span|..] == span
    ensures r[..|NullableText(gitHash)|] == NullableText(gitHash)
    ensures r[|NullableText(gitHash)|..|NullableText(gitHash)| + |relative|] == relative
  {
    NullableText(gitHash) + relative + span
  }

  /** For a fixed revision and path, the hashed string tells spans apart. */
  lemma HashInputSeparatesSpans(gitHash: Option<string>, relative: string, span1: string, span2: string)
    ensures HashInput(gitHash, relative, span1) == HashInput(gitHash, relative, span2) <==> span1 == span2
  {
    var p := NullableText(gitHash) + relative;
    assert HashInput(gitHash, relative, span1) == p + span1;
    assert HashInput(gitHash, relative, span2) == p + span2;
    assert (p + span1)[|p|..] == span1;
    assert (p + span2)[|p|..] == span2;
  }

  /** An absent revision hashes exactly like the revision named "null". */
  lemma NullRevisionIsLiteralNull(relative: string, span: string)
    ensures HashInput(None, relative, span) == HashInput(Some("null"), relative, span)
  {
  }

  /** Path and span are concatenated without a separator, so moving text
      between them does not change the hashed string. */
  lemma PathSpanBoundaryIsAmbiguous(gitHash: Option<string>)
    ensures HashInput(gitHash, "./a", "bc") == HashInput(gitHash, "./ab", "c")
  {
    assert "./a" + "bc" == "./ab" + "c";
    assert HashInput(gitHash, "./a", "bc") == NullableText(gitHash) + ("./a" + "bc");
    assert HashInput(gitHash, "./ab", "c") == NullableText(gitHash) + ("./ab" + "c");
  }

  /** A diagnostic without `endLine` whose line exists is identified by
      the text of that one line. */
  lemma DefaultSpanIsOwnLine(source: string, lines: seq<string>, m: RawMessage)
    requires m.endLine.None?
    requires 1 <= m.line <= |lines|
    ensures Span(source, lines, m) == lines[m.line - 1]
  {
    SliceInRange(lines, m.line - 1, m.line);
    assert lines[m.line - 1..m.line] == [lines[m.line - 1]];
  }

  /** A range that runs past the last `'\n'`-separated line is cut at the
      end of the file rather than failing. */
  lemma SpanPastLastLineIsTruncated()
    ensures Span("a\nb", ["a", "b"], RawMessage(None, 1, "m", 2, None, Some(5), None)) == "b"
  {
    var m := RawMessage(None, 1, "m", 2, None, Some(5), None);
    assert Range(m) == LineRange(1, 5, 0);
    assert ["a", "b"][1..2] == ["b"];
  }

  /** The identity survives line drift: two diagnostics whose line ranges
      hold the same text get the same hash, wherever the lines sit and
      whatever their rule. */
  lemma HashStableUnderLineDrift(md5: string -> string, gitHash: Option<string>, relative: string,
                                 source1: string, lines1: seq<string>, m1: RawMessage,
                                 source2: string, lines2: seq<string>, m2: RawMessage)
    requires !TakesColumnSlice(Range(m1)) && !TakesColumnSlice(Range(m2))
    requires 0 <= Range(m1).start <= Range(m1).end <= |lines1|
    requires 0 <= Range(m2).start <= Range(m2).end <= |lines2|
    requires lines1[Range(m1).start..Range(m1).end] == lines2[Range(m2).start..Range(m2).end]
    ensures md5(HashInput(gitHash, relative, InstanceData(source1, lines1, m1)))
         == md5(HashInput(gitHash, relative, InstanceData(source2, lines2, m2)))
  {
    SliceInRange(lines1, Range(m1).start, Range(m1).end);
    SliceInRange(lines2, Range(m2).start, Range(m2).end);
  }
}
