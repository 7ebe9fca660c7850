/** Blame attribution for one diagnostic: the raw blame text of its file,
    split into lines, sliced by the diagnostic's line range, each line turned
    into a blame record by the VCS helper. */
module Blame {
  import opened Js

  /** Raw `git blame` text per absolute file path. */
  type BlameMap = map<string, string>

  /** The blame lines of one file: none when the map has no entry for the
      path or its text is empty (an empty string is falsy), otherwise the
      text cut at every newline. */
  function RawBlame(blameInf: BlameMap, path: string): (r: Option<seq<string>>)
    ensures r.None? <==> path !in blameInf || blameInf[path] == ""
    ensures r.Some? ==> Join(r.value, "\n") == blameInf[path]
    ensures r.Some? ==> forall k :: 0 <= k < |r.value| ==> '\n' !in r.value[k]
  {
    if path in blameInf && blameInf[path] != "" then Some(Split(blameInf[path], '\n')) else None
  }

  /** `_assignBlame`: no raw lines gives a null blame (never an empty list);
      otherwise `genBlame` is applied, in order, to the lines selected by the
      array slice `[start, end)`, which truncates at the last line instead of
      failing. */
  function AssignBlame<B>(raw: Option<seq<string>>, start: int, end: int, genBlame: string -> B): (r: Option<seq<B>>)
    ensures r.None? <==> raw.None?
    ensures raw.Some? && 0 <= start && 0 <= end ==>
              |r.value| == Max(0, Min(end, |raw.value|) - Min(start, |raw.value|))
    ensures raw.Some? && 0 <= start ==>
              forall k :: 0 <= k < |r.value| ==> start + k < |raw.value| && r.value[k] == genBlame(raw.value[start + k])
  {
    match raw
    case None => None
    case Some(lines) =>
      var selected := Slice(lines, start, Some(end));
      Some(seq(|selected|, k requires 0 <= k < |selected| => genBlame(selected[k])))
  }

  /** A range inside the blame text yields one record per line of the range. */
  lemma AssignBlameInRange<B>(lines: seq<string>, start: int, end: int, genBlame: string -> B)
    requires 0 <= start <= end <= |lines|
    ensures AssignBlame(Some(lines), start, end, genBlame).Some?
    ensures |AssignBlame(Some(lines), start, end, genBlame).value| == end - start
  {
  }

  /** An inverted range (end before start) yields an empty list, not null. */
  lemma AssignBlameInvertedRange<B>(lines: seq<string>, start: int, end: int, genBlame: string -> B)
    requires 0 <= end <= start
    ensures AssignBlame(Some(lines), start, end, genBlame) == Some([])
  {
  }
}
