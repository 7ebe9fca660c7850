/** The few pieces of JavaScript value and string semantics the report
    pipeline relies on: `null`, thrown errors, `slice` with relative
    indices, `indexOf`/`replace` with a string pattern, `split` on one
    character, `join`, and string concatenation of `null`. */
module Js {

  /** A JavaScript value that may be `null` (or `undefined`). */
  datatype Option<+T> = None | Some(value: T)

  /** `x === undefined ? fallback : x`: an absent property read with a
      fallback. */
  function IfUndefined<T>(x: Option<T>, fallback: T): T {
    if x.Some? then x.value else fallback
  }

  /** The exceptions the modelled code can raise. */
  datatype JsError = TypeError(message: string)

  /** A computation that either returns a value or throws. */
  datatype Result<+T> = Ok(value: T) | Throws(error: JsError)

  function Min(a: int, b: int): int { if a <= b then a else b }

  function Max(a: int, b: int): int { if a <= b then b else a }

  /** How `slice` resolves one index argument: a negative index counts
      back from the end, and the result is clamped to [0, len]. */
  function RelativeIndex(i: int, len: nat): (r: nat)
    ensures r <= len
    ensures 0 <= i ==> r == Min(i, len)
    ensures i < 0 ==> r == Max(len + i, 0)
  {
    if i < 0 then (if len + i < 0 then 0 else len + i)
    else if i < len then i else len
  }

  /** `Array.prototype.slice` and `String.prototype.slice`: an absent end
      means the length, and an inverted range yields the empty sequence
      rather than failing. */
  function Slice<T>(s: seq<T>, start: int, end: Option<int>): (r: seq<T>)
    ensures |r| <= |s|
    ensures var from := RelativeIndex(start, |s|);
            var to := if end.None? then |s| else RelativeIndex(end.value, |s|);
            |r| == Max(0, to - from) && forall k :: 0 <= k < |r| ==> from + k < |s| && r[k] == s[from + k]
    ensures 0 <= start ==> forall k :: 0 <= k < |r| ==> start + k < |s| && r[k] == s[start + k]
    ensures 0 <= start && end.Some? && 0 <= end.value ==>
              |r| == Max(0, Min(end.value, |s|) - Min(start, |s|))
    ensures 0 <= start && end.None? ==> r == s[Min(start, |s|)..]
    ensures start < 0 && end.None? ==> r == s[Max(|s| + start, 0)..]
  {
    var from := RelativeIndex(start, |s|);
    var to := match end case None => |s| case Some(e) => RelativeIndex(e, |s|);
    if from < to then s[from..to] else []
  }

  /** A slice whose bounds are already in range is the ordinary subsequence. */
  lemma SliceInRange<T>(s: seq<T>, start: int, end: int)
    ensures 0 <= start <= end <= |s| ==> Slice(s, start, Some(end)) == s[start..end]
  {
    if 0 <= start <= end <= |s| {
      var r := Slice(s, start, Some(end));
      assert |r| == end - start;
      assert forall k :: 0 <= k < |r| ==> r[k] == s[start..end][k];
    }
  }

  /** With non-negative bounds, a slice clamps both bounds to the length,
      and an inverted range is empty. */
  lemma SliceClamped<T>(s: seq<T>, start: int, end: int)
    ensures 0 <= start && 0 <= end ==>
              Slice(s, start, Some(end)) == s[Min(start, |s|)..Max(Min(start, |s|), Min(end, |s|))]
  {
    if 0 <= start && 0 <= end {
      var r := Slice(s, start, Some(end));
      var from := Min(start, |s|);
      var to := Max(from, Min(end, |s|));
      assert |r| == to - from;
      assert forall k :: 0 <= k < |r| ==> r[k] == s[from..to][k];
    }
  }

  /** `pat` occurs in `s` at position `i`. */
  predicate OccursAt(s: string, pat: string, i: int) {
    0 <= i && i + |pat| <= |s| && s[i..i + |pat|] == pat
  }

  /** The first position at or after `from` where `pat` occurs, or -1.
      From 0 this is `String.prototype.indexOf(pat)`; it is only used so. */
  function IndexOfFrom(s: string, pat: string, from: nat): (r: int)
    ensures r == -1 || (from <= r && OccursAt(s, pat, r))
    ensures r == -1 ==> forall j :: from <= j ==> !OccursAt(s, pat, j)
    ensures r != -1 ==> forall j :: from <= j < r ==> !OccursAt(s, pat, j)
    decreases |s| + 1 - from
  {
    if from + |pat| > |s| then -1
    else if s[from..from + |pat|] == pat then from
    else IndexOfFrom(s, pat, from + 1)
  }

  function IndexOf(s: string, pat: string): (r: int)
    ensures r == -1 <==> forall j :: !OccursAt(s, pat, j)
    ensures r != -1 ==> OccursAt(s, pat, r) && forall j :: 0 <= j < r ==> !OccursAt(s, pat, j)
  {
    IndexOfFrom(s, pat, 0)
  }

  /** `s.replace(pat, rep)` with a string pattern: only the FIRST occurrence
      of `pat` is replaced, and a string without `pat` is returned as is.
      (`rep` is assumed free of `$` replacement patterns, which holds for
      every call in the modelled code.) */
  function ReplaceFirst(s: string, pat: string, rep: string): (r: string)
    ensures (forall j :: !OccursAt(s, pat, j)) ==> r == s
    ensures forall i :: OccursAt(s, pat, i) && (forall j :: 0 <= j < i ==> !OccursAt(s, pat, j)) ==>
              r == s[..i] + rep + s[i + |pat|..]
  {
    var i := IndexOf(s, pat);
    if i < 0 then s else s[..i] + rep + s[i + |pat|..]
  }

  /** Total length of a list of strings. */
  function TotalLength(parts: seq<string>): nat {
    if |parts| == 0 then 0 else |parts[0]| + TotalLength(parts[1..])
  }

  /** `Array.prototype.join(sep)`: the pieces in order, the first one
      leading, with one separator between neighbours. */
  function Join(parts: seq<string>, sep: string): string {
    if |parts| == 0 then ""
    else if |parts| == 1 then parts[0]
    else parts[0] + sep + Join(parts[1..], sep)
  }

  /** The shape of a join: nothing from no pieces, the first piece leading,
      and the separator right after it when more pieces follow. */
  lemma JoinShape(parts: seq<string>, sep: string)
    ensures |parts| == 0 ==> Join(parts, sep) == ""
    ensures |parts| >= 1 ==> parts[0] <= Join(parts, sep)
    ensures |parts| >= 2 ==> |parts[0]| + |sep| <= |Join(parts, sep)|
                             && Join(parts, sep)[|parts[0]|..|parts[0]| + |sep|] == sep
  {
    if |parts| >= 2 {
      var r := Join(parts, sep);
      assert r == parts[0] + sep + Join(parts[1..], sep);
      assert r[..|parts[0]|] == parts[0];
      assert r[|parts[0]|..|parts[0]| + |sep|] == sep;
    }
  }

  /** A join is as long as its pieces plus one separator between each pair. */
  lemma {:induction false} JoinLength(parts: seq<string>, sep: string)
    requires |parts| >= 1
    ensures |Join(parts, sep)| == TotalLength(parts) + (|parts| - 1) * |sep|
    decreases |parts|
  {
    if |parts| >= 2 {
      JoinLength(parts[1..], sep);
      assert (|parts| - 1) * |sep| == |sep| + (|parts| - 2) * |sep|;
    }
  }

  lemma JoinCons(x: string, rest: seq<string>, sep: string)
    requires |rest| >= 1
    ensures Join([x] + rest, sep) == x + sep + Join(rest, sep)
  {
    assert ([x] + rest)[1..] == rest;
  }

  /** `s.split(sep)` for a one-character separator. */
  function Split(s: string, sep: char): (r: seq<string>)
    ensures |r| >= 1
    ensures forall k :: 0 <= k < |r| ==> sep !in r[k]
    ensures Join(r, [sep]) == s
    decreases |s|
  {
    if |s| == 0 then [""]
    else
      var rest := Split(s[1..], sep);
      assert s == [s[0]] + s[1..];
      if s[0] == sep then
        JoinCons("", rest, [sep]);
        [""] + rest
      else
        ExtendFirstPiece(s[0], rest, sep);
        [[s[0]] + rest[0]] + rest[1..]
  }

  /** A character other than the separator in front of the pieces extends
      the first piece. */
  lemma ExtendFirstPiece(c: char, rest: seq<string>, sep: char)
    requires c != sep
    requires |rest| >= 1
    requires forall k :: 0 <= k < |rest| ==> sep !in rest[k]
    ensures Join([[c] + rest[0]] + rest[1..], [sep]) == [c] + Join(rest, [sep])
    ensures forall k :: 0 <= k < |rest| ==> sep !in ([[c] + rest[0]] + rest[1..])[k]
  {
    var r := [[c] + rest[0]] + rest[1..];
    if |rest| == 1 {
      assert r == [[c] + rest[0]];
    } else {
      ExtendFirstPieceOfMany(c, rest, sep);
    }
    assert forall k :: 1 <= k < |r| ==> r[k] == rest[k];
  }

  lemma ExtendFirstPieceOfMany(c: char, rest: seq<string>, sep: char)
    requires |rest| >= 2
    ensures Join([[c] + rest[0]] + rest[1..], [sep]) == [c] + Join(rest, [sep])
  {
    var head := [c] + rest[0];
    var tail := Join(rest[1..], [sep]);
    JoinCons(rest[0], rest[1..], [sep]);
    JoinCons(head, rest[1..], [sep]);
    assert rest == [rest[0]] + rest[1..];
    ConcatAssoc([c], rest[0], [sep] + tail);
    ConcatAssoc(rest[0], [sep], tail);
    ConcatAssoc(head, [sep], tail);
  }

  lemma ConcatAssoc<T>(a: seq<T>, b: seq<T>, c: seq<T>)
    ensures (a + b) + c == a + (b + c)
  {
  }

  /** In `x + [sep] + y` with `x` separator-free, the first separator sits at `|x|`. */
  lemma FirstSeparatorAt(x: string, y: string, sep: char)
    requires sep !in x
    ensures (x + [sep] + y)[|x|] == sep
    ensures forall i :: 0 <= i < |x| ==> (x + [sep] + y)[i] != sep
  {
    assert forall i :: 0 <= i < |x| ==> (x + [sep] + y)[i] == x[i];
  }

  /** Two separator-free pieces followed by the separator can only be split
      one way. */
  lemma SeparatorSplitsUniquely(x: string, y: string, x': string, y': string, sep: char)
    requires sep !in x && sep !in x'
    requires x + [sep] + y == x' + [sep] + y'
    ensures x == x' && y == y'
  {
    FirstSeparatorAt(x, y, sep);
    FirstSeparatorAt(x', y', sep);
    assert |x| == |x'|;
    assert x == (x + [sep] + y)[..|x|];
    assert x' == (x' + [sep] + y')[..|x|];
    assert y == (x + [sep] + y)[|x| + 1..];
    assert y' == (x' + [sep] + y')[|x| + 1..];
  }

  /** Joining separator-free pieces loses nothing: the pieces are determined
      by the joined text. */
  lemma {:induction false} JoinInjective(p: seq<string>, q: seq<string>, sep: char)
    requires |p| >= 1 && |q| >= 1
    requires forall k :: 0 <= k < |p| ==> sep !in p[k]
    requires forall k :: 0 <= k < |q| ==> sep !in q[k]
    requires Join(p, [sep]) == Join(q, [sep])
    ensures p == q
    decreases |p|
  {
    if |p| == 1 && |q| == 1 {
    } else if |p| == 1 {
      assert false;
    } else if |q| == 1 {
      assert false;
    } else {
      SeparatorSplitsUniquely(p[0], Join(p[1..], [sep]), q[0], Join(q[1..], [sep]), sep);
      JoinInjective(p[1..], q[1..], sep);
      assert p == [p[0]] + p[1..];
      assert q == [q[0]] + q[1..];
    }
  }

  /** `split` undoes `join` on separator-free pieces. */
  lemma SplitJoin(parts: seq<string>, sep: char)
    requires |parts| >= 1
    requires forall k :: 0 <= k < |parts| ==> sep !in parts[k]
    ensures Split(Join(parts, [sep]), sep) == parts
  {
    JoinInjective(Split(Join(parts, [sep]), sep), parts, sep);
  }

  /** The text JavaScript produces when a possibly-null value is
      concatenated to a string: `null + "x"` is `"nullx"`. */
  function NullableText(v: Option<string>): (r: string)
    ensures v.Some? ==> r == v.value
    ensures v.None? ==> r == "null"
  {
    match v
    case None => "null"
    case Some(s) => s
  }
}
