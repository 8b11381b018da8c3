/** The JavaScript string operations the handlers rely on: `replace` with a
    string pattern (first occurrence only), `includes`, and `split` on a
    one-character separator followed by `pop()` or `[0]`. */
module Text {
  import opened Wrappers

  /** `pat` occurs in `s` starting at index `i`. */
  predicate MatchesAt(s: string, pat: string, i: nat) {
    i + |pat| <= |s| && s[i..i + |pat|] == pat
  }

  /** `i` is the first index at which `pat` occurs in `s`. */
  ghost predicate FirstMatch(s: string, pat: string, i: nat) {
    MatchesAt(s, pat, i) && forall j: nat :: j < i ==> !MatchesAt(s, pat, j)
  }

  /** First occurrence of `pat` in `s` at or after `from` (JavaScript `indexOf`). */
  function IndexOfFrom(s: string, pat: string, from: nat): (r: Option<nat>)
    ensures r.Some? ==> from <= r.value && MatchesAt(s, pat, r.value)
    ensures r.Some? ==> forall j: nat :: from <= j < r.value ==> !MatchesAt(s, pat, j)
    ensures r.None? ==> forall j: nat :: from <= j ==> !MatchesAt(s, pat, j)
    decreases |s| - from
  {
    if |s| < from + |pat| then None
    else if MatchesAt(s, pat, from) then Some(from)
    else IndexOfFrom(s, pat, from + 1)
  }

  /** `s.includes(pat)`: whether `pat` occurs anywhere in `s`. */
  function Contains(s: string, pat: string): (b: bool)
    ensures b <==> exists i: nat :: MatchesAt(s, pat, i)
  {
    IndexOfFrom(s, pat, 0).Some?
  }

  /** `s.replace(pat, rep)` with a string pattern: only the first occurrence
      of `pat` is replaced, wherever it is, and `s` is returned unchanged
      when `pat` does not occur. */
  function ReplaceFirst(s: string, pat: string, rep: string): (r: string)
    ensures (forall j: nat :: !MatchesAt(s, pat, j)) ==> r == s
    ensures forall i: nat :: FirstMatch(s, pat, i) ==> r == s[..i] + rep + s[i + |pat|..]
  {
    match IndexOfFrom(s, pat, 0)
    case None => s
    case Some(i) => s[..i] + rep + s[i + |pat|..]
  }

  /** A string that starts with `pat` loses exactly that prefix. */
  lemma ReplaceFirstOfPrefix(pat: string, t: string)
    ensures ReplaceFirst(pat + t, pat, "") == t
  {
    var s := pat + t;
    assert s[0..|pat|] == pat;
    assert FirstMatch(s, pat, 0);
    assert s[|pat|..] == t;
  }

  /** Only the first occurrence goes: a doubled prefix leaves one copy. */
  lemma ReplaceFirstKeepsLaterMatches(pat: string, t: string)
    ensures ReplaceFirst(pat + pat + t, pat, "") == pat + t
  {
    assert pat + pat + t == pat + (pat + t);
    ReplaceFirstOfPrefix(pat, pat + t);
  }

  /** JavaScript `s.split(sep)` for a one-character separator: the maximal
      separator-free pieces, at least one (the empty string splits to [""]). */
  function Split(s: string, sep: char): (parts: seq<string>)
    ensures |parts| >= 1
    ensures forall i :: 0 <= i < |parts| ==> sep !in parts[i]
    decreases |s|
  {
    if |s| == 0 then [""]
    else
      var rest := Split(s[1..], sep);
      if s[0] == sep then [""] + rest
      else [[s[0]] + rest[0]] + rest[1..]
  }

  /** JavaScript `parts.join(sep)`, the inverse of `Split`. */
  function Join(parts: seq<string>, sep: char): string
    requires |parts| >= 1
  {
    if |parts| == 1 then parts[0] else parts[0] + [sep] + Join(parts[1..], sep)
  }

  /** Splitting loses nothing: joining the pieces gives the string back. */
  lemma {:induction false} JoinSplit(s: string, sep: char)
    ensures Join(Split(s, sep), sep) == s
    decreases |s|
  {
    if |s| > 0 {
      var rest := Split(s[1..], sep);
      JoinSplit(s[1..], sep);
      assert s == [s[0]] + s[1..];
      if s[0] != sep && |rest| > 1 {
        assert rest == [rest[0]] + rest[1..];
        assert Join(rest, sep) == rest[0] + [sep] + Join(rest[1..], sep);
        var parts := Split(s, sep);
        assert parts[1..] == rest[1..];
        assert Join(parts, sep) == [s[0]] + rest[0] + [sep] + Join(rest[1..], sep);
      }
    }
  }

  /** Splitting a join of separator-free pieces gives the pieces back. */
  lemma {:induction false} SplitJoin(parts: seq<string>, sep: char)
    requires |parts| >= 1
    requires forall i :: 0 <= i < |parts| ==> sep !in parts[i]
    ensures Split(Join(parts, sep), sep) == parts
    decreases |parts|, |parts[0]|
  {
    var p := parts[0];
    if |p| == 0 {
      if |parts| > 1 {
        var tail := Join(parts[1..], sep);
        SplitJoin(parts[1..], sep);
        var s := Join(parts, sep);
        assert s == [sep] + tail;
        assert s[1..] == tail;
      }
    } else {
      var shorter := [p[1..]] + parts[1..];
      assert forall i :: 0 <= i < |shorter| ==> sep !in shorter[i] by {
        forall i | 0 <= i < |shorter| ensures sep !in shorter[i] {
          if i == 0 {
            assert forall c :: c in p[1..] ==> c in p;
          } else {
            assert shorter[i] == parts[i];
          }
        }
      }
      SplitJoin(shorter, sep);
      var s := Join(parts, sep);
      assert shorter[1..] == parts[1..];
      assert p == [p[0]] + p[1..];
      if |parts| == 1 {
        assert s == p;
        assert s[1..] == Join(shorter, sep);
      } else {
        assert s == [p[0]] + (p[1..] + [sep] + Join(parts[1..], sep));
        assert s[1..] == Join(shorter, sep);
      }
      assert p[0] != sep;
      assert Split(s, sep) == [[p[0]] + p[1..]] + parts[1..];
      assert parts == [p] + parts[1..];
    }
  }

  /** The first piece of a split is the longest separator-free prefix. */
  lemma {:induction false} SplitFirst(s: string, sep: char)
    ensures var f := Split(s, sep)[0];
      |f| <= |s| && s[..|f|] == f && (|f| < |s| ==> s[|f|] == sep)
    decreases |s|
  {
    if |s| > 0 && s[0] != sep {
      SplitFirst(s[1..], sep);
    }
  }

  /** Joining peels off the last piece behind the last separator. */
  lemma {:induction false} JoinLast(parts: seq<string>, sep: char)
    requires |parts| > 1
    ensures Join(parts, sep) == Join(parts[..|parts| - 1], sep) + [sep] + parts[|parts| - 1]
    decreases |parts|
  {
    if |parts| > 2 {
      JoinLast(parts[1..], sep);
      assert parts[1..][..|parts| - 2] == parts[..|parts| - 1][1..];
    }
  }

  /** The last piece of a split is the longest separator-free suffix. */
  lemma SplitLast(s: string, sep: char)
    ensures var l := LastPiece(s, sep);
      |l| <= |s| && s[|s| - |l|..] == l && (|l| < |s| ==> s[|s| - |l| - 1] == sep)
  {
    var parts := Split(s, sep);
    var l := parts[|parts| - 1];
    JoinSplit(s, sep);
    if |parts| > 1 {
      JoinLast(parts, sep);
      var front := Join(parts[..|parts| - 1], sep) + [sep];
      assert s == front + l;
      assert s[|s| - |l|..] == l;
      assert s[|s| - |l| - 1] == front[|front| - 1];
    }
  }

  /** `s.split(sep).pop()`. */
  function LastPiece(s: string, sep: char): string {
    var parts := Split(s, sep);
    parts[|parts| - 1]
  }

  /** `s.split(sep)[0]`. */
  function FirstPiece(s: string, sep: char): string {
    Split(s, sep)[0]
  }
}
