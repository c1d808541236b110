/**
 * The two string built-ins the widgets rely on: `String.prototype.split` with
 * a one-character separator (used on translation keys and on the location
 * path) and `String.prototype.toUpperCase` (used on the language label).
 */
module Strings {

  /**
   * `s.split(sep)`: the maximal runs of non-separator characters, in order,
   * including the empty runs before a leading separator, between two adjacent
   * separators and after a trailing one. The empty string splits to `[""]`.
   */
  function Split(s: string, sep: char): (parts: seq<string>)
    ensures |parts| >= 1
    ensures forall p <- parts :: sep !in p
    decreases |s|
  {
    if s == [] then [""]
    else
      var rest := Split(s[1..], sep);
      if s[0] == sep then [""] + rest
      else [[s[0]] + rest[0]] + rest[1..]
  }

  /** `parts.join(sep)`, the inverse of `Split`. */
  function Join(parts: seq<string>, sep: char): string
  {
    if parts == [] then ""
    else if |parts| == 1 then parts[0]
    else parts[0] + [sep] + Join(parts[1..], sep)
  }

  /** Joining the pieces of a split gives back the original string. */
  lemma {:induction false} JoinSplit(s: string, sep: char)
    ensures Join(Split(s, sep), sep) == s
    decreases |s|
  {
    if s != [] {
      var rest := Split(s[1..], sep);
      JoinSplit(s[1..], sep);
      if s[0] == sep {
        assert Split(s, sep) == [""] + rest;
        assert ([""] + rest)[1..] == rest;
      } else if |rest| == 1 {
        assert Split(s, sep) == [[s[0]] + rest[0]];
      } else {
        var parts := Split(s, sep);
        assert parts == [[s[0]] + rest[0]] + rest[1..];
        assert parts[1..] == rest[1..];
        calc {
          Join(parts, sep);
          [s[0]] + rest[0] + [sep] + Join(rest[1..], sep);
          [s[0]] + (rest[0] + [sep] + Join(rest[1..], sep));
          [s[0]] + Join(rest, sep);
          [s[0]] + s[1..];
          s;
        }
      }
    }
  }

  /** A separator-free prefix stays glued to the first piece of what follows it. */
  lemma {:induction false} SplitPrefix(p: string, t: string, sep: char)
    requires sep !in p
    ensures Split(p + t, sep) == [p + Split(t, sep)[0]] + Split(t, sep)[1..]
    decreases |p|
  {
    if p == [] {
      var tail := Split(t, sep);
      assert p + t == t;
      assert p + tail[0] == tail[0];
      assert tail == [tail[0]] + tail[1..];
    } else {
      var tail := Split(t, sep);
      SplitPrefix(p[1..], t, sep);
      assert (p + t)[1..] == p[1..] + t;
      var rest := Split(p[1..] + t, sep);
      assert rest == [p[1..] + tail[0]] + tail[1..];
      assert rest[0] == p[1..] + tail[0] && rest[1..] == tail[1..];
      assert Split(p + t, sep) == [[p[0]] + rest[0]] + rest[1..];
      assert [p[0]] + (p[1..] + tail[0]) == p + tail[0];
    }
  }

  /** Splitting a join of separator-free pieces gives back the pieces. */
  lemma {:induction false} SplitJoin(parts: seq<string>, sep: char)
    requires |parts| >= 1
    requires forall p <- parts :: sep !in p
    ensures Split(Join(parts, sep), sep) == parts
    decreases |parts|
  {
    if |parts| == 1 {
      SplitPrefix(parts[0], "", sep);
      assert parts[0] + "" == parts[0];
    } else {
      var tail := [sep] + Join(parts[1..], sep);
      SplitJoin(parts[1..], sep);
      assert Split(tail, sep) == [""] + parts[1..] by {
        assert tail[1..] == Join(parts[1..], sep);
      }
      assert Join(parts, sep) == parts[0] + tail;
      SplitPrefix(parts[0], tail, sep);
      assert parts[0] + "" == parts[0];
      assert parts == [parts[0]] + parts[1..];
    }
  }

  /** `s.split(sep).pop()`: the last piece of a split. */
  function LastSegment(s: string, sep: char): (last: string)
    ensures sep !in last
    ensures last in Split(s, sep)
  {
    var parts := Split(s, sep);
    parts[|parts| - 1]
  }

  /**
   * `last` is the longest separator-free suffix of `s`: it ends the string,
   * holds no separator, and is either the whole string or preceded by one.
   */
  ghost predicate IsLastSegment(s: string, last: string, sep: char)
  {
    |last| <= |s| && s[|s| - |last|..] == last && sep !in last &&
    (|last| < |s| ==> s[|s| - |last| - 1] == sep)
  }

  /** A last segment of `s[1..]` that does not reach its start is one of `s` too. */
  lemma SegmentExtends(s: string, last: string, sep: char)
    requires s != [] && IsLastSegment(s[1..], last, sep)
    requires |last| < |s| - 1 || s[0] == sep
    ensures IsLastSegment(s, last, sep)
  {
    assert s[|s| - |last|..] == s[1..][|s| - 1 - |last|..];
  }

  /** A string has only one last segment. */
  lemma LastSegmentUnique(s: string, a: string, b: string, sep: char)
    requires IsLastSegment(s, a, sep) && IsLastSegment(s, b, sep)
    ensures a == b
  {
  }

  /** How the last piece of `s` relates to the last piece of `s[1..]`. */
  lemma LastSegmentStep(s: string, sep: char)
    requires s != []
    ensures s[0] == sep || |Split(s[1..], sep)| > 1 ==> LastSegment(s, sep) == LastSegment(s[1..], sep)
    ensures s[0] != sep && |Split(s[1..], sep)| == 1 ==> LastSegment(s, sep) == s
  {
    var rest := Split(s[1..], sep);
    if s[0] != sep && |rest| == 1 {
      JoinSplit(s[1..], sep);
      assert [s[0]] + s[1..] == s;
    }
  }

  /** A string that splits into several pieces contains the separator. */
  lemma SeveralPiecesHaveSeparator(t: string, sep: char)
    requires |Split(t, sep)| > 1
    ensures sep in t
  {
    var parts := Split(t, sep);
    JoinSplit(t, sep);
    assert t == parts[0] + [sep] + Join(parts[1..], sep);
    assert t[|parts[0]|] == sep;
  }

  /** The last piece of a split is the string's last segment. */
  lemma {:induction false} LastSegmentIsSuffix(s: string, sep: char)
    ensures IsLastSegment(s, LastSegment(s, sep), sep)
    decreases |s|
  {
    if s != [] {
      var last := LastSegment(s, sep);
      LastSegmentIsSuffix(s[1..], sep);
      LastSegmentStep(s, sep);
      if s[0] == sep {
        SegmentExtends(s, last, sep);
      } else if |Split(s[1..], sep)| > 1 {
        SeveralPiecesHaveSeparator(s[1..], sep);
        assert |last| < |s| - 1;
        SegmentExtends(s, last, sep);
      }
    }
  }

  /** `toUpperCase` on one character, over the ASCII letters. */
  function UpperChar(c: char): char
  {
    if 'a' <= c <= 'z' then (c as int - 'a' as int + 'A' as int) as char else c
  }

  /** `s.toUpperCase()`, character by character. */
  function Upper(s: string): (r: string)
    ensures |r| == |s|
    ensures forall i :: 0 <= i < |s| ==> r[i] == UpperChar(s[i])
    ensures forall i :: 0 <= i < |r| ==> !('a' <= r[i] <= 'z')
  {
    seq(|s|, i requires 0 <= i < |s| => UpperChar(s[i]))
  }

  /** Upper-casing twice changes nothing more than upper-casing once. */
  lemma UpperIdempotent(s: string)
    ensures Upper(Upper(s)) == Upper(s)
  {
  }
}
