/** The string operations the output tab relies on: Python's substring test
    `p in s`, `s.split(sep)` with a one-character separator, and taking the
    last field of such a split. */
module Text {

  /** `p` occurs in `s` starting at index `i`. */
  ghost predicate OccursAt(s: string, p: string, i: int)
  {
    0 <= i && i + |p| <= |s| && s[i..i + |p|] == p
  }

  predicate IsPrefix(p: string, s: string)
  {
    |p| <= |s| && s[..|p|] == p
  }

  /** Python's `p in s`. */
  function Contains(s: string, p: string): bool
    decreases |s|
  {
    if IsPrefix(p, s) then true
    else if |s| == 0 then false
    else Contains(s[1..], p)
  }

  /** `Contains` is true exactly when `p` occurs at some index of `s`. */
  lemma {:induction false} ContainsOccurs(s: string, p: string)
    ensures Contains(s, p) <==> exists i :: OccursAt(s, p, i)
    decreases |s|
  {
    if IsPrefix(p, s) {
      assert OccursAt(s, p, 0);
    } else if |s| == 0 {
      assert forall i :: !OccursAt(s, p, i);
    } else {
      ContainsOccurs(s[1..], p);
      assert forall i :: OccursAt(s[1..], p, i) ==> OccursAt(s, p, i + 1) by {
        forall i | OccursAt(s[1..], p, i) ensures OccursAt(s, p, i + 1) {
          assert s[1..][i..i + |p|] == s[i + 1..i + 1 + |p|];
        }
      }
      assert forall i :: OccursAt(s, p, i) ==> i == 0 || OccursAt(s[1..], p, i - 1) by {
        forall i | OccursAt(s, p, i) && i != 0 ensures OccursAt(s[1..], p, i - 1) {
          assert s[1..][i - 1..i - 1 + |p|] == s[i..i + |p|];
        }
      }
    }
  }

  /** Python's `s.split(sep)` for a one-character separator: the pieces of `s`
      between consecutive separators, empty pieces included. */
  function Split(s: string, sep: char): (parts: seq<string>)
    ensures |parts| >= 1
    ensures forall k :: 0 <= k < |parts| ==> sep !in parts[k]
    decreases |s|
  {
    if |s| == 0 then [""]
    else
      var rest := Split(s[1..], sep);
      if s[0] == sep then [""] + rest
      else [[s[0]] + rest[0]] + rest[1..]
  }

  /** Python's `sep.join(parts)`. */
  function Join(parts: seq<string>, sep: char): string
    requires |parts| >= 1
    decreases |parts|
  {
    if |parts| == 1 then parts[0] else parts[0] + [sep] + Join(parts[1..], sep)
  }

  /** Splitting and joining again gives back the original string. */
  lemma {:induction false} JoinSplit(s: string, sep: char)
    ensures Join(Split(s, sep), sep) == s
    decreases |s|
  {
    if |s| != 0 {
      var rest := Split(s[1..], sep);
      JoinSplit(s[1..], sep);
      if s[0] != sep {
        var parts := Split(s, sep);
        assert parts[0] == [s[0]] + rest[0];
        if |rest| == 1 {
          assert Join(parts, sep) == [s[0]] + rest[0];
          assert s == [s[0]] + s[1..];
        } else {
          assert parts[1..] == rest[1..];
          calc {
            Join(parts, sep);
            parts[0] + [sep] + Join(rest[1..], sep);
            [s[0]] + (rest[0] + [sep] + Join(rest[1..], sep));
            [s[0]] + Join(rest, sep);
            [s[0]] + s[1..];
          }
        }
      } else {
        assert Split(s, sep)[1..] == rest;
        assert s == [sep] + s[1..];
      }
    }
  }

  /** Joining pieces that contain no separator and splitting again gives back
      the pieces: `Split` is the inverse of `Join` on separator-free pieces. */
  lemma {:induction false} SplitJoin(parts: seq<string>, sep: char)
    requires |parts| >= 1
    requires forall k :: 0 <= k < |parts| ==> sep !in parts[k]
    ensures Split(Join(parts, sep), sep) == parts
    decreases |parts|
  {
    if |parts| == 1 {
      SplitAfterFree(parts[0], "", sep);
      assert parts[0] + "" == parts[0];
    } else {
      var rest := parts[1..];
      var t := [sep] + Join(rest, sep);
      SplitJoin(rest, sep);
      assert t[1..] == Join(rest, sep);
      assert Split(t, sep) == [""] + rest;
      assert Join(parts, sep) == parts[0] + t;
      SplitAfterFree(parts[0], t, sep);
      assert parts[0] + "" == parts[0];
      assert [parts[0]] + rest == parts;
    }
  }

  /** A separator-free prefix glues onto the first piece of what follows. */
  lemma {:induction false} SplitAfterFree(a: string, t: string, sep: char)
    requires sep !in a
    ensures Split(a + t, sep) == [a + Split(t, sep)[0]] + Split(t, sep)[1..]
    decreases |a|
  {
    var pt := Split(t, sep);
    if |a| == 0 {
      assert a + t == t;
      assert a + pt[0] == pt[0];
      assert [pt[0]] + pt[1..] == pt;
    } else {
      assert sep !in a[1..];
      SplitAfterFree(a[1..], t, sep);
      assert (a + t)[1..] == a[1..] + t;
      var rest := Split(a[1..] + t, sep);
      assert rest[0] == a[1..] + pt[0] && rest[1..] == pt[1..];
      assert (a + t)[0] == a[0] && a[0] != sep;
      assert Split(a + t, sep) == [[a[0]] + rest[0]] + rest[1..];
      assert [a[0]] + (a[1..] + pt[0]) == a + pt[0];
    }
  }

  /** Python's `s.split(sep)[-1]`: the text after the last separator, or the
      whole string when there is none. It is the longest separator-free
      suffix of `s`. */
  function LastField(s: string, sep: char): (r: string)
    ensures sep !in r
    ensures |r| <= |s| && s[|s| - |r|..] == r
    ensures |r| < |s| ==> s[|s| - |r| - 1] == sep
    decreases |s|
  {
    if |s| == 0 then ""
    else if s[|s| - 1] == sep then ""
    else
      var r := LastField(s[..|s| - 1], sep);
      assert s[..|s| - 1][|s| - 1 - |r|..] == s[|s| - 1 - |r|..|s| - 1];
      assert s[|s| - 1 - |r|..] == s[|s| - 1 - |r|..|s| - 1] + [s[|s| - 1]];
      r + [s[|s| - 1]]
  }

  /** `LastField` is the last piece that `Split` produces. */
  lemma {:induction false} LastFieldIsLastPiece(s: string, sep: char)
    ensures LastField(s, sep) == Split(s, sep)[|Split(s, sep)| - 1]
  {
    var parts := Split(s, sep);
    var last := parts[|parts| - 1];
    var r := LastField(s, sep);
    JoinSplit(s, sep);
    JoinEndsWithLast(parts, sep);
    JoinBeforeLast(parts, sep);
  }

  lemma {:induction false} JoinEndsWithLast(parts: seq<string>, sep: char)
    requires |parts| >= 1
    ensures var j := Join(parts, sep); var last := parts[|parts| - 1];
      |last| <= |j| && j[|j| - |last|..] == last
    decreases |parts|
  {
    if |parts| > 1 {
      JoinEndsWithLast(parts[1..], sep);
      var t := Join(parts[1..], sep);
      var j := Join(parts, sep);
      assert j == parts[0] + [sep] + t;
      assert j[|j| - |t|..] == t;
    }
  }

  lemma {:induction false} JoinBeforeLast(parts: seq<string>, sep: char)
    requires |parts| >= 1
    ensures var j := Join(parts, sep); var last := parts[|parts| - 1];
      |last| < |j| ==> j[|j| - |last| - 1] == sep
    decreases |parts|
  {
    if |parts| > 1 {
      JoinBeforeLast(parts[1..], sep);
      JoinEndsWithLast(parts[1..], sep);
      var t := Join(parts[1..], sep);
      var j := Join(parts, sep);
      assert j == parts[0] + [sep] + t;
      assert j[|j| - |t| - 1] == sep;
    } else {
      assert Join(parts, sep) == parts[0];
    }
  }
}
