/** Python string operations the encoding pipeline relies on, with Python's
    semantics: `str.split(sep)` for a one-character separator, `sep.join(parts)`,
    `str.count(c)` for one character, and `str.strip()` with no argument. */
module PyStr {

  /** `s.split(sep)`: never empty; a separator at either end, or two
      separators in a row, yield an empty piece, and `"".split(sep)` is `[""]`. */
  function Split(s: string, sep: char): (r: seq<string>)
    ensures |r| >= 1
    decreases |s|
  {
    if |s| == 0 then [""]
    else
      var rest := Split(s[1..], sep);
      if s[0] == sep then [""] + rest
      else [[s[0]] + rest[0]] + rest[1..]
  }

  /** No piece of a split contains the separator. */
  lemma {:induction false} SplitPiecesWithoutSeparator(s: string, sep: char)
    ensures forall i :: 0 <= i < |Split(s, sep)| ==> sep !in Split(s, sep)[i]
    ensures forall w :: w in Split(s, sep) ==> sep !in w
    decreases |s|
  {
    if |s| > 0 {
      SplitPiecesWithoutSeparator(s[1..], sep);
      var rest := Split(s[1..], sep);
      if s[0] != sep {
        assert sep !in rest[0];
        var r := [[s[0]] + rest[0]] + rest[1..];
        assert forall i :: 1 <= i < |r| ==> r[i] == rest[i];
      }
    }
  }

  /** `sep.join(parts)` */
  function Join(parts: seq<string>, sep: string): string
    decreases |parts|
  {
    if |parts| == 0 then ""
    else if |parts| == 1 then parts[0]
    else parts[0] + sep + Join(parts[1..], sep)
  }

  /** `s.count(c)` for a one-character string `c`: at most the length of `s`,
      and zero exactly when `c` does not occur in `s`. */
  function Count(s: string, c: char): (r: nat)
    ensures r <= |s|
    ensures r == 0 <==> c !in s
    decreases |s|
  {
    if |s| == 0 then 0
    else (if s[0] == c then 1 else 0) + Count(s[1..], c)
  }

  /** The piece lists of every part, one after the other. */
  function SplitEach(parts: seq<string>, sep: char): seq<string>
    decreases |parts|
  {
    if |parts| == 0 then [] else Split(parts[0], sep) + SplitEach(parts[1..], sep)
  }

  /** The number of pieces is one more than the number of separators. */
  lemma {:induction false} SplitLength(s: string, sep: char)
    ensures |Split(s, sep)| == Count(s, sep) + 1
    decreases |s|
  {
    if |s| > 0 {
      SplitLength(s[1..], sep);
    }
  }

  /** A string without the separator is one piece. */
  lemma {:induction false} SplitNoSeparator(s: string, sep: char)
    requires sep !in s
    ensures Split(s, sep) == [s]
    decreases |s|
  {
    if |s| > 0 {
      assert sep !in s[1..];
      SplitNoSeparator(s[1..], sep);
      assert [s[0]] + s[1..] == s;
    }
  }

  /** Splitting a string by its first character. */
  lemma SplitFront(c: char, t: string, sep: char)
    ensures Split([c] + t, sep)
            == if c == sep then [""] + Split(t, sep) else [[c] + Split(t, sep)[0]] + Split(t, sep)[1..]
  {
    assert ([c] + t)[1..] == t;
  }

  /** Gluing a character onto the first piece commutes with appending more pieces. */
  lemma GlueFirstAppend(c: char, left: seq<string>, right: seq<string>)
    requires |left| >= 1
    ensures [[c] + (left + right)[0]] + (left + right)[1..] == ([[c] + left[0]] + left[1..]) + right
  {
    assert (left + right)[0] == left[0];
    assert (left + right)[1..] == left[1..] + right;
  }

  /** Splitting around one separator splits each side independently. */
  lemma {:induction false} SplitAround(a: string, sep: char, b: string)
    ensures Split(a + [sep] + b, sep) == Split(a, sep) + Split(b, sep)
    decreases |a|
  {
    if |a| == 0 {
      assert a + [sep] + b == [sep] + b;
      SplitFront(sep, b, sep);
    } else {
      var c, x := a[0], a + [sep] + b;
      assert x[0] == c && x[1..] == a[1..] + [sep] + b;
      SplitAround(a[1..], sep, b);
      if c == sep {
        assert [""] + (Split(a[1..], sep) + Split(b, sep)) == ([""] + Split(a[1..], sep)) + Split(b, sep);
      } else {
        GlueFirstAppend(c, Split(a[1..], sep), Split(b, sep));
      }
    }
  }

  /** Joining the pieces with the separator gives the string back. */
  lemma {:induction false} JoinSplit(s: string, sep: char)
    ensures Join(Split(s, sep), [sep]) == s
    decreases |s|
  {
    if |s| > 0 {
      JoinSplit(s[1..], sep);
      var rest := Split(s[1..], sep);
      if s[0] == sep {
        assert Join([""] + rest, [sep]) == "" + [sep] + Join(rest, [sep]);
        assert s == [sep] + s[1..];
      } else {
        var r := [[s[0]] + rest[0]] + rest[1..];
        if |rest| == 1 {
          assert Join(r, [sep]) == [s[0]] + rest[0];
          assert s == [s[0]] + s[1..];
        } else {
          assert r[1..] == rest[1..];
          assert Join(r, [sep]) == [s[0]] + rest[0] + [sep] + Join(rest[1..], [sep]);
          assert Join(rest, [sep]) == rest[0] + [sep] + Join(rest[1..], [sep]);
          assert s == [s[0]] + s[1..];
        }
      }
    }
  }

  /** Splitting a joined string gives the concatenation of the parts' pieces. */
  lemma {:induction false} SplitJoinEach(parts: seq<string>, sep: char)
    requires |parts| >= 1
    ensures Split(Join(parts, [sep]), sep) == SplitEach(parts, sep)
    decreases |parts|
  {
    if |parts| == 1 {
      assert SplitEach(parts[1..], sep) == [];
    } else {
      SplitJoinEach(parts[1..], sep);
      SplitAround(parts[0], sep, Join(parts[1..], [sep]));
    }
  }

  /** For a non-empty list whose parts contain no separator, split undoes join. */
  lemma {:induction false} SplitJoin(parts: seq<string>, sep: char)
    requires |parts| >= 1
    requires forall i :: 0 <= i < |parts| ==> sep !in parts[i]
    ensures Split(Join(parts, [sep]), sep) == parts
    decreases |parts|
  {
    SplitNoSeparator(parts[0], sep);
    if |parts| > 1 {
      SplitJoin(parts[1..], sep);
      SplitAround(parts[0], sep, Join(parts[1..], [sep]));
      assert parts == [parts[0]] + parts[1..];
    }
  }

  /** A join of no parts is empty; otherwise it starts with the first part
      and ends with the last. */
  lemma {:induction false} JoinEnds(parts: seq<string>, sep: string)
    ensures |parts| == 0 ==> Join(parts, sep) == ""
    ensures |parts| >= 1 ==> |Join(parts, sep)| >= |parts[0]| && Join(parts, sep)[..|parts[0]|] == parts[0]
    ensures |parts| >= 1 ==> var j, last := Join(parts, sep), parts[|parts| - 1];
              |j| >= |last| && j[|j| - |last|..] == last
    decreases |parts|
  {
    if |parts| == 1 {
      assert parts[0][0..] == parts[0];
    } else if |parts| > 1 {
      JoinEnds(parts[1..], sep);
      var rest := Join(parts[1..], sep);
      var j := Join(parts, sep);
      assert j == parts[0] + (sep + rest);
      assert j[|j| - |rest|..] == rest;
      assert parts[1..][|parts[1..]| - 1] == parts[|parts| - 1];
      JoinRestEnd(j, rest, parts[|parts| - 1]);
    }
  }

  /** A string that ends with `rest`, where `rest` ends with `last`, ends with `last`. */
  lemma JoinRestEnd(r: string, rest: string, last: string)
    requires |rest| <= |r| && r[|r| - |rest|..] == rest
    requires |last| <= |rest| && rest[|rest| - |last|..] == last
    ensures r[|r| - |last|..] == last
  {
    assert r[|r| - |last|..] == r[|r| - |rest|..][|rest| - |last|..];
  }

  /** Python's `str.isspace()` for one character: the Unicode white-space
      characters that `str.strip()` removes. */
  predicate IsSpace(c: char)
  {
    var n := c as int;
    (0x09 <= n <= 0x0D) || (0x1C <= n <= 0x20) || n == 0x85 || n == 0xA0 ||
    n == 0x1680 || (0x2000 <= n <= 0x200A) || n == 0x2028 || n == 0x2029 ||
    n == 0x202F || n == 0x205F || n == 0x3000
  }

  predicate AllSpace(s: string)
  {
    forall i :: 0 <= i < |s| ==> IsSpace(s[i])
  }

  /** `t` is what is left of `s` once the white space at its start is gone:
      a suffix of `s` that does not start with white space, after only white space. */
  predicate LeftTrimmed(s: string, t: string)
  {
    |t| <= |s| && t == s[|s| - |t|..] && AllSpace(s[..|s| - |t|]) && (t == [] || !IsSpace(t[0]))
  }

  /** `r` is what is left of `t` once the white space at its end is gone:
      a prefix of `t` that does not end with white space, before only white space. */
  predicate RightTrimmed(t: string, r: string)
  {
    |r| <= |t| && r == t[..|r|] && AllSpace(t[|r|..]) && (r == [] || !IsSpace(r[|r| - 1])) &&
    (r == [] ==> AllSpace(t))
  }

  /** `s.lstrip()` */
  function StripStart(s: string): (r: string)
    ensures LeftTrimmed(s, r)
    decreases |s|
  {
    if |s| > 0 && IsSpace(s[0]) then
      var r := StripStart(s[1..]);
      SpaceAtStart(s, r);
      r
    else
      assert s[..0] == [];
      s
  }

  /** Trimming one more white-space character off the start of `s`. */
  lemma SpaceAtStart(s: string, r: string)
    requires |s| > 0 && IsSpace(s[0]) && LeftTrimmed(s[1..], r)
    ensures LeftTrimmed(s, r)
  {
    assert s[..|s| - |r|] == [s[0]] + s[1..][..|s| - 1 - |r|];
  }

  /** `s.rstrip()` */
  function StripEnd(s: string): (r: string)
    ensures RightTrimmed(s, r)
    decreases |s|
  {
    if |s| > 0 && IsSpace(s[|s| - 1]) then
      var r := StripEnd(s[..|s| - 1]);
      SpaceAtEnd(s, r);
      r
    else
      assert s[|s|..] == [];
      s
  }

  /** Trimming one more white-space character off the end of `s`. */
  lemma SpaceAtEnd(s: string, r: string)
    requires |s| > 0 && IsSpace(s[|s| - 1]) && RightTrimmed(s[..|s| - 1], r)
    ensures RightTrimmed(s, r)
  {
    assert s[|r|..] == s[..|s| - 1][|r|..] + [s[|s| - 1]];
    if r == [] {
      assert s[|r|..] == s;
    }
  }

  /** `s.strip()`: `s` without the white space at either end (`rstrip` after
      `lstrip`, each characterised above). The result is a slice of `s` with
      only white space before and after it; it neither starts nor ends with
      white space, and it is empty exactly when `s` is all white space. */
  function Strip(s: string): (r: string)
    ensures r != [] ==> !IsSpace(r[0]) && !IsSpace(r[|r| - 1])
    ensures r == [] <==> AllSpace(s)
    ensures exists i :: TrimmedAt(s, r, i)
  {
    var t := StripStart(s);
    var r := StripEnd(t);
    StripBothEnds(s, t, r);
    r
  }

  /** `r` is the slice of `s` at offset `i`, with only white space before and after it. */
  predicate TrimmedAt(s: string, r: string, i: int)
  {
    0 <= i && i + |r| <= |s| && r == s[i..i + |r|] && AllSpace(s[..i]) && AllSpace(s[i + |r|..])
  }

  /** What `Strip` promises, from what `StripStart` and `StripEnd` promise. */
  lemma StripBothEnds(s: string, t: string, r: string)
    requires LeftTrimmed(s, t) && RightTrimmed(t, r)
    ensures r != [] ==> !IsSpace(r[0]) && !IsSpace(r[|r| - 1])
    ensures r == [] <==> AllSpace(s)
    ensures exists i :: TrimmedAt(s, r, i)
  {
    var n := |s| - |t|;
    TrimmedParts(s, t, r);
    if r == [] {
      assert t == [];
      assert s[..n] == s;
    } else {
      assert r[0] == t[0] == s[n];
    }
  }

  /** A string that ends where `lstrip` left off and starts what `rstrip`
      keeps is a slice of the input with white space around it. */
  lemma TrimmedParts(s: string, t: string, r: string)
    requires |t| <= |s| && t == s[|s| - |t|..] && AllSpace(s[..|s| - |t|])
    requires |r| <= |t| && r == t[..|r|] && AllSpace(t[|r|..])
    ensures TrimmedAt(s, r, |s| - |t|)
  {
    SliceOfSuffix(s, |s| - |t|, t, r);
  }

  /** A prefix of a suffix is a slice, and what follows it is the rest of the string. */
  lemma SliceOfSuffix(s: string, n: int, t: string, r: string)
    requires 0 <= n <= |s| && t == s[n..] && |r| <= |t| && r == t[..|r|]
    ensures n + |r| <= |s| && r == s[n..n + |r|] && t[|r|..] == s[n + |r|..]
  {
  }
}
