/** The handful of Python `str` operations the scripts use, on `seq<char>`. */
module Text {

  /** The characters Python's `str.isspace()` accepts, which `str.strip()` removes. */
  predicate IsSpace(c: char) {
    var n := c as int;
    n == 0x20 || 0x09 <= n <= 0x0D || 0x1C <= n <= 0x1F || n == 0x85 || n == 0xA0
    || n == 0x1680 || 0x2000 <= n <= 0x200A || n == 0x2028 || n == 0x2029
    || n == 0x202F || n == 0x205F || n == 0x3000
  }

  /** `s.lstrip()`: drops leading whitespace. */
  function StripStart(s: string): (r: string)
    ensures |r| <= |s| && r == s[|s| - |r|..]
    ensures r == "" || !IsSpace(r[0])
    ensures forall i :: 0 <= i < |s| - |r| ==> IsSpace(s[i])
  {
    if s != [] && IsSpace(s[0]) then StripStart(s[1..]) else s
  }

  /** `s.rstrip()`: drops trailing whitespace. */
  function StripEnd(s: string): (r: string)
    ensures |r| <= |s| && r == s[..|r|]
    ensures r == "" || !IsSpace(r[|r| - 1])
    ensures forall i :: |r| <= i < |s| ==> IsSpace(s[i])
  {
    if s != [] && IsSpace(s[|s| - 1]) then StripEnd(s[..|s| - 1]) else s
  }

  /** `r` is the slice of `s` starting at `k`, and only whitespace of `s` lies outside it. */
  predicate Trims(s: string, r: string, k: int) {
    && 0 <= k <= |s| - |r|
    && r == s[k..k + |r|]
    && (forall i :: 0 <= i < k ==> IsSpace(s[i]))
    && (forall i :: k + |r| <= i < |s| ==> IsSpace(s[i]))
  }

  /** `s.strip()`: the input with its leading and trailing whitespace removed. */
  function Strip(s: string): (r: string)
    ensures r == "" || (!IsSpace(r[0]) && !IsSpace(r[|r| - 1]))
  {
    StripEnd(StripStart(s))
  }

  /** The stripped text is the slice of `s` after its leading whitespace, with only whitespace after it. */
  lemma StripTrims(s: string)
    ensures Trims(s, Strip(s), |s| - |StripStart(s)|)
  {
    var a := StripStart(s);
    var r := StripEnd(a);
    var k := |s| - |a|;
    assert Strip(s) == r;
    PrefixOfSuffix(s, a, r, k);
    TrailingSpaces(s, a, r, k);
    assert forall i :: 0 <= i < k ==> IsSpace(s[i]);
    TrimsIntro(s, r, k);
  }

  lemma TrimsIntro(s: string, r: string, k: int)
    requires 0 <= k <= |s| - |r|
    requires r == s[k..k + |r|]
    requires forall i :: 0 <= i < k ==> IsSpace(s[i])
    requires forall i :: k + |r| <= i < |s| ==> IsSpace(s[i])
    ensures Trims(s, r, k)
  {
  }

  lemma PrefixOfSuffix(s: string, a: string, r: string, k: int)
    requires 0 <= k <= |s| && a == s[k..] && |r| <= |a| && r == a[..|r|]
    ensures r == s[k..k + |r|]
  {
  }

  lemma TrailingSpaces(s: string, a: string, r: string, k: int)
    requires 0 <= k <= |s| && a == s[k..] && |r| <= |a|
    requires forall i :: |r| <= i < |a| ==> IsSpace(a[i])
    ensures forall i :: k + |r| <= i < |s| ==> IsSpace(s[i])
  {
    forall i | k + |r| <= i < |s|
      ensures IsSpace(s[i])
    {
      assert s[i] == a[i - k];
    }
  }

  /** Strip is the only trim of `s` with no whitespace at either end: any other such slice is `Strip(s)`. */
  lemma StripUnique(s: string, t: string, k: int)
    requires Trims(s, t, k)
    requires t == "" || (!IsSpace(t[0]) && !IsSpace(t[|t| - 1]))
    ensures t == Strip(s)
  {
    var r := Strip(s);
    var j := |s| - |StripStart(s)|;
    StripTrims(s);
    if t == "" {
      TrimsAllSpace(s, k);
    } else {
      NonSpaceEnds(s, t, k);
    }
    if r == "" {
      TrimsAllSpace(s, j);
    } else {
      NonSpaceEnds(s, r, j);
    }
    if t != "" && r != "" {
      assert k == j && |t| == |r|;
    }
  }

  /** The empty trim leaves only whitespace outside it, so `s` is all whitespace. */
  lemma TrimsAllSpace(s: string, k: int)
    requires Trims(s, "", k)
    ensures forall i :: 0 <= i < |s| ==> IsSpace(s[i])
  {
  }

  /** A trim's ends sit at the first and last non-space characters of `s`. */
  lemma NonSpaceEnds(s: string, t: string, k: int)
    requires Trims(s, t, k) && t != "" && !IsSpace(t[0]) && !IsSpace(t[|t| - 1])
    ensures !IsSpace(s[k]) && !IsSpace(s[k + |t| - 1])
    ensures forall i :: 0 <= i < k ==> IsSpace(s[i])
    ensures forall i :: k + |t| <= i < |s| ==> IsSpace(s[i])
  {
    assert s[k] == t[0] && s[k + |t| - 1] == t[|t| - 1];
  }

  /** Stripping only removes characters. */
  lemma StripWithin(s: string, c: char)
    requires c in Strip(s)
    ensures c in s
  {
    var a := StripStart(s);
    var i :| 0 <= i < |Strip(s)| && Strip(s)[i] == c;
    assert a[i] == c;
    assert s[|s| - |a| + i] == c;
  }

  /** Stripping keeps every character that is not whitespace. */
  lemma StripKeeps(s: string, c: char)
    requires c in s && !IsSpace(c)
    ensures c in Strip(s)
  {
    var a := StripStart(s);
    var r := StripEnd(a);
    var k := |s| - |a|;
    var i :| 0 <= i < |s| && s[i] == c;
    assert k <= i;
    assert a[i - k] == c;
    assert i - k < |r|;
    assert r[i - k] == c;
  }

  /** A string without whitespace at either end strips to itself. */
  lemma StripBare(s: string)
    requires s == "" || (!IsSpace(s[0]) && !IsSpace(s[|s| - 1]))
    ensures Strip(s) == s
  {
    assert StripStart(s) == s;
  }

  /** A stripped string strips to itself. */
  lemma StripStripped(s: string)
    ensures Strip(Strip(s)) == Strip(s)
  {
    var r := Strip(s);
    if r != "" {
      assert StripStart(r) == r;
      assert StripEnd(r) == r;
    }
  }

  /** `s.lower()`, for ASCII letters. */
  function LowerChar(c: char): (r: char)
    ensures 'A' <= c <= 'Z' ==> r as int == c as int + 32
    ensures !('A' <= c <= 'Z') ==> r == c
  {
    if 'A' <= c <= 'Z' then (c as int + 32) as char else c
  }

  function Lower(s: string): (r: string)
    ensures |r| == |s| && forall i :: 0 <= i < |s| ==> r[i] == LowerChar(s[i])
  {
    if s == [] then [] else [LowerChar(s[0])] + Lower(s[1..])
  }

  /** Lowering keeps the length, so texts of another length never lower to `t`. */
  lemma LowerLength(s: string, t: string)
    requires |s| != |t|
    ensures Lower(s) != t
  {
    assert |Lower(s)| == |s|;
  }

  /** `s.startswith(p)`. */
  predicate StartsWith(s: string, p: string) {
    |p| <= |s| && s[..|p|] == p
  }

  /** Number of occurrences of `c` in `s`. */
  function Occurrences(s: string, c: char): nat {
    if s == [] then 0 else (if s[0] == c then 1 else 0) + Occurrences(s[1..], c)
  }

  /** `s.split(sep)` for a one-character separator: the pieces between separators. */
  function Split(s: string, sep: char): (r: seq<string>)
    ensures |r| >= 1
    ensures forall i :: 0 <= i < |r| ==> sep !in r[i]
    decreases |s|
  {
    if s == [] then [""]
    else
      var rest := Split(s[1..], sep);
      if s[0] == sep then [""] + rest else [[s[0]] + rest[0]] + rest[1..]
  }

  /** `sep.join(xs)`. */
  function Join(xs: seq<string>, sep: string): string {
    if xs == [] then ""
    else if |xs| == 1 then xs[0]
    else xs[0] + sep + Join(xs[1..], sep)
  }

  /** Joining the pieces of a split with the separator gives the string back. */
  lemma {:induction false} JoinSplit(s: string, sep: char)
    ensures Join(Split(s, sep), [sep]) == s
    decreases |s|
  {
    if s != [] {
      var rest := Split(s[1..], sep);
      JoinSplit(s[1..], sep);
      if s[0] == sep {
        assert Join([""] + rest, [sep]) == "" + [sep] + Join(rest, [sep]);
        assert s == [s[0]] + s[1..];
      } else {
        var r := [[s[0]] + rest[0]] + rest[1..];
        if |rest| == 1 {
          assert Join(r, [sep]) == [s[0]] + rest[0];
          assert Join(rest, [sep]) == rest[0];
        } else {
          assert Join(r, [sep]) == [s[0]] + rest[0] + [sep] + Join(rest[1..], [sep]);
          assert Join(rest, [sep]) == rest[0] + [sep] + Join(rest[1..], [sep]);
        }
        assert s == [s[0]] + s[1..];
      }
    }
  }

  /** A split has one more piece than the string has separators. */
  lemma {:induction false} SplitLength(s: string, sep: char)
    ensures |Split(s, sep)| == Occurrences(s, sep) + 1
    decreases |s|
  {
    if s != [] {
      SplitLength(s[1..], sep);
    }
  }

  lemma {:induction false} OccurrencesAppend(a: string, b: string, c: char)
    ensures Occurrences(a + b, c) == Occurrences(a, c) + Occurrences(b, c)
    decreases |a|
  {
    if a != [] {
      assert (a + b)[0] == a[0] && (a + b)[1..] == a[1..] + b;
      OccurrencesAppend(a[1..], b, c);
    } else {
      assert a + b == b;
    }
  }

  /** `c` occurs in `s` exactly when it is counted at least once. */
  lemma {:induction false} OccurrencesZero(s: string, c: char)
    ensures Occurrences(s, c) == 0 <==> c !in s
    decreases |s|
  {
    if s != [] {
      OccurrencesZero(s[1..], c);
      assert s == [s[0]] + s[1..];
    }
  }

  lemma {:induction false} OccurrencesAbsent(s: string, c: char)
    requires c !in s
    ensures Occurrences(s, c) == 0
    decreases |s|
  {
    if s != [] {
      OccurrencesAbsent(s[1..], c);
    }
  }

  /** Splitting a `", "`-joined list of comma-free items on `','` gives one piece per item. */
  lemma SplitJoinCount(xs: seq<string>)
    requires xs != []
    requires forall i :: 0 <= i < |xs| ==> ',' !in xs[i]
    ensures |Split(Join(xs, ", "), ',')| == |xs|
  {
    JoinOccurrences(xs, ',');
    SplitLength(Join(xs, ", "), ',');
  }

  lemma {:induction false} JoinOccurrences(xs: seq<string>, sep: char)
    requires xs != [] && sep != ' '
    requires forall i :: 0 <= i < |xs| ==> sep !in xs[i]
    ensures Occurrences(Join(xs, [sep, ' ']), sep) == |xs| - 1
    decreases |xs|
  {
    OccurrencesAbsent(xs[0], sep);
    if |xs| > 1 {
      JoinOccurrences(xs[1..], sep);
      var tail := Join(xs[1..], [sep, ' ']);
      OccurrencesAppend(xs[0] + [sep, ' '], tail, sep);
      OccurrencesAppend(xs[0], [sep, ' '], sep);
      assert Occurrences([sep, ' '], sep) == 1 by {
        assert [sep, ' '][1..] == [' '];
        assert Occurrences([' '], sep) == 0 by {
          assert [' '][1..] == [];
        }
      }
    }
  }

  /** `s` with every `c` removed. */
  function Without(s: string, c: char): (r: string)
    ensures c !in r && |r| <= |s|
  {
    if s == [] then "" else (if s[0] == c then "" else [s[0]]) + Without(s[1..], c)
  }

  /** Splitting at the first separator: the piece before it, then the split of the rest. */
  lemma {:induction false} SplitAtFirst(a: string, b: string, sep: char)
    requires sep !in a
    ensures Split(a + [sep] + b, sep) == [a] + Split(b, sep)
    decreases |a|
  {
    var s := a + [sep] + b;
    if a == [] {
      assert s[1..] == b;
    } else {
      assert s[0] == a[0] && s[1..] == a[1..] + [sep] + b;
      SplitAtFirst(a[1..], b, sep);
      assert [a[0]] + a[1..] == a;
    }
  }

  /** `"".join(s.split(sep))` drops the separators and keeps everything else in order. */
  lemma {:induction false} JoinSplitWithout(s: string, sep: char)
    ensures Join(Split(s, sep), "") == Without(s, sep)
    decreases |s|
  {
    if s != [] {
      var rest := Split(s[1..], sep);
      JoinSplitWithout(s[1..], sep);
      assert Without(s, sep) == (if s[0] == sep then "" else [s[0]]) + Join(rest, "");
      if s[0] == sep {
        assert Split(s, sep) == [""] + rest;
        JoinEmptyCons(rest);
      } else {
        assert Split(s, sep) == [[s[0]] + rest[0]] + rest[1..];
        JoinEmptyCons(rest);
        JoinEmptyCons([[s[0]] + rest[0]] + rest[1..]);
      }
    }
  }

  /** `"".join` of a non-empty list is its head followed by the join of its tail. */
  lemma JoinEmptyCons(xs: seq<string>)
    requires xs != []
    ensures Join(xs, "") == xs[0] + Join(xs[1..], "")
  {
    if |xs| == 1 {
      assert xs[0] + "" == xs[0];
    }
  }
}
