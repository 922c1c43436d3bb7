/** String helpers with the meaning Python gives them: `sep.join(parts)`,
    `s.split(sep)` on a one-character separator, and substring containment. */
module Strings {

  /** `needle` occurs as a contiguous block of `hay` (Python's `needle in hay`). */
  predicate IsInfix(needle: string, hay: string)
  {
    exists k :: 0 <= k <= |hay| && needle <= hay[k..]
  }

  lemma InfixOfConcat(a: string, b: string, c: string)
    ensures IsInfix(b, a + b + c)
  {
    assert (a + b + c)[|a|..] == b + c;
  }

  lemma InfixTransitive(x: string, y: string, z: string)
    requires IsInfix(x, y) && IsInfix(y, z)
    ensures IsInfix(x, z)
  {
    var i :| 0 <= i <= |y| && x <= y[i..];
    var j :| 0 <= j <= |z| && y <= z[j..];
    forall m | 0 <= m < |x|
      ensures z[j + i..][m] == x[m]
    {
      assert y[i..][m] == x[m];
      assert z[j..][i + m] == y[i + m];
    }
    assert x <= z[j + i..];
  }

  /** Python's `sep.join(parts)`: the parts in order, `sep` between neighbours.
      A non-empty join starts with the first part. */
  function Join(parts: seq<string>, sep: string): (joined: string)
    ensures |parts| > 0 ==> parts[0] <= joined
  {
    if |parts| == 0 then ""
    else if |parts| == 1 then parts[0]
    else parts[0] + sep + Join(parts[1..], sep)
  }

  /** Every part survives joining as a block of the result. */
  lemma {:induction false} JoinKeepsParts(parts: seq<string>, sep: string)
    ensures forall i :: 0 <= i < |parts| ==> IsInfix(parts[i], Join(parts, sep))
  {
    if |parts| == 1 {
      InfixOfConcat("", parts[0], "");
      assert "" + parts[0] + "" == Join(parts, sep);
    } else if |parts| > 1 {
      var tail := Join(parts[1..], sep);
      JoinKeepsParts(parts[1..], sep);
      forall i | 0 <= i < |parts|
        ensures IsInfix(parts[i], Join(parts, sep))
      {
        if i == 0 {
          InfixOfConcat("", parts[0], sep + tail);
          assert "" + parts[0] + (sep + tail) == Join(parts, sep);
        } else {
          assert parts[1..][i - 1] == parts[i];
          InfixOfConcat(parts[0] + sep, tail, "");
          assert parts[0] + sep + tail + "" == Join(parts, sep);
          InfixTransitive(parts[i], tail, Join(parts, sep));
        }
      }
    }
  }

  /** Python's `s.split(sep)` for a one-character separator: the maximal
      separator-free pieces, left to right. There is always at least one piece. */
  function Split(s: string, sep: char): (parts: seq<string>)
    ensures |parts| >= 1
    ensures forall i :: 0 <= i < |parts| ==> sep !in parts[i]
    decreases |s|
  {
    if |s| == 0 then [""]
    else
      var rest := Split(s[1..], sep);
      if s[0] == sep then [""] + rest
      else [[s[0]] + rest[0]] + rest[1..]
  }

  /** A separator-free string splits into itself alone. */
  lemma {:induction false} SplitWithoutSeparator(s: string, sep: char)
    requires sep !in s
    ensures Split(s, sep) == [s]
    decreases |s|
  {
    if |s| > 0 {
      SplitWithoutSeparator(s[1..], sep);
      assert [s[0]] + s[1..] == s;
    }
  }

  /** Splitting distributes over a separator: `(a + sep + b).split(sep) == a.split(sep) + b.split(sep)`. */
  lemma {:induction false} SplitAtSeparator(a: string, b: string, sep: char)
    ensures Split(a + [sep] + b, sep) == Split(a, sep) + Split(b, sep)
    decreases |a|
  {
    var s := a + [sep] + b;
    if |a| == 0 {
      assert s == [sep] + b;
      assert s[1..] == b;
    } else {
      assert s[1..] == a[1..] + [sep] + b;
      SplitAtSeparator(a[1..], b, sep);
    }
  }

  /** Joining the pieces of a split with the same separator gives the string back. */
  lemma {:induction false} JoinSplit(s: string, sep: char)
    ensures Join(Split(s, sep), [sep]) == s
    decreases |s|
  {
    if |s| > 0 {
      var rest := Split(s[1..], sep);
      JoinSplit(s[1..], sep);
      if s[0] == sep {
        assert ([""] + rest)[1..] == rest;
        assert s == [sep] + s[1..];
      } else if |rest| == 1 {
        assert s == [s[0]] + s[1..];
      } else {
        var parts := [[s[0]] + rest[0]] + rest[1..];
        assert parts[1..] == rest[1..];
        assert Join(parts, [sep]) == [s[0]] + rest[0] + [sep] + Join(rest[1..], [sep]);
        assert s == [s[0]] + s[1..];
      }
    }
  }

  /** Splitting a join of separator-free pieces gives the pieces back. */
  lemma {:induction false} SplitJoin(parts: seq<string>, sep: char)
    requires |parts| >= 1
    requires forall i :: 0 <= i < |parts| ==> sep !in parts[i]
    ensures Split(Join(parts, [sep]), sep) == parts
    decreases |parts|
  {
    SplitWithoutSeparator(parts[0], sep);
    if |parts| > 1 {
      SplitJoin(parts[1..], sep);
      SplitAtSeparator(parts[0], Join(parts[1..], [sep]), sep);
      assert [parts[0]] + parts[1..] == parts;
    }
  }

  /** Index of the last occurrence of `c` in `s`, or -1 (Python's `s.rfind(c)`). */
  function LastIndexOf(s: string, c: char): (k: int)
    ensures -1 <= k < |s|
    ensures 0 <= k ==> s[k] == c
    ensures forall i :: k < i < |s| ==> s[i] != c
    decreases |s|
  {
    if |s| == 0 then -1
    else if s[|s| - 1] == c then |s| - 1
    else
      var k := LastIndexOf(s[..|s| - 1], c);
      assert forall i :: k < i < |s| - 1 ==> s[..|s| - 1][i] == s[i];
      k
  }

  lemma NoneAfterLastIndex(s: string, c: char)
    ensures c !in s[LastIndexOf(s, c) + 1..]
  {
    var k := LastIndexOf(s, c);
    var rest := s[k + 1..];
    forall i | 0 <= i < |rest| ensures rest[i] != c {
      assert rest[i] == s[k + 1 + i];
    }
  }
}
