/**
 * The Foundation string operations the localizer relies on:
 * `components(separatedBy:)`, `joined(separator:)` and
 * `replacingOccurrences(of:with:)`, written out over `seq<char>`.
 */
module Text {

  /** The pieces of `s` between occurrences of `c`, as `components(separatedBy:)`
      returns them: always at least one piece, and no piece contains `c`. */
  function Split(s: string, c: char): (r: seq<string>)
    ensures |r| >= 1
    ensures forall i :: 0 <= i < |r| ==> c !in r[i]
    decreases |s|
  {
    if s == [] then [""]
    else
      var rest := Split(s[1..], c);
      if s[0] == c then [""] + rest
      else [[s[0]] + rest[0]] + rest[1..]
  }

  /** `parts.joined(separator: sep)`. */
  function Join(parts: seq<string>, sep: string): string
    decreases |parts|
  {
    if |parts| == 0 then ""
    else if |parts| == 1 then parts[0]
    else parts[0] + sep + Join(parts[1..], sep)
  }

  /** `pat` occurs somewhere in `s`. */
  predicate HasInfix(s: string, pat: string)
    decreases |s|
  {
    |pat| <= |s| && (s[..|pat|] == pat || (|s| > 0 && HasInfix(s[1..], pat)))
  }

  /** `s.replacingOccurrences(of: pat, with: rep)`: one left-to-right pass
      that replaces non-overlapping occurrences and never rescans what it
      has emitted. Every call site in the localizer passes a non-empty `pat`. */
  function ReplaceAll(s: string, pat: string, rep: string): string
    requires pat != []
    decreases |s|
  {
    if |s| < |pat| then s
    else if s[..|pat|] == pat then rep + ReplaceAll(s[|pat|..], pat, rep)
    else [s[0]] + ReplaceAll(s[1..], pat, rep)
  }

  /** Splitting and joining back with the same character gives the string back. */
  lemma {:induction false} JoinSplit(s: string, c: char)
    ensures Join(Split(s, c), [c]) == s
    decreases |s|
  {
    if s != [] {
      JoinSplit(s[1..], c);
      var rest := Split(s[1..], c);
      if s[0] == c {
        assert ([""] + rest)[1..] == rest;
      } else {
        var parts := [[s[0]] + rest[0]] + rest[1..];
        if |rest| > 1 {
          assert parts[1..] == rest[1..];
          assert Join(rest, [c]) == rest[0] + [c] + Join(rest[1..], [c]);
        }
        assert s == [s[0]] + s[1..];
      }
    }
  }

  /** Replacing a single character is the same as splitting on it and joining
      the pieces with the replacement. */
  lemma {:induction false} ReplaceCharIsJoin(s: string, c: char, rep: string)
    ensures ReplaceAll(s, [c], rep) == Join(Split(s, c), rep)
    decreases |s|
  {
    if s != [] {
      ReplaceCharIsJoin(s[1..], c, rep);
      var rest := Split(s[1..], c);
      assert s[..1] == [s[0]];
      if s[0] == c {
        assert ([""] + rest)[1..] == rest;
      } else {
        var parts := [[s[0]] + rest[0]] + rest[1..];
        if |rest| > 1 {
          assert parts[1..] == rest[1..];
          assert Join(rest, rep) == rest[0] + rep + Join(rest[1..], rep);
        }
      }
    }
  }

  /** Replacing a character by text that does not contain it removes it. */
  lemma {:induction false} ReplaceCharRemoves(s: string, c: char, rep: string)
    ensures c !in rep ==> c !in ReplaceAll(s, [c], rep)
    decreases |s|
  {
    if s != [] {
      ReplaceCharRemoves(s[1..], c, rep);
      assert s[..1] == [s[0]];
    }
  }

  /** Replacing a pattern that does not occur changes nothing. */
  lemma {:induction false} ReplaceAbsent(s: string, pat: string, rep: string)
    requires pat != []
    requires !HasInfix(s, pat)
    ensures ReplaceAll(s, pat, rep) == s
    decreases |s|
  {
    if |s| >= |pat| {
      ReplaceAbsent(s[1..], pat, rep);
      assert s == [s[0]] + s[1..];
    }
  }

  /** A pattern whose first character is not in `s` does not occur in `s`. */
  lemma {:induction false} NoHeadNoInfix(s: string, pat: string)
    requires pat != [] && pat[0] !in s
    ensures !HasInfix(s, pat)
    decreases |s|
  {
    if |pat| <= |s| {
      assert s[..|pat|][0] == s[0];
      NoHeadNoInfix(s[1..], pat);
    }
  }

  /** Splitting `a + [c] + b` where `a` has no `c`. */
  lemma {:induction false} SplitDecomposes(a: string, b: string, c: char)
    requires c !in a
    ensures Split(a + [c] + b, c) == [a] + Split(b, c)
    decreases |a|
  {
    if a == [] {
      assert a + [c] + b == [c] + b;
      assert ([c] + b)[1..] == b;
    } else {
      SplitDecomposes(a[1..], b, c);
      assert (a + [c] + b)[1..] == a[1..] + [c] + b;
      assert [a[0]] + a[1..] == a;
    }
  }

  /** A string without `c` is a single piece. */
  lemma {:induction false} SplitWithout(s: string, c: char)
    requires c !in s
    ensures Split(s, c) == [s]
    decreases |s|
  {
    if s != [] {
      SplitWithout(s[1..], c);
      assert [s[0]] + s[1..] == s;
    }
  }

  /** The first piece is the prefix of `s` up to the first `c`, or all of `s`. */
  lemma {:induction false} SplitHead(s: string, c: char)
    ensures Split(s, c)[0] <= s
    ensures |Split(s, c)[0]| == |s| || s[|Split(s, c)[0]|] == c
    decreases |s|
  {
    if s != [] && s[0] != c {
      SplitHead(s[1..], c);
      var h := Split(s[1..], c)[0];
      assert Split(s, c)[0] == [s[0]] + h;
      assert s == [s[0]] + s[1..];
    }
  }

  /** A prefix that does not contain the pattern's first character is copied
      through unchanged. */
  lemma {:induction false} ReplaceSkipsPrefix(a: string, t: string, pat: string, rep: string)
    requires pat != [] && pat[0] !in a
    ensures ReplaceAll(a + t, pat, rep) == a + ReplaceAll(t, pat, rep)
    decreases |a|
  {
    if a != [] {
      var s := a + t;
      assert s[1..] == a[1..] + t;
      ReplaceSkipsPrefix(a[1..], t, pat, rep);
      if |s| >= |pat| {
        assert a[0] in a && s[..|pat|][0] == a[0];
        assert ReplaceAll(s, pat, rep) == [a[0]] + ReplaceAll(a[1..] + t, pat, rep);
        assert [a[0]] + (a[1..] + ReplaceAll(t, pat, rep)) == a + ReplaceAll(t, pat, rep);
        assert ReplaceAll(s, pat, rep) == a + ReplaceAll(t, pat, rep);
      } else {
        assert ReplaceAll(t, pat, rep) == t;
        assert ReplaceAll(s, pat, rep) == s;
      }
    } else {
      assert a + t == t;
      assert a + ReplaceAll(t, pat, rep) == ReplaceAll(t, pat, rep);
    }
  }
}
