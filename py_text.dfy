/** The Python string operations the scripts rely on: `str.strip()`,
    `str.lower()`, `str.startswith`, and `split("\n")` / `"\n".join`. */
module PyText {

  /** The characters for which Python's `str.isspace()` holds, which are the
      ones `str.strip()` with no argument removes. */
  predicate IsSpace(c: char) {
    var n := c as int;
    (9 <= n <= 13) || (28 <= n <= 32) || n == 0x85 || n == 0xA0 || n == 0x1680
    || (0x2000 <= n <= 0x200A) || n == 0x2028 || n == 0x2029 || n == 0x202F
    || n == 0x205F || n == 0x3000
  }

  predicate AllSpace(s: string) {
    forall k {:trigger IsSpace(s[k])} :: 0 <= k < |s| ==> IsSpace(s[k])
  }

  /** Number of leading whitespace characters of `s`. */
  function LeadingSpace(s: string): (n: nat)
    ensures n <= |s|
    ensures forall k {:trigger IsSpace(s[k])} :: 0 <= k < n ==> IsSpace(s[k])
    ensures n < |s| ==> !IsSpace(s[n])
  {
    if |s| == 0 || !IsSpace(s[0]) then 0 else 1 + LeadingSpace(s[1..])
  }

  /** Number of trailing whitespace characters of `s`. */
  function TrailingSpace(s: string): (n: nat)
    ensures n <= |s|
    ensures forall k {:trigger IsSpace(s[k])} :: |s| - n <= k < |s| ==> IsSpace(s[k])
    ensures n < |s| ==> !IsSpace(s[|s| - 1 - n])
  {
    if |s| == 0 || !IsSpace(s[|s| - 1]) then 0 else 1 + TrailingSpace(s[..|s| - 1])
  }

  /** `r` is `s[i..]` cut short, and everything of `s` around it is whitespace. */
  predicate Trimmed(s: string, r: string, i: int) {
    0 <= i <= |s| - |r| && s[i..i + |r|] == r && AllSpace(s[..i]) && AllSpace(s[i + |r|..])
  }

  /** `s.strip()`: `s` without its leading and trailing whitespace. */
  function Strip(s: string): (r: string)
    ensures |r| <= |s|
  {
    var i := LeadingSpace(s);
    var t := s[i..];
    t[..|t| - TrailingSpace(t)]
  }

  lemma LeadingIsSpace(s: string)
    ensures AllSpace(s[..LeadingSpace(s)])
  {
    var n := LeadingSpace(s);
    forall k | 0 <= k < n ensures IsSpace(s[..n][k]) {
      assert s[..n][k] == s[k];
    }
  }

  lemma TrailingIsSpace(s: string)
    ensures AllSpace(s[|s| - TrailingSpace(s)..])
  {
    var n := TrailingSpace(s);
    var u := s[|s| - n..];
    forall k | 0 <= k < |u| ensures IsSpace(u[k]) {
      assert u[k] == s[|s| - n + k];
    }
  }

  /** `Strip(s)` is a cut of `s` with only whitespace around it and no
      whitespace at either end. */
  lemma StripTrims(s: string)
    ensures var r := Strip(s); r != [] ==> !IsSpace(r[0]) && !IsSpace(r[|r| - 1])
    ensures exists i :: Trimmed(s, Strip(s), i)
  {
    var i := LeadingSpace(s);
    var t := s[i..];
    var j := TrailingSpace(t);
    var r := t[..|t| - j];
    assert r == Strip(s);
    assert r != [] ==> !IsSpace(r[0]) && !IsSpace(r[|r| - 1]) by {
      if r != [] {
        assert r[0] == s[i];
        assert r[|r| - 1] == t[|t| - 1 - j];
      }
    }
    assert Trimmed(s, r, i) by {
      LeadingIsSpace(s);
      TrailingIsSpace(t);
      assert s[i..i + |r|] == r;
      assert s[i + |r|..] == t[|t| - j..];
    }
  }

  /** `Strip` removes exactly the surrounding whitespace: any cut of `s` with
      only whitespace around it and no whitespace at its ends is `Strip(s)`. */
  lemma StripCharacterised(s: string, r: string, i: int)
    requires Trimmed(s, r, i)
    requires r != [] ==> !IsSpace(r[0]) && !IsSpace(r[|r| - 1])
    ensures Strip(s) == r
  {
    var lead := LeadingSpace(s);
    var t := s[lead..];
    if r == [] {
      assert AllSpace(s) by {
        forall k | 0 <= k < |s| ensures IsSpace(s[k]) {
          if k < i {
            assert s[..i][k] == s[k];
          } else {
            assert s[i..][k - i] == s[k];
          }
        }
      }
      assert lead == |s|;
    } else {
      assert s[i] == r[0];
      assert lead == i;
      var rest := s[i + |r|..];
      assert t == r + rest;
      var trail := TrailingSpace(t);
      assert t[|t| - 1 - |rest|] == r[|r| - 1];
      assert forall k :: |r| <= k < |t| ==> t[k] == rest[k - |r|];
      assert trail == |rest|;
      assert t[..|t| - trail] == r;
    }
  }

  /** `c.lower()` for one character; only ASCII letters are folded. */
  function LowerChar(c: char): char {
    if 'A' <= c <= 'Z' then (c as int + 32) as char else c
  }

  /** `s.lower()`: every upper-case letter replaced by its lower-case form. */
  function Lower(s: string): (r: string)
    ensures |r| == |s|
    ensures forall k :: 0 <= k < |s| ==> r[k] == LowerChar(s[k])
  {
    if |s| == 0 then "" else [LowerChar(s[0])] + Lower(s[1..])
  }

  /** `s.startswith(p)`. */
  predicate StartsWith(s: string, p: string) {
    |p| <= |s| && s[..|p|] == p
  }

  /** `s` starts with `p` exactly when it is at least as long as `p` and
      agrees with it character by character over `p`'s length. */
  lemma StartsWithPointwise(s: string, p: string)
    ensures StartsWith(s, p) <==> |p| <= |s| && forall k :: 0 <= k < |p| ==> s[k] == p[k]
  {
  }

  /** `s.split("\n")`: the pieces of `s` between newlines. Like Python it
      always yields at least one piece (`"".split("\n") == [""]`). */
  function Split(s: string): (r: seq<string>)
    ensures |r| >= 1
  {
    if |s| == 0 then [""]
    else
      var rest := Split(s[1..]);
      if s[0] == '\n' then [""] + rest
      else [[s[0]] + rest[0]] + rest[1..]
  }

  /** No piece of a split holds a newline. */
  lemma {:induction false} SplitPiecesHaveNoNewline(s: string)
    ensures forall k :: 0 <= k < |Split(s)| ==> '\n' !in Split(s)[k]
  {
    if |s| > 0 {
      SplitPiecesHaveNoNewline(s[1..]);
      var rest := Split(s[1..]);
      if s[0] != '\n' {
        assert '\n' !in [s[0]] + rest[0];
      }
    }
  }

  /** The total number of characters in `lines`. */
  function TotalLength(lines: seq<string>): nat {
    if |lines| == 0 then 0 else |lines[0]| + TotalLength(lines[1..])
  }

  /** `"\n".join(lines)`: the lines separated by newlines, with no trailing
      newline, so one separator fewer than there are lines; the result begins
      with the first line. */
  function Join(lines: seq<string>): (r: string)
    ensures |lines| > 0 ==> |r| == TotalLength(lines) + |lines| - 1
    ensures |lines| > 0 ==> StartsWith(r, lines[0])
  {
    if |lines| == 0 then ""
    else if |lines| == 1 then lines[0]
    else lines[0] + "\n" + Join(lines[1..])
  }

  /** Joining the pieces of a split gives back the string. */
  lemma {:induction false} JoinSplit(s: string)
    ensures Join(Split(s)) == s
  {
    if |s| > 0 {
      JoinSplit(s[1..]);
      var rest := Split(s[1..]);
      if s[0] == '\n' {
        assert Split(s) == [""] + rest;
        assert Join(Split(s)) == "" + "\n" + Join(rest);
      } else {
        var first := [s[0]] + rest[0];
        assert Split(s) == [first] + rest[1..];
        if |rest| == 1 {
          assert Join(Split(s)) == first;
        } else {
          assert Join(rest) == rest[0] + "\n" + Join(rest[1..]);
          assert Join(Split(s)) == first + "\n" + Join(rest[1..]);
        }
      }
    }
  }

  /** A string without newlines is a single piece. */
  lemma {:induction false} SplitSingleLine(s: string)
    requires '\n' !in s
    ensures Split(s) == [s]
  {
    if |s| > 0 {
      assert '\n' !in s[1..] by {
        forall k | 0 <= k < |s[1..]| ensures s[1..][k] != '\n' {
          assert s[1..][k] == s[k + 1];
        }
      }
      SplitSingleLine(s[1..]);
      assert [s[0]] + s[1..] == s;
    }
  }

  /** Splitting at a newline splits the two sides independently. */
  lemma {:induction false} SplitAppend(x: string, y: string)
    ensures Split(x + "\n" + y) == Split(x) + Split(y)
  {
    var s := x + "\n" + y;
    if |x| == 0 {
      assert s == "\n" + y;
      assert s[1..] == y;
    } else {
      assert s[0] == x[0];
      assert s[1..] == x[1..] + "\n" + y;
      SplitAppend(x[1..], y);
    }
  }

  /** Splitting lines joined by newlines gives back the lines, provided none of
      them holds a newline itself. */
  lemma {:induction false} SplitJoin(lines: seq<string>)
    requires |lines| >= 1
    requires forall k :: 0 <= k < |lines| ==> '\n' !in lines[k]
    ensures Split(Join(lines)) == lines
  {
    SplitSingleLine(lines[0]);
    if |lines| > 1 {
      SplitJoin(lines[1..]);
      SplitAppend(lines[0], Join(lines[1..]));
    }
  }
}
