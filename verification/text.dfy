/** Python's string operations as the simulators and the configuration
    editors use them, on strings as sequences of characters. */
module Text {
  import opened Common

  /** Number of occurrences of `c` in `s`. */
  function Occurrences(s: string, c: char): nat {
    if s == [] then 0 else (if s[0] == c then 1 else 0) + Occurrences(s[1..], c)
  }

  /** `s.split(sep)` for a one-character separator: the pieces between
      separators, empty pieces included, so `"".split(",") == [""]`. */
  function Split(s: string, sep: char): (parts: seq<string>)
    ensures |parts| >= 1
    ensures forall i :: 0 <= i < |parts| ==> sep !in parts[i]
  {
    if s == [] then [""]
    else if s[0] == sep then [""] + Split(s[1..], sep)
    else
      var rest := Split(s[1..], sep);
      [[s[0]] + rest[0]] + rest[1..]
  }

  /** `sep.join(parts)`. */
  function Join(parts: seq<string>, sep: char): string
    requires |parts| >= 1
  {
    if |parts| == 1 then parts[0] else parts[0] + [sep] + Join(parts[1..], sep)
  }

  /** Splitting yields one more piece than there are separators. */
  lemma {:induction false} SplitCount(s: string, sep: char)
    ensures |Split(s, sep)| == Occurrences(s, sep) + 1
  {
    if s != [] {
      SplitCount(s[1..], sep);
    }
  }

  /** Joining the pieces back restores the string. */
  lemma {:induction false} JoinSplit(s: string, sep: char)
    ensures Join(Split(s, sep), sep) == s
  {
    if s != [] {
      JoinSplit(s[1..], sep);
      var rest := Split(s[1..], sep);
      if s[0] == sep {
        assert ([""] + rest)[1..] == rest;
        assert s == [sep] + s[1..];
      } else {
        var parts := [[s[0]] + rest[0]] + rest[1..];
        if |rest| == 1 {
          assert s == [s[0]] + rest[0];
        } else {
          assert parts[1..] == rest[1..];
          assert Join(rest, sep) == rest[0] + [sep] + Join(rest[1..], sep);
          assert s == [s[0]] + (rest[0] + [sep] + Join(rest[1..], sep));
        }
      }
    }
  }

  /** Pieces that contain no separator come back from a join unchanged. */
  lemma {:induction false} SplitJoin(parts: seq<string>, sep: char)
    requires |parts| >= 1
    requires forall i :: 0 <= i < |parts| ==> sep !in parts[i]
    ensures Split(Join(parts, sep), sep) == parts
    decreases |parts|, |parts[0]|
  {
    var p := parts[0];
    if |parts| == 1 {
      SplitPiece(p, sep);
    } else {
      var tail := Join(parts[1..], sep);
      SplitJoin(parts[1..], sep);
      if p == [] {
        assert Join(parts, sep) == [sep] + tail;
        assert ([sep] + tail)[1..] == tail;
      } else {
        var shorter := [p[1..]] + parts[1..];
        assert shorter[1..] == parts[1..];
        SplitJoin(shorter, sep);
        assert Join(parts, sep) == [p[0]] + Join(shorter, sep);
        assert ([p[0]] + Join(shorter, sep))[1..] == Join(shorter, sep);
        assert p[0] != sep by {
          assert p[0] in parts[0];
        }
        assert p == [p[0]] + p[1..];
      }
    }
  }

  lemma {:induction false} SplitPiece(p: string, sep: char)
    requires sep !in p
    ensures Split(p, sep) == [p]
  {
    if p != [] {
      SplitPiece(p[1..], sep);
      assert p == [p[0]] + p[1..];
    }
  }

  /** `s.startswith(prefix)`. */
  predicate StartsWith(s: string, prefix: string) {
    |prefix| <= |s| && s[..|prefix|] == prefix
  }

  /** `sub in s`: `sub` occurs in `s` at some position. */
  predicate Contains(s: string, sub: string)
    decreases |s|
  {
    StartsWith(s, sub) || (s != [] && Contains(s[1..], sub))
  }

  /** Lower-casing of the ASCII capitals, the part of `str.casefold` the
      configuration keys exercise. */
  function LowerChar(c: char): char {
    if 'A' <= c <= 'Z' then (c as int + 32) as char else c
  }

  function Casefold(s: string): (r: string)
    ensures |r| == |s|
    ensures forall i :: 0 <= i < |s| ==> r[i] == LowerChar(s[i])
  {
    if s == [] then [] else [LowerChar(s[0])] + Casefold(s[1..])
  }

  /** Python's string `<=`: code point by code point, a proper prefix first. */
  predicate LexLe(a: string, b: string)
    decreases |a|
  {
    a == [] || (b != [] && (a[0] < b[0] || (a[0] == b[0] && LexLe(a[1..], b[1..]))))
  }

  lemma {:induction false} LexLeTotal(a: string, b: string)
    ensures LexLe(a, b) || LexLe(b, a)
    decreases |a|
  {
    if a != [] && b != [] && a[0] == b[0] {
      LexLeTotal(a[1..], b[1..]);
    }
  }

  lemma {:induction false} LexLeTransitive(a: string, b: string, c: string)
    requires LexLe(a, b) && LexLe(b, c)
    ensures LexLe(a, c)
    decreases |a|
  {
    if a != [] && a[0] == b[0] && b[0] == c[0] {
      LexLeTransitive(a[1..], b[1..], c[1..]);
    }
  }

  lemma {:induction false} LexLeAntisymmetric(a: string, b: string)
    requires LexLe(a, b) && LexLe(b, a)
    ensures a == b
    decreases |a|
  {
    if a != [] {
      LexLeAntisymmetric(a[1..], b[1..]);
      assert a == [a[0]] + a[1..] && b == [b[0]] + b[1..];
    }
  }

  /** `file.readlines()` on text whose line endings are `\n`: pieces ending
      just after each newline; a last piece without a newline is kept as it
      is. A `\r` is an ordinary character here. */
  function ReadLines(s: string): (lines: seq<string>)
    ensures forall i :: 0 <= i < |lines| ==> lines[i] != []
  {
    if s == [] then []
    else
      var rest := ReadLines(s[1..]);
      if s[0] == '\n' then ["\n"] + rest
      else if rest == [] then [[s[0]]]
      else [[s[0]] + rest[0]] + rest[1..]
  }

  /** `file.writelines(lines)`: plain concatenation. */
  function WriteLines(lines: seq<string>): string {
    if lines == [] then [] else lines[0] + WriteLines(lines[1..])
  }

  /** A line as `readlines` returns it in the middle of a file: non-empty,
      ending in its only newline. */
  predicate IsTerminatedLine(l: string) {
    |l| > 0 && l[|l| - 1] == '\n' && '\n' !in l[..|l| - 1]
  }

  /** A piece `readlines` can return: non-empty, with a newline at most as
      its last character. */
  predicate IsReadLine(l: string) {
    |l| > 0 && '\n' !in l[..|l| - 1]
  }

  predicate EndsInNewline(l: string) {
    |l| > 0 && l[|l| - 1] == '\n'
  }

  /** What `readlines` returns: pieces with a newline at most at their end,
      every piece but the last ending in one. */
  lemma {:induction false} ReadLinesShape(s: string)
    ensures forall i :: 0 <= i < |ReadLines(s)| ==> IsReadLine(ReadLines(s)[i])
    ensures forall i :: 0 <= i < |ReadLines(s)| - 1 ==> EndsInNewline(ReadLines(s)[i])
  {
    if s != [] {
      ReadLinesShape(s[1..]);
      var rest := ReadLines(s[1..]);
      if s[0] != '\n' && rest != [] {
        var first := [s[0]] + rest[0];
        assert IsReadLine(first) by {
          assert first[..|first| - 1] == [s[0]] + rest[0][..|rest[0]| - 1];
        }
        var r := [first] + rest[1..];
        forall i | 0 <= i < |r| ensures IsReadLine(r[i]) {
          if i > 0 {
            assert r[i] == rest[i];
          }
        }
        forall i | 0 <= i < |r| - 1 ensures EndsInNewline(r[i]) {
          if i > 0 {
            assert r[i] == rest[i];
          } else {
            assert first[|first| - 1] == rest[0][|rest[0]| - 1];
          }
        }
      } else if s[0] == '\n' {
        var r := ["\n"] + rest;
        forall i | 0 <= i < |r| ensures IsReadLine(r[i]) {
          if i > 0 {
            assert r[i] == rest[i - 1];
          }
        }
        forall i | 0 <= i < |r| - 1 ensures EndsInNewline(r[i]) {
          if i > 0 {
            assert r[i] == rest[i - 1];
          }
        }
      }
    }
  }

  /** Text without a newline reads as a single line. */
  lemma {:induction false} ReadWithoutNewline(s: string)
    requires s != [] && '\n' !in s
    ensures ReadLines(s) == [s]
  {
    assert s[0] in s;
    if |s| > 1 {
      assert s[1..][0] == s[1];
      ReadWithoutNewline(s[1..]);
      assert s == [s[0]] + s[1..];
    } else {
      assert s == [s[0]];
    }
  }

  /** Writing and re-reading a file gives back the same text. */
  lemma {:induction false} WriteReadLines(s: string)
    ensures WriteLines(ReadLines(s)) == s
  {
    if s != [] {
      WriteReadLines(s[1..]);
      var rest := ReadLines(s[1..]);
      if s[0] != '\n' && rest != [] {
        assert ([[s[0]] + rest[0]] + rest[1..])[1..] == rest[1..];
        assert WriteLines(rest) == rest[0] + WriteLines(rest[1..]);
      }
    }
  }

  /** Terminated lines survive being written and read back. */
  lemma {:induction false} ReadWriteLines(lines: seq<string>)
    requires forall i :: 0 <= i < |lines| ==> IsTerminatedLine(lines[i])
    ensures ReadLines(WriteLines(lines)) == lines
    decreases |lines|
  {
    if lines != [] {
      ReadWriteLines(lines[1..]);
      ReadLineThen(lines[0], WriteLines(lines[1..]));
    }
  }

  /** Reading a terminated line followed by more text. */
  lemma {:induction false} ReadLineThen(l: string, tail: string)
    requires IsTerminatedLine(l)
    ensures ReadLines(l + tail) == [l] + ReadLines(tail)
    decreases |l|
  {
    if |l| == 1 {
      assert l == "\n";
      assert (l + tail)[1..] == tail;
    } else {
      var l1 := l[1..];
      assert l1[..|l1| - 1] == l[1..|l| - 1];
      assert '\n' !in l1[..|l1| - 1] by {
        forall i | 0 <= i < |l1| - 1 ensures l1[i] != '\n' {
          assert l1[i] == l[..|l| - 1][i + 1];
        }
      }
      ReadLineThen(l1, tail);
      assert (l + tail)[1..] == l1 + tail;
      assert l[0] != '\n' by {
        assert l[0] == l[..|l| - 1][0];
      }
      assert l == [l[0]] + l1;
    }
  }

  /** A file whose last line lacks its newline runs into whatever is written
      after that line: the two lines read back as one. */
  lemma UnterminatedLineMerges()
    ensures ReadLines(WriteLines(["A=1", "B=2\n"])) == ["A=1B=2\n"]
  {
    var merged := "A=1B=2\n";
    assert WriteLines(["A=1", "B=2\n"]) == merged;
    assert merged[..|merged| - 1] == "A=1B=2";
    ReadLineThen(merged, "");
    assert merged + "" == merged;
  }

  /** The decimal digits of a natural number, as `str(n)` prints them. */
  function NatToString(n: nat): (s: string)
    ensures |s| >= 1
    ensures forall i :: 0 <= i < |s| ==> '0' <= s[i] <= '9'
    decreases n
  {
    var d := [(('0' as int) + n % 10) as char];
    if n < 10 then d else NatToString(n / 10) + d
  }

  /** `str(i)` for an `int`. */
  function IntToString(i: int): (s: string)
    ensures |s| >= 1 && '\n' !in s
  {
    if i < 0 then "-" + NatToString(-i) else NatToString(i)
  }
}
