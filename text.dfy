/** Splitting a string at a separator character, as `String.prototype.split`
    does with a one-character separator. The comment body and the status
    description are read back line by line with it. */
module Text {

  /** The pieces of `s` between occurrences of `sep`; there is always one more
      piece than there are separators. */
  function Split(s: string, sep: char): (pieces: seq<string>)
    ensures |pieces| >= 1
  {
    if s == [] then [""]
    else if s[0] == sep then [""] + Split(s[1..], sep)
    else
      var rest := Split(s[1..], sep);
      [[s[0]] + rest[0]] + rest[1..]
  }

  function Lines(s: string): (lines: seq<string>)
    ensures |lines| >= 1
  {
    Split(s, '\n')
  }

  /** A piece free of the separator comes out whole. */
  lemma {:induction false} SplitSingle(a: string, sep: char)
    requires sep !in a
    ensures Split(a, sep) == [a]
  {
    if a != [] {
      assert sep !in a[1..] by {
        forall i | 0 <= i < |a[1..]| ensures a[1..][i] != sep { assert a[1..][i] == a[i + 1]; }
      }
      SplitSingle(a[1..], sep);
      assert [a[0]] + a[1..] == a;
    }
  }

  /** Splitting a separator-free piece followed by a separator peels that piece off. */
  lemma {:induction false} SplitCons(a: string, sep: char, b: string)
    requires sep !in a
    ensures Split(a + [sep] + b, sep) == [a] + Split(b, sep)
  {
    var s := a + [sep] + b;
    if a == [] {
      assert s[1..] == b;
    } else {
      assert s[0] == a[0];
      assert s[1..] == a[1..] + [sep] + b;
      assert sep !in a[1..] by {
        forall i | 0 <= i < |a[1..]| ensures a[1..][i] != sep { assert a[1..][i] == a[i + 1]; }
      }
      SplitCons(a[1..], sep, b);
      assert [a[0]] + a[1..] == a;
    }
  }

  /** Each line followed by a line break, as a multi-line template literal
      that ends with a line break lays its lines out. */
  function JoinLines(lines: seq<string>): string
  {
    if lines == [] then "" else lines[0] + "\n" + JoinLines(lines[1..])
  }

  /** Splitting joined lines at line breaks gives the lines back, and an
      empty last piece after the final break. */
  lemma {:induction false} LinesOfJoinLines(lines: seq<string>)
    requires forall i :: 0 <= i < |lines| ==> '\n' !in lines[i]
    ensures Lines(JoinLines(lines)) == lines + [""]
  {
    if lines != [] {
      assert JoinLines(lines) == lines[0] + ['\n'] + JoinLines(lines[1..]);
      SplitCons(lines[0], '\n', JoinLines(lines[1..]));
      assert forall i :: 0 <= i < |lines[1..]| ==> '\n' !in lines[1..][i] by {
        forall i | 0 <= i < |lines[1..]| ensures '\n' !in lines[1..][i] { assert lines[1..][i] == lines[i + 1]; }
      }
      LinesOfJoinLines(lines[1..]);
      assert [lines[0]] + (lines[1..] + [""]) == lines + [""];
    }
  }

  /** Four lines joined by three line breaks split back into those four. */
  lemma LinesOfFour(a: string, b: string, c: string, d: string)
    requires '\n' !in a && '\n' !in b && '\n' !in c && '\n' !in d
    ensures Lines(a + "\n" + b + "\n" + c + "\n" + d) == [a, b, c, d]
  {
    assert a + "\n" + b + "\n" + c + "\n" + d == a + ['\n'] + (b + ['\n'] + (c + ['\n'] + d));
    SplitSingle(d, '\n');
    SplitCons(c, '\n', d);
    SplitCons(b, '\n', c + ['\n'] + d);
    SplitCons(a, '\n', b + ['\n'] + (c + ['\n'] + d));
  }
}
