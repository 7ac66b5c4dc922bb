/**
  A catalog file as text and as lines: `readlines()` cuts the text after every
  newline and keeps the newline on its line; writing the lines one after the
  other gives their concatenation.
 */
module Lines {

  const NEWLINE: char := '\n'

  /** A line as `readlines()` returns it inside a file: one newline, at its end. */
  predicate WellFormedLine(line: string) {
    |line| > 0 && line[|line| - 1] == NEWLINE && NEWLINE !in line[..|line| - 1]
  }

  /**
    The last line `readlines()` returns: no newline before its end, and
    perhaps none at its end either.
   */
  predicate FinalLine(line: string) {
    |line| > 0 && NEWLINE !in line[..|line| - 1]
  }

  /** Lines as `readlines()` returns them: each ends in its only newline, except that the last may lack it. */
  predicate ReadableLines(lines: seq<string>) {
    && (forall k :: 0 <= k < |lines| - 1 ==> WellFormedLine(lines[k]))
    && (|lines| > 0 ==> FinalLine(lines[|lines| - 1]))
  }

  /** The length of the first line of `s`, its newline included. */
  function FirstLineLength(s: string): (n: nat)
    ensures |s| > 0 ==> 1 <= n <= |s|
    ensures |s| == 0 ==> n == 0
  {
    if |s| == 0 then 0
    else if s[0] == NEWLINE then 1
    else 1 + FirstLineLength(s[1..])
  }

  /** `readlines()`: the text cut after every newline; a last line may lack one. */
  function ReadLines(text: string): seq<string>
    decreases |text|
  {
    if |text| == 0 then []
    else
      var n := FirstLineLength(text);
      [text[..n]] + ReadLines(text[n..])
  }

  /** The text of `for line in lines: output_file.write(line)`. */
  function Concat(lines: seq<string>): string {
    if |lines| == 0 then "" else lines[0] + Concat(lines[1..])
  }

  /** A well-formed line ends the first line of any text it begins. */
  lemma {:induction false} FirstLineOfWellFormed(line: string, rest: string)
    requires WellFormedLine(line)
    ensures FirstLineLength(line + rest) == |line|
  {
    if |line| > 1 {
      assert line[0] != NEWLINE by {
        assert line[0] == line[..|line| - 1][0];
      }
      var tail := line[1..];
      assert tail[..|tail| - 1] == line[..|line| - 1][1..];
      assert (line + rest)[1..] == tail + rest;
      FirstLineOfWellFormed(tail, rest);
    }
  }

  /** A last line is the whole of the first line of its own text. */
  lemma {:induction false} FirstLineOfFinal(line: string)
    requires FinalLine(line)
    ensures FirstLineLength(line) == |line|
  {
    if |line| > 1 {
      assert line[0] != NEWLINE by {
        assert line[0] == line[..|line| - 1][0];
      }
      var tail := line[1..];
      assert tail[..|tail| - 1] == line[..|line| - 1][1..];
      FirstLineOfFinal(tail);
    }
  }

  /** Writing lines as `readlines()` returns them and reading the file back gives the same lines. */
  lemma {:induction false} ReadConcat(lines: seq<string>)
    requires ReadableLines(lines)
    ensures ReadLines(Concat(lines)) == lines
  {
    if |lines| == 1 {
      var line := lines[0];
      assert Concat(lines) == line by {
        assert Concat(lines) == line + Concat([]);
      }
      FirstLineOfFinal(line);
      assert line[..|line|] == line && line[|line|..] == [];
      assert ReadLines(line) == [line] + ReadLines([]);
      assert lines == [line];
    } else if |lines| > 1 {
      var text := Concat(lines);
      var rest := Concat(lines[1..]);
      assert text == lines[0] + rest;
      FirstLineOfWellFormed(lines[0], rest);
      assert text[..|lines[0]|] == lines[0];
      assert text[|lines[0]|..] == rest;
      assert ReadableLines(lines[1..]) by {
        assert lines[1..][|lines| - 2] == lines[|lines| - 1];
      }
      ReadConcat(lines[1..]);
      assert lines == [lines[0]] + lines[1..];
    }
  }
}
