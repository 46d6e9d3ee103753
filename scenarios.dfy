/** The extraction rule on concrete tool outputs, for any parser that
    accepts the lines shown as JSON objects and rejects the malformed one. */
module Scenarios {
  import opened Wrappers
  import opened Text
  import opened Extraction

  /** Splitting text that starts with a separator-free piece and a
      separator yields that piece, then the split of the rest. */
  lemma {:induction false} SplitAfterPiece(piece: string, rest: string, sep: char)
    requires sep !in piece
    ensures Split(piece + [sep] + rest, sep) == [piece] + Split(rest, sep)
    decreases |piece|
  {
    if piece == [] {
      assert piece + [sep] + rest == [sep] + rest;
      assert ([sep] + rest)[1..] == rest;
    } else {
      SplitAfterPiece(piece[1..], rest, sep);
      assert (piece + [sep] + rest)[1..] == piece[1..] + [sep] + rest;
      assert [piece[0]] + piece[1..] == piece;
    }
  }

  /** Text without a separator splits into itself alone. */
  lemma {:induction false} SplitWhole(piece: string, sep: char)
    requires sep !in piece
    ensures Split(piece, sep) == [piece]
    decreases |piece|
  {
    if piece != [] {
      SplitWhole(piece[1..], sep);
      assert [piece[0]] + piece[1..] == piece;
    }
  }

  /** A candidate line has no whitespace to strip. */
  lemma CandidateIsStripped(line: string)
    requires IsCandidate(line)
    ensures Strip(line) == line
  {
    assert TrimStart(line) == line;
    assert TrimEnd(line) == line;
  }

  /** Stripping newline-terminated text that starts and ends with visible
      characters removes only the final newline. */
  lemma StripFinalNewline(body: string)
    requires body != [] && !IsSpace(body[0]) && !IsSpace(body[|body| - 1])
    ensures Strip(body + "\n") == body
  {
    var stdout := body + "\n";
    assert stdout[0] == body[0];
    assert TrimStart(stdout) == stdout;
    assert stdout[..|stdout| - 1] == body;
    assert TrimEnd(body) == body;
  }

  /** Three separator-free pieces joined by the separator split back into
      those three pieces. */
  lemma SplitThree(a: string, b: string, c: string, sep: char)
    requires sep !in a && sep !in b && sep !in c
    ensures Split(a + [sep] + b + [sep] + c, sep) == [a, b, c]
  {
    SplitWhole(c, sep);
    SplitAfterPiece(b, c, sep);
    SplitAfterPiece(a, b + [sep] + c, sep);
    assert a + [sep] + b + [sep] + c == a + [sep] + (b + [sep] + c);
  }

  /** Output of three newline-terminated lines, the first starting and the
      last ending with a visible character: the scan sees exactly those
      three lines, stripped. */
  lemma ThreeLines(a: string, b: string, c: string)
    requires '\n' !in a && '\n' !in b && '\n' !in c
    requires a != [] && !IsSpace(a[0])
    requires c != [] && !IsSpace(c[|c| - 1])
    ensures var lines := Lines(a + "\n" + b + "\n" + c + "\n");
      |lines| == 3 && lines[0] == Strip(a) && lines[1] == Strip(b) && lines[2] == Strip(c)
  {
    var body := a + "\n" + b + "\n" + c;
    assert body[0] == a[0] && body[|body| - 1] == c[|c| - 1];
    StripFinalNewline(body);
    SplitThree(a, b, c, '\n');
    LinesOfThree(body + "\n", a, b, c);
  }

  /** The scan's lines are the stripped pieces of the split output. */
  lemma LinesOfThree(stdout: string, a: string, b: string, c: string)
    requires Split(Strip(stdout), '\n') == [a, b, c]
    ensures var lines := Lines(stdout);
      |lines| == 3 && lines[0] == Strip(a) && lines[1] == Strip(b) && lines[2] == Strip(c)
  {
    var raw := Split(Strip(stdout), '\n');
    StripEachAt(raw, 0);
    StripEachAt(raw, 1);
    StripEachAt(raw, 2);
  }

  /** Diagnostic text, then two records: the record is the last line's
      (`"noise"`, `{"a":1}`, `{"a":2}` yields the record with `a = 2`). */
  lemma LastRecordWins(noise: string, older: string, newer: string, filename: string, parse: Parser)
    requires '\n' !in noise && '\n' !in older && '\n' !in newer
    requires noise != [] && !IsSpace(noise[0])
    requires IsCandidate(newer) && parse(newer).Some?
    ensures Extract(noise + "\n" + older + "\n" + newer + "\n", filename, parse)
      == Some(Tag(parse(newer).value, filename))
  {
    CandidateIsStripped(newer);
    ThreeLines(noise, older, newer);
    ExtractChoosesLast(noise + "\n" + older + "\n" + newer + "\n", filename, parse, 2);
  }

  /** A record followed by a malformed candidate (`{"a":3}` then `{not
      json}`): the malformed line is skipped and the earlier record is
      returned. */
  lemma MalformedLastSkipped(noise: string, valid: string, malformed: string, filename: string, parse: Parser)
    requires '\n' !in noise && '\n' !in valid && '\n' !in malformed
    requires noise != [] && !IsSpace(noise[0])
    requires IsCandidate(valid) && parse(valid).Some?
    requires IsCandidate(malformed) && parse(malformed).None?
    ensures Extract(noise + "\n" + valid + "\n" + malformed + "\n", filename, parse)
      == Some(Tag(parse(valid).value, filename))
  {
    CandidateIsStripped(valid);
    CandidateIsStripped(malformed);
    ThreeLines(noise, valid, malformed);
    MiddleOfThreeWins(noise + "\n" + valid + "\n" + malformed + "\n", filename, parse);
  }

  /** Of three lines, when the last is rejected and the middle one
      accepted, the middle one is returned. */
  lemma MiddleOfThreeWins(stdout: string, filename: string, parse: Parser)
    requires var lines := Lines(stdout);
      |lines| == 3 && Accepted(lines[1], parse) && !Accepted(lines[2], parse)
    ensures Extract(stdout, filename, parse) == Some(Tag(parse(Lines(stdout)[1]).value, filename))
  {
    ExtractChoosesLast(stdout, filename, parse, 1);
  }
}
