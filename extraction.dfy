/** Picking the analysis record out of the tool's captured standard output
    (`analyze_file`, lines 25-35): the output is stripped and split into
    lines, each line is stripped, and the lines are examined from the last one
    backwards. A line shaped like `{...}` is a candidate and is handed to the
    JSON parser; the first candidate that parses wins and is tagged with the
    artifact's file name. A candidate that fails to parse is skipped. */
module Extraction {
  import opened Wrappers
  import opened Json
  import opened Text

  /** `json.loads` on one line: `Some(object)` when the line is a JSON object,
      `None` when it raises. A text starting with `{` that parses at all is
      an object, so the parser's other outcomes do not arise here. */
  type Parser = string -> Option<Record>

  /** The key the driver sets in every returned record. */
  const FILENAME_KEY: string := "filename"

  /** `line.startswith("{") and line.endswith("}")`. A candidate has at
      least two characters (a lone `{` does not end with `}`), and it has
      no whitespace at either end, so stripping leaves it as it is. */
  predicate IsCandidate(line: string)
    ensures IsCandidate(line) ==> |line| >= 2 && !IsSpace(line[0]) && !IsSpace(line[|line| - 1])
  {
    |line| > 0 && line[0] == '{' && line[|line| - 1] == '}'
  }

  /** A stripped line at which the scan stops: a candidate that the parser
      accepts. Whatever the parser says, a line without the `{...}` shape is
      never accepted. */
  predicate Accepted(line: string, parse: Parser)
    ensures !IsCandidate(line) ==> !Accepted(line, parse)
  {
    IsCandidate(line) && parse(line).Some?
  }

  /** `[line.strip() for line in lines]`. */
  function StripEach(raw: seq<string>): (r: seq<string>)
    ensures |r| == |raw|
    decreases |raw|
  {
    if raw == [] then [] else StripEach(raw[..|raw| - 1]) + [Strip(raw[|raw| - 1])]
  }

  /** Each stripped line is its raw line, stripped. */
  lemma {:induction false} StripEachAt(raw: seq<string>, i: nat)
    requires i < |raw|
    ensures StripEach(raw)[i] == Strip(raw[i])
    decreases |raw|
  {
    if i < |raw| - 1 {
      StripEachAt(raw[..|raw| - 1], i);
    }
  }

  /** The lines the scan looks at: `result.stdout.strip().split("\n")`, each
      stripped. There is at least one. */
  function Lines(stdout: string): (r: seq<string>)
    ensures |r| == |Split(Strip(stdout), '\n')| >= 1
  {
    StripEach(Split(Strip(stdout), '\n'))
  }

  /** No line the scan looks at holds a newline. */
  lemma LinesHaveNoNewline(stdout: string, i: nat)
    requires i < |Lines(stdout)|
    ensures '\n' !in Lines(stdout)[i]
  {
    var raw := Split(Strip(stdout), '\n');
    StripEachAt(raw, i);
    StripKeepsOut(raw[i], '\n');
  }

  /** The backward scan over `reversed(lines)`: the index of the line the
      scan stops at, or `None` when it runs off the front. The result is the
      highest-index accepted line, and there is none exactly when the result
      is `None`. */
  function LastAccepted(lines: seq<string>, parse: Parser): (r: Option<nat>)
    ensures r.None? ==> forall i :: 0 <= i < |lines| ==> !Accepted(lines[i], parse)
    ensures r.Some? ==> r.value < |lines| && Accepted(lines[r.value], parse)
    ensures r.Some? ==> forall j :: r.value < j < |lines| ==> !Accepted(lines[j], parse)
    decreases |lines|
  {
    if lines == [] then None
    else if Accepted(lines[|lines| - 1], parse) then Some(|lines| - 1)
    else LastAccepted(lines[..|lines| - 1], parse)
  }

  /** One step of the backward loop: looking at line `i` before the lines
      below it either stops there, when it is accepted, or leaves the scan of
      the earlier lines to decide. */
  lemma LastAcceptedStep(lines: seq<string>, parse: Parser, i: nat)
    requires i < |lines|
    ensures LastAccepted(lines[..i + 1], parse) ==
      if Accepted(lines[i], parse) then Some(i) else LastAccepted(lines[..i], parse)
  {
    assert lines[..i + 1][..i] == lines[..i];
  }

  /** The scan's choice is unique: any accepted line with no accepted line
      after it is the one the scan stops at. */
  lemma LastAcceptedUnique(lines: seq<string>, parse: Parser, k: nat)
    requires k < |lines| && Accepted(lines[k], parse)
    requires forall j :: k < j < |lines| ==> !Accepted(lines[j], parse)
    ensures LastAccepted(lines, parse) == Some(k)
  {
  }

  /** `data["filename"] = filename`: the key is set, overriding any value the
      tool emitted under it; every other key keeps its value. */
  function Tag(data: Record, filename: string): (r: Record)
    ensures r.Keys == data.Keys + {FILENAME_KEY}
    ensures r[FILENAME_KEY] == Str(filename)
    ensures forall key :: key in data && key != FILENAME_KEY ==> r[key] == data[key]
  {
    data[FILENAME_KEY := Str(filename)]
  }

  /** The record the backward scan over the stripped `lines` yields: the
      last accepted line's object, tagged, or `None` when no line is
      accepted. */
  function Pick(lines: seq<string>, filename: string, parse: Parser): (r: Option<Record>)
    ensures r.None? <==> forall i :: 0 <= i < |lines| ==> !Accepted(lines[i], parse)
    ensures r.Some? ==> FILENAME_KEY in r.value && r.value[FILENAME_KEY] == Str(filename)
  {
    match LastAccepted(lines, parse)
    case None => None
    case Some(k) => Some(Tag(parse(lines[k]).value, filename))
  }

  /** The record `analyze_file` returns for captured output `stdout`. It is
      `None` exactly when no line of the output is accepted; otherwise it
      carries the artifact's file name. */
  function Extract(stdout: string, filename: string, parse: Parser): (r: Option<Record>)
    ensures r.None? <==> forall i :: 0 <= i < |Lines(stdout)| ==> !Accepted(Lines(stdout)[i], parse)
    ensures r.Some? ==> FILENAME_KEY in r.value && r.value[FILENAME_KEY] == Str(filename)
  {
    Pick(Lines(stdout), filename, parse)
  }

  /** The last accepted line wins: when line `k` is accepted and no later
      line is (later candidates that fail to parse are passed over), the
      record is line `k`'s parsed object, tagged. */
  lemma ExtractChoosesLast(stdout: string, filename: string, parse: Parser, k: nat)
    requires var lines := Lines(stdout);
      k < |lines| && Accepted(lines[k], parse) &&
      forall j :: k < j < |lines| ==> !Accepted(lines[j], parse)
    ensures Extract(stdout, filename, parse) ==
      Some(Tag(parse(Lines(stdout)[k]).value, filename))
  {
    LastAcceptedUnique(Lines(stdout), parse, k);
  }

  /** Two parsers that agree on every candidate give the same scan: the
      parser is never asked about a line without the `{...}` shape. No
      induction is needed: the ensures of `LastAccepted` determine its result
      from which lines are accepted, and by the ensures of `Accepted` the two
      parsers accept the same lines. */
  lemma LastAcceptedOnlyAsksCandidates(lines: seq<string>, p1: Parser, p2: Parser)
    requires forall s :: IsCandidate(s) ==> p1(s) == p2(s)
    ensures LastAccepted(lines, p1) == LastAccepted(lines, p2)
  {
  }

  /** The extracted record depends on the parser only through what it says
      about candidate lines. */
  lemma ExtractOnlyAsksCandidates(stdout: string, filename: string, p1: Parser, p2: Parser)
    requires forall s :: IsCandidate(s) ==> p1(s) == p2(s)
    ensures Extract(stdout, filename, p1) == Extract(stdout, filename, p2)
  {
    LastAcceptedOnlyAsksCandidates(Lines(stdout), p1, p2);
  }
}
