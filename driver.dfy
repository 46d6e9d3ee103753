/** The analysis driver, `analyze_file` (lines 8-35): derive the child
    environment, run the external tool with it, and extract the tool's last
    structured record from its standard output. */
module Driver {
  import opened Wrappers
  import opened Json
  import opened Text
  import opened Paths
  import opened Extraction

  /** The corpus directory; also the value of `BYTECODE_DIR`. */
  const SAMPLES_DIR: string := "/samples"

  const OPTION_KEY: string := "OPTION"
  const BYTECODE_DIR_KEY: string := "BYTECODE_DIR"
  const BYTECODE_FILE_NAME_KEY: string := "BYTECODE_FILE_NAME"

  /** The mode selector: "p" asks the tool to process and parse. */
  const PROCESS_MODE: string := "p"

  /** A process environment, `os.environ` or the child's copy of it. */
  type Environment = map<string, string>

  /** What the driver receives from its surroundings: the parent process's
      environment and the foreign operations it calls, each a function of
      its arguments. */
  datatype Host = Host(
    environ: Environment,
    // `subprocess.run(["sh", "run.sh"], cwd="/crypto_scout", env=env).stdout`
    run: Environment -> string,
    // `json.loads`, `None` when it raises
    parse: Parser,
    // `os.path.isfile`
    isFile: string -> bool,
    // `json.dumps`
    dumps: Record -> string)

  /** The keys the driver sets in the child environment. */
  function AnalysisKeys(): (keys: set<string>)
    ensures |keys| == 3
  {
    {OPTION_KEY, BYTECODE_DIR_KEY, BYTECODE_FILE_NAME_KEY}
  }

  /** `os.environ.copy()` with the three analysis keys set: their values
      are the mode, the corpus directory and the file name, and every other
      variable of the parent is passed on unchanged. */
  function ChildEnvironment(parent: Environment, filename: string): (env: Environment)
    ensures env.Keys == parent.Keys + AnalysisKeys()
    ensures env[OPTION_KEY] == PROCESS_MODE
    ensures env[BYTECODE_DIR_KEY] == SAMPLES_DIR
    ensures env[BYTECODE_FILE_NAME_KEY] == filename
    ensures forall key :: key in parent && key !in AnalysisKeys() ==> env[key] == parent[key]
  {
    parent[OPTION_KEY := PROCESS_MODE][BYTECODE_DIR_KEY := SAMPLES_DIR][BYTECODE_FILE_NAME_KEY := filename]
  }

  /** What `analyze_file(filepath)` returns. */
  function Analysis(host: Host, filepath: string): (r: Option<Record>)
    ensures r.Some? ==> FILENAME_KEY in r.value && r.value[FILENAME_KEY] == Str(Basename(filepath))
  {
    var filename := Basename(filepath);
    Extract(host.run(ChildEnvironment(host.environ, filename)), filename, host.parse)
  }

  /** `analyze_file(filepath)`: the environment is copied and updated key by
      key, the tool is run, and its output is split into lines for the
      backward scan. */
  method AnalyzeFile(host: Host, filepath: string) returns (res: Option<Record>)
    ensures res == Analysis(host, filepath)
  {
    var filename := Basename(filepath);
    var env := host.environ;
    env := env[OPTION_KEY := PROCESS_MODE];
    env := env[BYTECODE_DIR_KEY := SAMPLES_DIR];
    env := env[BYTECODE_FILE_NAME_KEY := filename];
    assert env == ChildEnvironment(host.environ, filename);

    var stdout := host.run(env);
    var lines := Split(Strip(stdout), '\n');
    res := ScanBack(lines, filename, host.parse);
  }

  /** The `for` loop over `reversed(lines)` in `analyze_file`: each line is
      stripped as the loop reaches it, and the first candidate that parses,
      counting from the end, is tagged and returned at once. */
  method ScanBack(lines: seq<string>, filename: string, parse: Parser) returns (res: Option<Record>)
    ensures res == Pick(StripEach(lines), filename, parse)
  {
    ghost var stripped := StripEach(lines);
    var i := |lines|;
    assert stripped[..i] == stripped;
    while i > 0
      invariant 0 <= i <= |lines| == |stripped|
      invariant LastAccepted(stripped[..i], parse) == LastAccepted(stripped, parse)
    {
      i := i - 1;
      var line := Strip(lines[i]);
      StripEachAt(lines, i);
      LastAcceptedStep(stripped, parse, i);
      if IsCandidate(line) {
        var data := parse(line);
        if data.Some? {
          var record := data.value;
          record := record[FILENAME_KEY := Str(filename)];
          return Some(record);
        }
      }
    }
    res := None;
  }
}
