/** The batch loop, `main` (lines 38-61): list the corpus directory, sort the
    names, and for each regular file append the serialised record of its
    analysis, if any, to the output log. */
module Batch {
  import opened Wrappers
  import opened Json
  import opened Paths
  import opened Ordering
  import opened Extraction
  import opened Driver

  /** The output file `results.jsonl` while it is open for writing: the
      strings written to it so far, in order. */
  class OutputLog {
    var written: seq<string>

    /** `open(OUTPUT_FILE, "w")`: any earlier contents are discarded. */
    constructor Open()
      ensures written == []
    {
      written := [];
    }

    /** `fout.write(text)`: appends, never rewrites. */
    method Write(text: string)
      modifies this
      ensures written == old(written) + [text]
    {
      written := written + [text];
    }
  }

  /** The path `main` builds for a directory entry. */
  function EntryPath(name: string): (path: string)
    ensures '/' !in name ==> Basename(path) == name
  {
    var path := JoinPath(SAMPLES_DIR, name);
    assert '/' !in name ==> Basename(path) == name by {
      if '/' !in name { BasenameOfJoin(SAMPLES_DIR, name); }
    }
    path
  }

  /** What one iteration of `main`'s loop writes for the entry `name`:
      nothing for an entry that is not a regular file or whose analysis finds
      no record, otherwise one line holding the serialised record. */
  function Emitted(host: Host, name: string): (r: seq<string>)
    ensures |r| <= 1
  {
    var path := EntryPath(name);
    if !host.isFile(path) then []
    else
      match Analysis(host, path)
      case None => []
      case Some(record) => [host.dumps(record) + "\n"]
  }

  /** An entry writes a line exactly when it is a regular file whose
      analysis finds a record, and the line is that record, serialised. */
  lemma EmittedLine(host: Host, name: string)
    ensures var path := EntryPath(name); var r := Emitted(host, name);
      (|r| == 1 <==> host.isFile(path) && Analysis(host, path).Some?) &&
      (|r| == 1 ==> r[0] == host.dumps(Analysis(host, path).value) + "\n")
  {
  }

  /** The loop's per-entry behaviour as a function value. */
  function EntryOutput(host: Host): (emit: string -> seq<string>)
    ensures forall name :: |emit(name)| <= 1
    ensures forall name :: emit(name) == Emitted(host, name)
  {
    name => Emitted(host, name)
  }

  /** The whole log after the loop has visited `names` in order, when entry
      `name` contributes `emit(name)`. */
  function Collect(emit: string -> seq<string>, names: seq<string>): (r: seq<string>)
    decreases |names|
  {
    if names == [] then []
    else Collect(emit, names[..|names| - 1]) + emit(names[|names| - 1])
  }

  /** When no entry contributes anything, nothing is written. */
  lemma {:induction false} CollectSilent(emit: string -> seq<string>, names: seq<string>)
    requires forall i :: 0 <= i < |names| ==> emit(names[i]) == []
    ensures Collect(emit, names) == []
    decreases |names|
  {
    if names != [] {
      CollectSilent(emit, names[..|names| - 1]);
    }
  }

  /** The log after `main`'s loop has visited `names`. */
  function Output(host: Host, names: seq<string>): (r: seq<string>)
    ensures |r| <= |names|
  {
    CollectBound(EntryOutput(host), names);
    Collect(EntryOutput(host), names)
  }

  /** At most one line per entry, so never more lines than entries. */
  lemma {:induction false} CollectBound(emit: string -> seq<string>, names: seq<string>)
    requires forall name :: |emit(name)| <= 1
    ensures |Collect(emit, names)| <= |names|
    decreases |names|
  {
    if names != [] {
      CollectBound(emit, names[..|names| - 1]);
    }
  }

  /** Visiting one more entry keeps what was written and adds that entry's
      line, if any, at the end: the log only grows. */
  lemma CollectExtends(emit: string -> seq<string>, names: seq<string>, i: nat)
    requires i < |names|
    ensures Collect(emit, names[..i + 1]) == Collect(emit, names[..i]) + emit(names[i])
  {
    assert names[..i + 1][..i] == names[..i];
  }

  /** The entry indices that produced output, in increasing order: the log's
      `j`-th line is exactly what the entry `Sources(...)[j]` emitted, and
      every entry not listed emitted nothing. So output order is entry
      order, and the log has one line per entry that was a regular file with
      a record. */
  function Sources(emit: string -> seq<string>, names: seq<string>): (idx: seq<nat>)
    requires forall name :: |emit(name)| <= 1
    ensures |idx| == |Collect(emit, names)|
    ensures forall j :: 0 <= j < |idx| ==>
      idx[j] < |names| && emit(names[idx[j]]) == [Collect(emit, names)[j]]
    ensures forall j, k :: 0 <= j < k < |idx| ==> idx[j] < idx[k]
    ensures forall i :: 0 <= i < |names| && i !in idx ==> emit(names[i]) == []
    decreases |names|
  {
    if names == [] then []
    else
      var n := |names| - 1;
      var init := names[..n];
      assert names == init + [names[n]];
      assert Collect(emit, names) == Collect(emit, init) + emit(names[n]);
      var prev := Sources(emit, init);
      var idx := if emit(names[n]) == [] then prev else prev + [n];
      TraceLines(emit, init, names[n], names, Collect(emit, init), Collect(emit, names), prev, idx);
      TraceOrder(init, emit(names[n]) == [], prev, idx);
      TraceGaps(emit, init, names[n], names, prev, idx);
      idx
  }

  /** The step behind `Sources`, for the lines: if `prev` traces the lines
      `before` back to the entries `init`, then after one more entry `last`
      the same indices, plus that entry's index when it wrote a line, trace
      the longer log. */
  lemma TraceLines(emit: string -> seq<string>, init: seq<string>, last: string, names: seq<string>,
                   before: seq<string>, out: seq<string>, prev: seq<nat>, idx: seq<nat>)
    requires |emit(last)| <= 1
    requires names == init + [last] && out == before + emit(last)
    requires idx == if emit(last) == [] then prev else prev + [|init|]
    requires |prev| == |before|
    requires forall j :: 0 <= j < |prev| ==> prev[j] < |init| && emit(init[prev[j]]) == [before[j]]
    ensures |idx| == |out|
    ensures forall j :: 0 <= j < |idx| ==> idx[j] < |names| && emit(names[idx[j]]) == [out[j]]
  {
    forall j | 0 <= j < |idx| ensures idx[j] < |names| && emit(names[idx[j]]) == [out[j]] {
      if j < |prev| {
        assert idx[j] == prev[j] && names[prev[j]] == init[prev[j]] && out[j] == before[j];
      }
    }
  }

  /** The step behind `Sources`, for the order: the new index, if any, is
      above all earlier ones. */
  lemma TraceOrder(init: seq<string>, silent: bool, prev: seq<nat>, idx: seq<nat>)
    requires idx == if silent then prev else prev + [|init|]
    requires forall j :: 0 <= j < |prev| ==> prev[j] < |init|
    requires forall j, k :: 0 <= j < k < |prev| ==> prev[j] < prev[k]
    ensures forall j, k :: 0 <= j < k < |idx| ==> idx[j] < idx[k]
  {
  }

  /** The step behind `Sources`, for the entries that wrote nothing: an
      entry left out of the indices is either an earlier silent entry or
      the new entry when it wrote nothing. */
  lemma TraceGaps(emit: string -> seq<string>, init: seq<string>, last: string, names: seq<string>,
                  prev: seq<nat>, idx: seq<nat>)
    requires names == init + [last]
    requires idx == if emit(last) == [] then prev else prev + [|init|]
    requires forall i :: 0 <= i < |init| && i !in prev ==> emit(init[i]) == []
    ensures forall i :: 0 <= i < |names| && i !in idx ==> emit(names[i]) == []
  {
    forall i | 0 <= i < |names| && i !in idx ensures emit(names[i]) == [] {
      if i < |init| {
        assert i !in prev && names[i] == init[i];
      }
    }
  }

  /** Every line in the log is the serialised record of a regular file
      among the entries, and that record's `filename` is the entry's name,
      whatever the tool printed under that key. */
  lemma OutputRecordsNamed(host: Host, names: seq<string>, j: nat)
    requires forall i :: 0 <= i < |names| ==> '/' !in names[i]
    requires j < |Output(host, names)|
    ensures var i := Sources(EntryOutput(host), names)[j];
      var record := Analysis(host, EntryPath(names[i]));
      host.isFile(EntryPath(names[i])) && record.Some? &&
      Output(host, names)[j] == host.dumps(record.value) + "\n" &&
      record.value[FILENAME_KEY] == Str(names[i])
  {
    var i := Sources(EntryOutput(host), names)[j];
    assert Emitted(host, names[i]) == [Output(host, names)[j]];
    EmittedLine(host, names[i]);
  }

  /** `main()`: the directory listing is sorted, the log is opened fresh,
      and each entry is visited in turn. */
  method RunBatch(host: Host, listing: seq<string>) returns (log: OutputLog)
    ensures fresh(log)
    ensures log.written == Output(host, Sort(listing))
  {
    var files := Sort(listing);
    ghost var emit := EntryOutput(host);
    log := new OutputLog.Open();
    for i := 0 to |files|
      invariant log.written == Collect(emit, files[..i])
    {
      CollectExtends(emit, files, i);
      EmittedLine(host, files[i]);
      var fpath := JoinPath(SAMPLES_DIR, files[i]);
      assert fpath == EntryPath(files[i]);
      if !host.isFile(fpath) {
        assert emit(files[i]) == [];
        continue;
      }
      var res := AnalyzeFile(host, fpath);
      if res.None? {
        assert emit(files[i]) == [];
        continue;
      }
      log.Write(host.dumps(res.value) + "\n");
      assert emit(files[i]) == [host.dumps(res.value) + "\n"];
    }
    assert files[..|files|] == files;
  }
}
