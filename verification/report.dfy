/**
 * The body of `QR.run`: what the tool prints and which PNG files it writes
 * for the codes the detector found in the image.
 *
 * The detector, the image loader, the QR generator and the PNG writer are
 * platform calls outside this model. The detector's answer is an input
 * (`None` when the detector or the image could not be created), and whether
 * generating and writing the PNG for a given file name succeeds is the
 * oracle `writable`.
 */
module Report {
  import opened Wrappers
  import opened Hex
  import opened Naming

  /** A detected code: its message string, if it decodes as text, and its error-corrected payload bytes. */
  datatype Feature = Feature(message: Option<string>, payload: seq<UInt8>)

  /** The process exit status: success, or `ExitCode.failure`. */
  datatype Exit = Success | Failure

  /**
   * What one run produces: the lines printed to standard output (one per
   * `print` call), the lines written to standard error, the PNG files
   * written, in order, and the exit status.
   */
  datatype Outcome = Outcome(stdout: seq<string>, stderr: seq<string>, files: seq<string>, exit: Exit)

  /** What the loop does for one code: the line it prints, then the file it writes, if any. */
  datatype Step = Step(line: string, file: Option<string>)

  const NoCodesMessage := "No QR codes detected"

  /** The line printed for a code: its message, or the hex rendering of its payload when it has none. */
  function Line(f: Feature): (line: string)
    ensures f.message.Some? ==> line == f.message.value
    ensures f.message.None? ==> |line| == 2 * |f.payload| && forall k :: 0 <= k < |line| ==> IsHexDigit(line[k])
  {
    match f.message
    case Some(m) => m
    case None => HexPayload(f.payload)
  }

  /** The file the code at `i` is re-encoded into: only a code with a message, and only when `--out` is given. */
  function FileFor(features: seq<Feature>, out: Option<string>, i: nat): (file: Option<string>)
    requires i < |features|
    ensures file.Some? <==> features[i].message.Some? && out.Some?
  {
    if features[i].message.Some? && out.Some? then Some(OutputFileName(out.value, |features|, i)) else None
  }

  /** The step for every detected code, in detection order. */
  function Steps(features: seq<Feature>, out: Option<string>): (steps: seq<Step>)
    ensures |steps| == |features|
    ensures forall j :: 0 <= j < |steps| ==> steps[j].line == Line(features[j])
    ensures forall j :: 0 <= j < |steps| ==> steps[j].file == FileFor(features, out, j)
  {
    seq(|features|, j requires 0 <= j < |features| => Step(Line(features[j]), FileFor(features, out, j)))
  }

  /** The write of step `j`, if it has one, succeeds. */
  predicate WriteSucceeds(steps: seq<Step>, writable: string -> bool, j: nat)
    requires j < |steps|
  {
    steps[j].file.Some? ==> writable(steps[j].file.value)
  }

  /** Every write of steps `lo` to `hi - 1` succeeds. */
  predicate WritesSucceed(steps: seq<Step>, writable: string -> bool, lo: nat, hi: nat)
    requires hi <= |steps|
  {
    forall j :: lo <= j < hi ==> WriteSucceeds(steps, writable, j)
  }

  /** The names of the files of steps `lo` to `hi - 1`, in order. */
  function Names(steps: seq<Step>, lo: nat, hi: nat): seq<string>
    requires lo <= hi <= |steps|
    decreases hi - lo
  {
    if lo == hi then []
    else (match steps[lo].file case Some(f) => [f] case None => []) + Names(steps, lo + 1, hi)
  }

  /**
   * The loop from step `i` on: print the line of each step, then write its
   * file, if it has one; a write that fails ends the run with a failure after
   * the step's line was printed.
   */
  function Emit(steps: seq<Step>, writable: string -> bool, i: nat): (r: Outcome)
    requires i <= |steps|
    ensures r.stderr == []
    ensures |r.files| <= |r.stdout| <= |steps| - i
    ensures r.exit == Success ==> |r.stdout| == |steps| - i
    decreases |steps| - i
  {
    if i == |steps| then Outcome([], [], [], Success)
    else
      var step := steps[i];
      match step.file
      case None =>
        var rest := Emit(steps, writable, i + 1);
        Outcome([step.line] + rest.stdout, [], rest.files, rest.exit)
      case Some(file) =>
        if writable(file) then
          var rest := Emit(steps, writable, i + 1);
          Outcome([step.line] + rest.stdout, [], [file] + rest.files, rest.exit)
        else Outcome([step.line], [], [], Failure)
  }

  /** The whole run, given the detector's answer (`None` when the detector or the image could not be created). */
  function Report(detected: Option<seq<Feature>>, out: Option<string>, writable: string -> bool): (r: Outcome)
    ensures detected.None? ==> r.exit == Failure && r.stdout == [] && r.files == []
    ensures r.stderr != [] <==> detected == Some([])
    ensures detected.Some? ==> |r.files| <= |r.stdout| <= |detected.value|
  {
    match detected
    case None => Outcome([], [], [], Failure)
    case Some(features) =>
      if |features| == 0 then Outcome([], [NoCodesMessage], [], Success)
      else Emit(Steps(features, out), writable, 0)
  }

  /** The outcome of a run that has already printed `stdout` and written `files` and then goes on as `rest`. */
  function After(stdout: seq<string>, files: seq<string>, rest: Outcome): Outcome {
    Outcome(stdout + rest.stdout, rest.stderr, files + rest.files, rest.exit)
  }

  /**
   * One iteration of the loop, for step `i` = `Step(line, file)`: a run that
   * has printed `stdout` and written `files` and is at step `i` goes on at
   * step `i + 1` with `line` printed and `file` written, if it has one, or,
   * when that write fails, ends there with a failure after printing `line`.
   */
  lemma EmitNext(steps: seq<Step>, writable: string -> bool, i: nat, line: string, file: Option<string>,
                 stdout: seq<string>, files: seq<string>)
    requires i < |steps| && steps[i] == Step(line, file)
    ensures file.None? ==>
      After(stdout, files, Emit(steps, writable, i)) == After(stdout + [line], files, Emit(steps, writable, i + 1))
    ensures file.Some? && writable(file.value) ==>
      After(stdout, files, Emit(steps, writable, i))
        == After(stdout + [line], files + [file.value], Emit(steps, writable, i + 1))
    ensures file.Some? && !writable(file.value) ==>
      After(stdout, files, Emit(steps, writable, i)) == Outcome(stdout + [line], [], files, Failure)
  {
  }

  /** What `QR.run` does for the code at `index`: the line it prints and the file it writes, if any. */
  method CodeStep(features: seq<Feature>, out: Option<string>, index: nat) returns (line: string, file: Option<string>)
    requires index < |features|
    ensures line == Line(features[index])
    ensures file == FileFor(features, out, index)
    ensures Steps(features, out)[index] == Step(line, file)
  {
    var feature := features[index];
    if feature.message.Some? {
      line := feature.message.value;
      if out.Some? {
        var outFile := DeriveOutFile(out.value, |features|, index);
        file := Some(outFile);
      } else {
        file := None;
      }
    } else {
      line := HexPayload(feature.payload);
      file := None;
    }
  }

  /** `QR.run` from the detector's answer on. */
  method Run(detected: Option<seq<Feature>>, out: Option<string>, writable: string -> bool) returns (r: Outcome)
    ensures r == Report(detected, out, writable)
  {
    if detected.None? {
      return Outcome([], [], [], Failure);
    }
    var features := detected.value;
    if |features| == 0 {
      return Outcome([], [NoCodesMessage], [], Success);
    }
    r := ReportCodes(features, out, writable);
  }

  /** The loop of `QR.run` over the detected codes, in detection order. */
  method ReportCodes(features: seq<Feature>, out: Option<string>, writable: string -> bool) returns (r: Outcome)
    ensures r == Emit(Steps(features, out), writable, 0)
  {
    ghost var steps := Steps(features, out);
    var stdout: seq<string>, files: seq<string> := [], [];
    for index := 0 to |features|
      invariant Emit(steps, writable, 0) == After(stdout, files, Emit(steps, writable, index))
    {
      var line, file := CodeStep(features, out, index);
      EmitNext(steps, writable, index, line, file, stdout, files);
      stdout := stdout + [line];
      if file.Some? {
        if !writable(file.value) {
          return Outcome(stdout, [], files, Failure);
        }
        files := files + [file.value];
      }
    }
    return Outcome(stdout, [], files, Success);
  }

  /** The writes from step `i` on succeed exactly when the one at `i` and those after it do. */
  lemma WritesSucceedFirst(steps: seq<Step>, writable: string -> bool, i: nat)
    requires i < |steps|
    ensures WritesSucceed(steps, writable, i, |steps|)
        <==> WriteSucceeds(steps, writable, i) && WritesSucceed(steps, writable, i + 1, |steps|)
  {
  }

  /**
   * The loop from step `i` on prints the line of every step it reaches, in
   * order, one per step, and nothing to standard error.
   */
  lemma {:induction false} EmitLines(steps: seq<Step>, writable: string -> bool, i: nat)
    requires i <= |steps|
    ensures Emit(steps, writable, i).stderr == []
    ensures 0 < |Emit(steps, writable, i).stdout| <= |steps| - i || i == |steps|
    ensures var lines := Emit(steps, writable, i).stdout;
      forall k :: 0 <= k < |lines| ==> lines[k] == steps[i + k].line
    decreases |steps| - i
  {
    if i < |steps| {
      EmitLines(steps, writable, i + 1);
      var lines := Emit(steps, writable, i).stdout;
      var rest := Emit(steps, writable, i + 1).stdout;
      if WriteSucceeds(steps, writable, i) {
        assert lines == [steps[i].line] + rest;
        forall k | 0 <= k < |lines|
          ensures lines[k] == steps[i + k].line
        {
          if k > 0 {
            assert lines[k] == rest[k - 1];
          }
        }
      }
    }
  }

  /**
   * The loop from step `i` on succeeds exactly when every write succeeds,
   * and then it has printed one line per step and written the file of every
   * step that has one, in order.
   */
  lemma {:induction false} EmitSuccess(steps: seq<Step>, writable: string -> bool, i: nat)
    requires i <= |steps|
    ensures Emit(steps, writable, i).exit == Success <==> WritesSucceed(steps, writable, i, |steps|)
    ensures Emit(steps, writable, i).exit == Success ==>
      |Emit(steps, writable, i).stdout| == |steps| - i && Emit(steps, writable, i).files == Names(steps, i, |steps|)
    decreases |steps| - i
  {
    if i < |steps| {
      EmitSuccess(steps, writable, i + 1);
      WritesSucceedFirst(steps, writable, i);
    }
  }

  /**
   * A loop that fails stops at the first step whose write fails, after
   * printing that step's line and writing the files of the steps before it.
   */
  lemma {:induction false} EmitFailure(steps: seq<Step>, writable: string -> bool, i: nat)
    requires i <= |steps|
    ensures Emit(steps, writable, i).exit == Failure ==>
      && 1 <= |Emit(steps, writable, i).stdout| <= |steps| - i
      && WritesSucceed(steps, writable, i, i + |Emit(steps, writable, i).stdout| - 1)
      && !WriteSucceeds(steps, writable, i + |Emit(steps, writable, i).stdout| - 1)
      && Emit(steps, writable, i).files == Names(steps, i, i + |Emit(steps, writable, i).stdout| - 1)
    decreases |steps| - i
  {
    var r := Emit(steps, writable, i);
    if r.exit == Success {
    } else if WriteSucceeds(steps, writable, i) {
      EmitFailure(steps, writable, i + 1);
      var rest := Emit(steps, writable, i + 1);
      var j := i + |r.stdout| - 1;
      assert j == i + 1 + |rest.stdout| - 1;
      assert WritesSucceed(steps, writable, i, j) by {
        forall m | i <= m < j ensures WriteSucceeds(steps, writable, m) {
          if m > i {
            assert i + 1 <= m < j;
          }
        }
      }
    }
  }

  /** A file name is listed for steps `lo` to `hi - 1` exactly when it is the file of one of those steps. */
  lemma {:induction false} NamesExactly(steps: seq<Step>, lo: nat, hi: nat, name: string)
    requires lo <= hi <= |steps|
    ensures name in Names(steps, lo, hi) <==> exists j :: lo <= j < hi && steps[j].file == Some(name)
    decreases hi - lo
  {
    if lo < hi {
      NamesExactly(steps, lo + 1, hi, name);
      var head := match steps[lo].file case Some(f) => [f] case None => [];
      var tail := Names(steps, lo + 1, hi);
      assert Names(steps, lo, hi) == head + tail;
      if exists j :: lo <= j < hi && steps[j].file == Some(name) {
        var j :| lo <= j < hi && steps[j].file == Some(name);
        if j == lo {
          assert head == [name];
        } else {
          assert name in tail;
        }
      }
      if name in head {
        assert steps[lo].file == Some(name);
      } else if name in tail {
        var j :| lo + 1 <= j < hi && steps[j].file == Some(name);
        assert lo <= j < hi;
      }
    }
  }

  /** No two steps write the same file. */
  predicate FilesDistinct(steps: seq<Step>) {
    forall a, b :: 0 <= a < b < |steps| && steps[a].file.Some? ==> steps[a].file != steps[b].file
  }

  /** When no two steps write the same file, no file name is listed twice. */
  lemma {:induction false} NamesDistinctList(steps: seq<Step>, lo: nat, hi: nat)
    requires lo <= hi <= |steps|
    requires FilesDistinct(steps)
    ensures var names := Names(steps, lo, hi);
      forall a, b :: 0 <= a < b < |names| ==> names[a] != names[b]
    decreases hi - lo
  {
    if lo < hi {
      NamesDistinctList(steps, lo + 1, hi);
      var names := Names(steps, lo, hi);
      var tail := Names(steps, lo + 1, hi);
      if steps[lo].file.Some? {
        var first := steps[lo].file.value;
        assert names == [first] + tail;
        NamesExactly(steps, lo + 1, hi, first);
        assert first !in tail;
        forall a, b | 0 <= a < b < |names|
          ensures names[a] != names[b]
        {
          if a > 0 {
            assert names[a] == tail[a - 1] && names[b] == tail[b - 1];
          } else {
            assert names[b] == tail[b - 1] && names[b] in tail;
          }
        }
      } else {
        assert names == tail;
      }
    }
  }

  /** The codes of one run are re-encoded into distinct files. */
  lemma StepFilesDistinct(features: seq<Feature>, out: Option<string>)
    ensures FilesDistinct(Steps(features, out))
  {
    var steps := Steps(features, out);
    forall a, b | 0 <= a < b < |steps| && steps[a].file.Some?
      ensures steps[a].file != steps[b].file
    {
      if steps[b].file.Some? {
        NamesDistinct(out.value, |features|, a, b);
      }
    }
  }

  /** With at least one code, the run is the loop over the steps of the codes. */
  lemma ReportEmits(features: seq<Feature>, out: Option<string>, writable: string -> bool)
    requires |features| > 0
    ensures Report(Some(features), out, writable) == Emit(Steps(features, out), writable, 0)
  {
  }

  /** With no code detected: one line on standard error, nothing printed, no file, success. */
  lemma NoCodesReport(out: Option<string>, writable: string -> bool)
    ensures Report(Some([]), out, writable) == Outcome([], [NoCodesMessage], [], Success)
  {
  }

  /** The detector or the image could not be created: nothing printed, no file, failure. */
  lemma DetectionFailedReport(out: Option<string>, writable: string -> bool)
    ensures Report(None, out, writable) == Outcome([], [], [], Failure)
  {
  }

  /**
   * With at least one code: nothing on standard error, and one standard
   * output line per code reached, in detection order: the message of a code
   * that has one, the hex of its payload otherwise (`Line`).
   */
  lemma ReportLines(features: seq<Feature>, out: Option<string>, writable: string -> bool)
    requires |features| > 0
    ensures var r := Report(Some(features), out, writable);
      && r.stderr == []
      && 1 <= |r.stdout| <= |features|
      && forall k :: 0 <= k < |r.stdout| ==> r.stdout[k] == Line(features[k])
  {
    var steps := Steps(features, out);
    ReportEmits(features, out, writable);
    EmitLines(steps, writable, 0);
    var lines := Emit(steps, writable, 0).stdout;
    forall k | 0 <= k < |lines|
      ensures lines[k] == Line(features[k])
    {
      assert lines[k] == steps[0 + k].line;
    }
  }

  /**
   * With at least one code, the run succeeds exactly when the write of every
   * file it derives succeeds, and then it prints one line for every code.
   */
  lemma ReportExit(features: seq<Feature>, out: Option<string>, writable: string -> bool)
    requires |features| > 0
    ensures var r := Report(Some(features), out, writable);
      r.exit == Success <==> forall j :: 0 <= j < |features| && features[j].message.Some? && out.Some? ==>
        writable(OutputFileName(out.value, |features|, j))
    ensures var r := Report(Some(features), out, writable);
      r.exit == Success ==> |r.stdout| == |features|
  {
    var steps := Steps(features, out);
    EmitSuccess(steps, writable, 0);
    if WritesSucceed(steps, writable, 0, |features|) {
      forall j | 0 <= j < |features| && features[j].message.Some? && out.Some?
        ensures writable(OutputFileName(out.value, |features|, j))
      {
        assert WriteSucceeds(steps, writable, j);
      }
    } else {
      var j :| 0 <= j < |features| && !WriteSucceeds(steps, writable, j);
      assert features[j].message.Some? && out.Some? && !writable(OutputFileName(out.value, |features|, j));
    }
  }

  /** The files a run has written are those of the steps before `hi`, where `hi` is the end or the failing step. */
  lemma ReportWritten(features: seq<Feature>, out: Option<string>, writable: string -> bool) returns (hi: nat)
    requires |features| > 0
    ensures hi <= |features|
    ensures Report(Some(features), out, writable).files == Names(Steps(features, out), 0, hi)
    ensures Report(Some(features), out, writable).exit == Success ==> hi == |features|
    ensures Report(Some(features), out, writable).exit == Failure ==>
      && hi < |features|
      && WritesSucceed(Steps(features, out), writable, 0, hi)
      && !WriteSucceeds(Steps(features, out), writable, hi)
  {
    var steps := Steps(features, out);
    var r := Emit(steps, writable, 0);
    EmitSuccess(steps, writable, 0);
    if r.exit == Failure {
      EmitFailure(steps, writable, 0);
      hi := |r.stdout| - 1;
    } else {
      hi := |features|;
    }
  }

  /**
   * Every file a run writes is the output name of a code that has a message,
   * and is written only when `--out` is given.
   */
  lemma ReportFilesNamed(features: seq<Feature>, out: Option<string>, writable: string -> bool)
    requires |features| > 0
    ensures forall name :: name in Report(Some(features), out, writable).files ==>
      out.Some? && exists j :: 0 <= j < |features| && features[j].message.Some? && name == OutputFileName(out.value, |features|, j)
  {
    var hi := ReportWritten(features, out, writable);
    var steps := Steps(features, out);
    forall name | name in Report(Some(features), out, writable).files
      ensures out.Some? && exists j :: 0 <= j < |features| && features[j].message.Some? && name == OutputFileName(out.value, |features|, j)
    {
      NamesExactly(steps, 0, hi, name);
      var j :| 0 <= j < hi && steps[j].file == Some(name);
      assert FileFor(features, out, j) == Some(name);
    }
  }

  /** A run never writes the same file twice. */
  lemma ReportFilesDistinct(features: seq<Feature>, out: Option<string>, writable: string -> bool)
    requires |features| > 0
    ensures var files := Report(Some(features), out, writable).files;
      forall a, b :: 0 <= a < b < |files| ==> files[a] != files[b]
  {
    var hi := ReportWritten(features, out, writable);
    StepFilesDistinct(features, out);
    NamesDistinctList(Steps(features, out), 0, hi);
  }

  /** A successful run writes the output file of every code that has a message when `--out` is given. */
  lemma ReportFilesComplete(features: seq<Feature>, out: Option<string>, writable: string -> bool)
    requires |features| > 0
    ensures Report(Some(features), out, writable).exit == Success ==>
      forall j :: 0 <= j < |features| && features[j].message.Some? && out.Some? ==>
        OutputFileName(out.value, |features|, j) in Report(Some(features), out, writable).files
  {
    var hi := ReportWritten(features, out, writable);
    var steps := Steps(features, out);
    if Report(Some(features), out, writable).exit == Success {
      forall j | 0 <= j < |features| && features[j].message.Some? && out.Some?
        ensures OutputFileName(out.value, |features|, j) in Report(Some(features), out, writable).files
      {
        assert steps[j].file == Some(OutputFileName(out.value, |features|, j));
        NamesExactly(steps, 0, hi, OutputFileName(out.value, |features|, j));
      }
    }
  }

  /** Without `--out` a run writes no file and cannot fail once the codes are detected. */
  lemma ReportWithoutOut(features: seq<Feature>, writable: string -> bool)
    ensures Report(Some(features), None, writable).files == []
    ensures Report(Some(features), None, writable).exit == Success
  {
    if |features| > 0 {
      var steps := Steps(features, None);
      EmitSuccess(steps, writable, 0);
      assert WritesSucceed(steps, writable, 0, |features|);
      var hi := ReportWritten(features, None, writable);
      var files := Report(Some(features), None, writable).files;
      if files != [] {
        NamesExactly(steps, 0, hi, files[0]);
      }
    }
  }
}
