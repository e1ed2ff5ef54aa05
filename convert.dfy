/**
 * `convertPdfToHtml`: the command line given to the `pdf2htmlEX` converter and the
 * mapping of its exit to an error. The converter itself is opaque: what it does with a
 * command line enters as a function from the argument list to how the process ended.
 */
module Convert {
  import opened Wrappers
  import opened Paths

  const Program: string := "pdf2htmlEX"
  const DestDirFlag: string := "--dest-dir"

  /** The flag/value pairs passed after `--dest-dir`, in command-line order. */
  const FixedOptions: seq<(string, string)> := [
    ("--embed-css", "1"),
    ("--embed-font", "1"),
    ("--embed-image", "1"),
    ("--embed-javascript", "1"),
    ("--embed-outline", "1"),
    ("--css-filename", ""),
    ("--outline-filename", ""),
    ("--optimize-text", "1"),
    ("--correct-text-visibility", "2"),
    ("--process-nontext", "1"),
    ("--process-outline", "1"),
    ("--printing", "1"),
    ("--quiet", "1")
  ]

  /** Lays flag/value pairs out as consecutive arguments. */
  function Flatten(pairs: seq<(string, string)>): (r: seq<string>)
    ensures |r| == 2 * |pairs|
    decreases |pairs|
  {
    if pairs == [] then [] else [pairs[0].0, pairs[0].1] + Flatten(pairs[1..])
  }

  /** Reads consecutive arguments back as flag/value pairs. */
  function Pairs(args: seq<string>): seq<(string, string)>
    requires |args| % 2 == 0
    decreases |args|
  {
    if args == [] then [] else [(args[0], args[1])] + Pairs(args[2..])
  }

  lemma {:induction false} PairsFlatten(pairs: seq<(string, string)>)
    ensures Pairs(Flatten(pairs)) == pairs
    decreases |pairs|
  {
    if pairs != [] {
      PairsFlatten(pairs[1..]);
      assert Flatten(pairs)[2..] == Flatten(pairs[1..]);
    }
  }

  /**
   * The argument list of the converter: the program name, `--dest-dir` with the directory of
   * the output path, the fixed options in order, then the input path and the output file's
   * base name as positional arguments.
   */
  function ConverterArgs(pdfPath: string, htmlPath: string): (argv: seq<string>)
    ensures |argv| == 5 + 2 * |FixedOptions|
    ensures argv[0] == Program && argv[1] == DestDirFlag && argv[2] == Dir(htmlPath)
    ensures Pairs(argv[1..|argv| - 2]) == [(DestDirFlag, Dir(htmlPath))] + FixedOptions
    ensures argv[|argv| - 2] == pdfPath && argv[|argv| - 1] == Base(htmlPath)
  {
    var options := [(DestDirFlag, Dir(htmlPath))] + FixedOptions;
    PairsFlatten(options);
    var argv := [Program] + Flatten(options) + [pdfPath, Base(htmlPath)];
    assert argv[1..|argv| - 2] == Flatten(options);
    argv
  }

  /** How the child process ended. */
  datatype ProcessEnd =
    | StartFailed                           // could not be launched (binary missing, ...)
    | Exited(code: int, stderr: string)     // ran; its exit code and captured standard error

  datatype ExitCause = StartError | ExitStatus(code: int)

  datatype ConvertError =
    | WorkingDirError                                  // os.Getwd failed
    | ProcessError(cause: ExitCause, stderr: string)   // "<exit error>: <stderr>"

  /** What the environment does: the working directory lookup and the converter run. */
  datatype ConvertEnv = ConvertEnv(getwdOk: bool, run: seq<string> -> ProcessEnd)

  /**
   * Runs the converter on `ConverterArgs(pdfPath, htmlPath)`. Succeeds exactly when the
   * working directory is known and the process exits with 0; a failed run reports the
   * captured standard error (empty when the process never started).
   */
  function ConvertPdfToHtml(pdfPath: string, htmlPath: string, env: ConvertEnv): (r: Outcome<ConvertError>)
    ensures r.Pass? <==>
      env.getwdOk && env.run(ConverterArgs(pdfPath, htmlPath)).Exited? && env.run(ConverterArgs(pdfPath, htmlPath)).code == 0
    ensures !env.getwdOk ==> r == Fail(WorkingDirError)
    ensures env.getwdOk && env.run(ConverterArgs(pdfPath, htmlPath)).Exited? && r.Fail? ==>
      r.error == ProcessError(ExitStatus(env.run(ConverterArgs(pdfPath, htmlPath)).code),
                              env.run(ConverterArgs(pdfPath, htmlPath)).stderr)
  {
    if !env.getwdOk then Fail(WorkingDirError)
    else match env.run(ConverterArgs(pdfPath, htmlPath))
      case StartFailed => Fail(ProcessError(StartError, ""))
      case Exited(code, stderr) => if code != 0 then Fail(ProcessError(ExitStatus(code), stderr)) else Pass
  }
}
