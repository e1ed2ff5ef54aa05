/**
 * The `/pdf-to-html` request handler: admission through the semaphore, a temporary
 * workspace, then download, validation, conversion and the output check, each stage
 * running only when every earlier one succeeded. The deferred actions (removing the
 * workspace, then giving the slot back) run on every exit after they were registered.
 *
 * Each external step enters through `Env` as the outcome it had. What the handler does
 * to the world is recorded, in order, as a trace of effects.
 */
module Handler {
  import opened Wrappers
  import opened Paths
  import opened Query
  import opened Fetch
  import opened Validate
  import opened Convert
  import opened Admission

  const InputName: string := "input.pdf"
  const OutputName: string := "output.html"

  /** A directory as `os.MkdirTemp` returns it: non-empty, no trailing separator. */
  type WorkspaceDir = d: string | d != [] && d[|d| - 1] != Separator witness "/tmp"

  /** `os.Stat` of the output: only a "does not exist" error stops the handler. */
  datatype StatResult = Found | NotExist | OtherStatError

  /** The outcomes of the external steps of one request. */
  datatype Env = Env(
    mkdirTemp: Option<WorkspaceDir>,   // None: os.MkdirTemp failed
    fetch: FetchEnv,
    openOk: bool,                      // validatePDF could open the downloaded file
    convert: ConvertEnv,
    stat: StatResult)

  /** The cause carried by a 500 response. */
  datatype ErrorKind =
    | WorkspaceFailed
    | DownloadFailed(fetchError: FetchError)
    | InvalidPdf(validationError: ValidationError)
    | ConversionFailed(convertError: ConvertError)
    | OutputMissing

  datatype Response =
    | NoResponse                  // nothing written yet
    | MissingPdfUrl               // 400
    | ServerError(kind: ErrorKind) // 500
    | HtmlFile(path: string)      // 200, the converted file
  {
    function Status(): int
      requires !NoResponse?
    {
      match this
      case MissingPdfUrl => 400
      case ServerError(_) => 500
      case HtmlFile(_) => 200
    }

    function ContentType(): string
      requires !NoResponse?
    {
      if HtmlFile? then "text/html" else "application/json"
    }
  }

  /** What the handler does outside itself, in the order it does it. */
  datatype Effect =
    | Acquire                                    // takes a semaphore slot
    | MkdirTemp(dir: string)                     // creates the workspace
    | CallDownload(dest: string, url: string)
    | CallValidate(path: string)
    | CallConvert(pdfPath: string, htmlPath: string)
    | StatOutput(path: string)
    | RemoveAll(dir: string)                     // removes the workspace
    | Release                                    // gives the slot back
  {
    predicate IsStageCall()
    {
      CallDownload? || CallValidate? || CallConvert? || StatOutput?
    }
  }

  /** The stage a 500 cause comes from: 0 download, 1 validation, 2 conversion, 3 output check. */
  function StageOf(kind: ErrorKind): int
  {
    match kind
    case WorkspaceFailed => -1
    case DownloadFailed(_) => 0
    case InvalidPdf(_) => 1
    case ConversionFailed(_) => 2
    case OutputMissing => 3
  }

  /** One stage: the call that starts it and what it comes to. */
  datatype Step = Step(call: Effect, outcome: Outcome<ErrorKind>)

  /** A stage whose call is `call` and whose failures are tagged with stage `k`. */
  ghost predicate StageStep(step: Step, k: int)
  {
    step.call.IsStageCall() && (step.outcome.Fail? ==> StageOf(step.outcome.error) == k)
  }

  function DownloadStep(dir: WorkspaceDir, url: string, env: Env): (step: Step)
    ensures StageStep(step, 0)
  {
    var fetched := DownloadFile(env.fetch);
    Step(CallDownload(Join(dir, InputName), url), if fetched.Success? then Pass else Fail(DownloadFailed(fetched.error)))
  }

  /** Validation reads what the download wrote; that matters only when the download succeeded. */
  function ValidateStep(dir: WorkspaceDir, env: Env): (step: Step)
    ensures StageStep(step, 1)
  {
    var fetched := DownloadFile(env.fetch);
    var contents := if fetched.Success? then fetched.value else [];
    var checked := ValidatePdf(if env.openOk then Some(contents) else None);
    Step(CallValidate(Join(dir, InputName)), if checked.Pass? then Pass else Fail(InvalidPdf(checked.error)))
  }

  function ConvertStep(dir: WorkspaceDir, env: Env): (step: Step)
    ensures StageStep(step, 2)
  {
    var converted := ConvertPdfToHtml(Join(dir, InputName), Join(dir, OutputName), env.convert);
    Step(CallConvert(Join(dir, InputName), Join(dir, OutputName)),
         if converted.Pass? then Pass else Fail(ConversionFailed(converted.error)))
  }

  function StatStep(dir: WorkspaceDir, env: Env): (step: Step)
    ensures StageStep(step, 3)
  {
    Step(StatOutput(Join(dir, OutputName)), if env.stat == NotExist then Fail(OutputMissing) else Pass)
  }

  /** The four stages in handler order, each with the outcome it would have. */
  function Stages(dir: WorkspaceDir, url: string, env: Env): (steps: seq<Step>)
    ensures |steps| == 4
    ensures forall i :: 0 <= i < |steps| ==> steps[i].call.IsStageCall()
    ensures forall i :: 0 <= i < |steps| && steps[i].outcome.Fail? ==> StageOf(steps[i].outcome.error) == i
  {
    var steps := [DownloadStep(dir, url, env), ValidateStep(dir, env), ConvertStep(dir, env), StatStep(dir, env)];
    assert forall i :: 0 <= i < 4 ==> StageStep(steps[i], i);
    steps
  }

  /**
   * The stages are, in this order, the download into the workspace's input file, its
   * validation, the conversion to the workspace's output file and the check of that output.
   */
  lemma StagesInOrder(dir: WorkspaceDir, url: string, env: Env)
    ensures var steps := Stages(dir, url, env);
      && steps[0].call == CallDownload(Join(dir, InputName), url)
      && steps[1].call == CallValidate(Join(dir, InputName))
      && steps[2].call == CallConvert(Join(dir, InputName), Join(dir, OutputName))
      && steps[3].call == StatOutput(Join(dir, OutputName))
  {
    var steps := Stages(dir, url, env);
    assert steps[0] == DownloadStep(dir, url, env) && steps[1] == ValidateStep(dir, env);
    assert steps[2] == ConvertStep(dir, env) && steps[3] == StatStep(dir, env);
  }

  /** Index of the first failing stage, if any. */
  function FirstFailure(steps: seq<Step>): (r: Option<nat>)
    ensures r.Some? ==> r.value < |steps| && steps[r.value].outcome.Fail?
    ensures r.Some? ==> forall j :: 0 <= j < r.value ==> steps[j].outcome.Pass?
    ensures r.None? ==> forall j :: 0 <= j < |steps| ==> steps[j].outcome.Pass?
    decreases |steps|
  {
    if steps == [] then None
    else if steps[0].outcome.Fail? then Some(0)
    else match FirstFailure(steps[1..])
      case None => None
      case Some(i) => Some(i + 1)
  }

  /** How many stages start: all of them, or those up to and including the first failure. */
  function Started(steps: seq<Step>): nat
  {
    match FirstFailure(steps)
    case Some(i) => i + 1
    case None => |steps|
  }

  function Calls(steps: seq<Step>): seq<Effect>
  {
    seq(|steps|, i requires 0 <= i < |steps| => steps[i].call)
  }

  /** The response of the stages: the first failure's cause, or the output file. */
  function PipelineResponse(dir: WorkspaceDir, url: string, env: Env): Response
  {
    var steps := Stages(dir, url, env);
    match FirstFailure(steps)
    case Some(i) => ServerError(steps[i].outcome.error)
    case None => HtmlFile(Join(dir, OutputName))
  }

  /** The calls of the stages that start. */
  function PipelineEffects(dir: WorkspaceDir, url: string, env: Env): seq<Effect>
  {
    var steps := Stages(dir, url, env);
    Calls(steps[..Started(steps)])
  }

  /** The response to a request with query `query`. */
  function Respond(query: Option<Values>, env: Env): Response
  {
    var url := ExtractRawPdfUrl(query);
    if url == "" then MissingPdfUrl
    else match env.mkdirTemp
      case None => ServerError(WorkspaceFailed)
      case Some(dir) => PipelineResponse(dir, url, env)
  }

  /** Everything a request with query `query` does, in order. */
  function Effects(query: Option<Values>, env: Env): seq<Effect>
  {
    var url := ExtractRawPdfUrl(query);
    if url == "" then []
    else match env.mkdirTemp
      case None => [Acquire, Release]
      case Some(dir) => [Acquire, MkdirTemp(dir)] + PipelineEffects(dir, url, env) + [RemoveAll(dir), Release]
  }

  /** The per-request state: the response written through the context, the workspace, the trace. */
  class Exchange {
    var workspaceExists: bool
    var response: Response
    var trace: seq<Effect>

    constructor ()
      ensures !workspaceExists && response == NoResponse && trace == []
    {
      workspaceExists, response, trace := false, NoResponse, [];
    }

    /** `c.JSON` or `c.File`: a response is written once. */
    method Reply(r: Response)
      requires response == NoResponse && r != NoResponse
      modifies this
      ensures response == r
      ensures workspaceExists == old(workspaceExists) && trace == old(trace)
    {
      response := r;
    }

    /** The start of a stage: its call is recorded. */
    method Record(e: Effect)
      requires e.IsStageCall()
      modifies this
      ensures trace == old(trace) + [e]
      ensures workspaceExists == old(workspaceExists) && response == old(response)
    {
      trace := trace + [e];
    }

    /** `semaphore <- struct{}{}`: the request takes a slot, and that is recorded. */
    method TakeSlot(sem: Semaphore)
      requires sem.Valid() && sem.count < Capacity
      modifies this, sem
      ensures sem.Valid() && sem.count == old(sem.count) + 1
      ensures sem.acquired == old(sem.acquired) + 1 && sem.released == old(sem.released)
      ensures trace == old(trace) + [Acquire]
      ensures workspaceExists == old(workspaceExists) && response == old(response)
    {
      sem.Acquire();
      trace := trace + [Acquire];
    }

    /** The deferred `<-semaphore`: the request gives its slot back, and that is recorded. */
    method GiveSlotBack(sem: Semaphore)
      requires sem.Valid() && sem.count > 0
      modifies this, sem
      ensures sem.Valid() && sem.count == old(sem.count) - 1
      ensures sem.released == old(sem.released) + 1 && sem.acquired == old(sem.acquired)
      ensures trace == old(trace) + [Release]
      ensures workspaceExists == old(workspaceExists) && response == old(response)
    {
      sem.Release();
      trace := trace + [Release];
    }

    /** `os.MkdirTemp` having returned `dir`. */
    method CreateWorkspace(dir: WorkspaceDir)
      requires !workspaceExists
      modifies this
      ensures workspaceExists
      ensures trace == old(trace) + [MkdirTemp(dir)] && response == old(response)
    {
      workspaceExists := true;
      trace := trace + [MkdirTemp(dir)];
    }

    /** `os.RemoveAll(tempDir)`. */
    method RemoveWorkspace(dir: WorkspaceDir)
      requires workspaceExists
      modifies this
      ensures !workspaceExists
      ensures trace == old(trace) + [RemoveAll(dir)] && response == old(response)
    {
      workspaceExists := false;
      trace := trace + [RemoveAll(dir)];
    }
  }

  /** The calls of the first `n` stages, listed. */
  lemma CallsOfPrefix(steps: seq<Step>, n: nat)
    requires n <= |steps| && n <= 4
    ensures Calls(steps[..n]) ==
      if n == 0 then []
      else if n == 1 then [steps[0].call]
      else if n == 2 then [steps[0].call, steps[1].call]
      else if n == 3 then [steps[0].call, steps[1].call, steps[2].call]
      else [steps[0].call, steps[1].call, steps[2].call, steps[3].call]
  {
  }

  /** When stage `k` is the first to fail, `k + 1` stages start. */
  lemma StopsAt(steps: seq<Step>, k: nat)
    requires k < |steps| && steps[k].outcome.Fail?
    requires forall j :: 0 <= j < k ==> steps[j].outcome.Pass?
    ensures FirstFailure(steps) == Some(k) && Started(steps) == k + 1
  {
  }

  /** A failed download ends the stages: 500 with its error, after the download call only. */
  lemma DownloadStops(dir: WorkspaceDir, url: string, env: Env)
    requires DownloadStep(dir, url, env).outcome.Fail?
    ensures PipelineResponse(dir, url, env) == ServerError(DownloadFailed(DownloadFile(env.fetch).error))
    ensures PipelineEffects(dir, url, env) == [CallDownload(Join(dir, InputName), url)]
  {
    var steps := Stages(dir, url, env);
    StagesInOrder(dir, url, env);
    assert steps[0] == DownloadStep(dir, url, env);
    StopsAt(steps, 0);
    CallsOfPrefix(steps, 1);
  }

  /** A file that fails validation ends the stages after the validation call. */
  lemma ValidationStops(dir: WorkspaceDir, url: string, env: Env)
    requires DownloadStep(dir, url, env).outcome.Pass? && ValidateStep(dir, env).outcome.Fail?
    requires DownloadFile(env.fetch).Success?
    ensures PipelineResponse(dir, url, env) ==
      ServerError(InvalidPdf(ValidatePdf(if env.openOk then Some(DownloadFile(env.fetch).value) else None).error))
    ensures PipelineEffects(dir, url, env) == [CallDownload(Join(dir, InputName), url), CallValidate(Join(dir, InputName))]
  {
    var steps := Stages(dir, url, env);
    StagesInOrder(dir, url, env);
    assert steps[0] == DownloadStep(dir, url, env) && steps[1] == ValidateStep(dir, env);
    assert steps[0].outcome.Pass? && steps[1].outcome.Fail?;
    StopsAt(steps, 1);
    CallsOfPrefix(steps, 2);
  }

  /** A failed conversion ends the stages after the converter call. */
  lemma ConversionStops(dir: WorkspaceDir, url: string, env: Env)
    requires DownloadStep(dir, url, env).outcome.Pass? && ValidateStep(dir, env).outcome.Pass?
    requires ConvertStep(dir, env).outcome.Fail?
    ensures PipelineResponse(dir, url, env) ==
      ServerError(ConversionFailed(ConvertPdfToHtml(Join(dir, InputName), Join(dir, OutputName), env.convert).error))
    ensures PipelineEffects(dir, url, env) ==
      [CallDownload(Join(dir, InputName), url), CallValidate(Join(dir, InputName)),
       CallConvert(Join(dir, InputName), Join(dir, OutputName))]
  {
    var steps := Stages(dir, url, env);
    StagesInOrder(dir, url, env);
    assert steps[0] == DownloadStep(dir, url, env) && steps[1] == ValidateStep(dir, env);
    assert steps[2] == ConvertStep(dir, env);
    assert steps[0].outcome.Pass? && steps[1].outcome.Pass? && steps[2].outcome.Fail?;
    StopsAt(steps, 2);
    CallsOfPrefix(steps, 3);
  }

  /** The output check is the last stage: a missing output gives 500, otherwise the file is served. */
  lemma OutputCheckDecides(dir: WorkspaceDir, url: string, env: Env)
    requires DownloadStep(dir, url, env).outcome.Pass? && ValidateStep(dir, env).outcome.Pass?
    requires ConvertStep(dir, env).outcome.Pass?
    ensures PipelineResponse(dir, url, env) ==
      if env.stat == NotExist then ServerError(OutputMissing) else HtmlFile(Join(dir, OutputName))
  {
    var steps := Stages(dir, url, env);
    assert steps[0] == DownloadStep(dir, url, env) && steps[1] == ValidateStep(dir, env);
    assert steps[2] == ConvertStep(dir, env) && steps[3] == StatStep(dir, env);
    assert steps[0].outcome.Pass? && steps[1].outcome.Pass? && steps[2].outcome.Pass?;
    if env.stat == NotExist {
      StopsAt(steps, 3);
    } else {
      assert FirstFailure(steps) == None;
    }
  }

  /** Once the conversion succeeds, all four stages start, the output check last. */
  lemma AllStagesStart(dir: WorkspaceDir, url: string, env: Env)
    requires DownloadStep(dir, url, env).outcome.Pass? && ValidateStep(dir, env).outcome.Pass?
    requires ConvertStep(dir, env).outcome.Pass?
    ensures PipelineEffects(dir, url, env) ==
      [CallDownload(Join(dir, InputName), url), CallValidate(Join(dir, InputName)),
       CallConvert(Join(dir, InputName), Join(dir, OutputName)), StatOutput(Join(dir, OutputName))]
  {
    var steps := Stages(dir, url, env);
    StagesInOrder(dir, url, env);
    assert steps[0] == DownloadStep(dir, url, env) && steps[1] == ValidateStep(dir, env);
    assert steps[2] == ConvertStep(dir, env);
    assert steps[0].outcome.Pass? && steps[1].outcome.Pass? && steps[2].outcome.Pass?;
    assert Started(steps) == 4 by {
      if steps[3].outcome.Fail? {
        StopsAt(steps, 3);
      }
    }
    CallsOfPrefix(steps, 4);
  }

  /**
   * The handler body after both defers are registered: the stages in order, returning at the
   * first failure with its 500, or serving the output file.
   */
  method RunStages(ex: Exchange, dir: WorkspaceDir, url: string, env: Env)
    requires ex.workspaceExists && ex.response == NoResponse
    modifies ex
    ensures ex.workspaceExists
    ensures ex.response == PipelineResponse(dir, url, env)
    ensures ex.trace == old(ex.trace) + PipelineEffects(dir, url, env)
  {
    var pdfPath := Join(dir, InputName);
    ex.Record(CallDownload(pdfPath, url));
    var fetched := DownloadFile(env.fetch);
    if fetched.Failure? {
      DownloadStops(dir, url, env);
      ex.Reply(ServerError(DownloadFailed(fetched.error)));
      return;
    }
    ex.Record(CallValidate(pdfPath));
    var checked := ValidatePdf(if env.openOk then Some(fetched.value) else None);
    if checked.Fail? {
      ValidationStops(dir, url, env);
      ex.Reply(ServerError(InvalidPdf(checked.error)));
      return;
    }
    var htmlPath := Join(dir, OutputName);
    ex.Record(CallConvert(pdfPath, htmlPath));
    var converted := ConvertPdfToHtml(pdfPath, htmlPath, env.convert);
    if converted.Fail? {
      ConversionStops(dir, url, env);
      ex.Reply(ServerError(ConversionFailed(converted.error)));
      return;
    }
    var outputPath := Join(dir, OutputName);
    ex.Record(StatOutput(outputPath));
    OutputCheckDecides(dir, url, env);
    AllStagesStart(dir, url, env);
    if env.stat == NotExist {
      ex.Reply(ServerError(OutputMissing));
      return;
    }
    ex.Reply(HtmlFile(outputPath));
  }

  /**
   * One request from start to finish. A missing URL is answered with 400 before anything
   * else; otherwise the request holds a slot while it runs and gives it back on every path,
   * and a workspace it created is removed on every path, before the slot goes back.
   */
  method Handle(sem: Semaphore, ex: Exchange, query: Option<Values>, env: Env)
    requires sem.Valid() && ex.response == NoResponse && !ex.workspaceExists
    requires sem.count < Capacity || ExtractRawPdfUrl(query) == ""
    modifies sem, ex
    ensures sem.Valid() && sem.count == old(sem.count)
    ensures var n := if ExtractRawPdfUrl(query) == "" then 0 else 1;
      sem.acquired == old(sem.acquired) + n && sem.released == old(sem.released) + n
    ensures !ex.workspaceExists
    ensures ex.response == Respond(query, env)
    ensures ex.trace == old(ex.trace) + Effects(query, env)
  {
    var url := ExtractRawPdfUrl(query);
    if url == "" {
      ex.Reply(MissingPdfUrl);
      return;
    }
    ex.TakeSlot(sem);
    // deferred from here on: the slot is given back
    match env.mkdirTemp {
      case None =>
        ex.Reply(ServerError(WorkspaceFailed));
      case Some(dir) =>
        ex.CreateWorkspace(dir);
        // deferred from here on: the workspace is removed (runs before the slot goes back)
        RunStages(ex, dir, url, env);
        ex.RemoveWorkspace(dir);
    }
    ex.GiveSlotBack(sem);
  }

  /** The calls of the stages that start: at least the download, at most all four, nothing else. */
  lemma PipelineEffectsAreStageCalls(dir: WorkspaceDir, url: string, env: Env)
    ensures var p := PipelineEffects(dir, url, env);
      1 <= |p| <= 4 && p[0] == CallDownload(Join(dir, InputName), url)
      && forall i :: 0 <= i < |p| ==> p[i].IsStageCall()
  {
    var steps := Stages(dir, url, env);
    StagesInOrder(dir, url, env);
    var n := Started(steps);
    assert 1 <= n <= 4;
    var p := Calls(steps[..n]);
    forall i | 0 <= i < |p| ensures p[i].IsStageCall() {
      assert p[i] == steps[i].call;
    }
  }

  /**
   * A request without a URL touches nothing. Any other request takes one slot before it does
   * anything else and gives exactly that slot back as the last thing it does, whatever failed.
   */
  lemma SlotReleasedExactlyOnce(query: Option<Values>, env: Env)
    ensures ExtractRawPdfUrl(query) == "" ==>
      Respond(query, env) == MissingPdfUrl && Respond(query, env).Status() == 400 && Effects(query, env) == []
    ensures var e := Effects(query, env);
      multiset(e)[Acquire] == multiset(e)[Release] == if ExtractRawPdfUrl(query) == "" then 0 else 1
    ensures var e := Effects(query, env);
      ExtractRawPdfUrl(query) != "" ==> |e| >= 2 && e[0] == Acquire && e[|e| - 1] == Release
  {
    var url := ExtractRawPdfUrl(query);
    if url != "" && env.mkdirTemp.Some? {
      var dir := env.mkdirTemp.value;
      PipelineEffectsAreStageCalls(dir, url, env);
      SlotAroundStages(dir, PipelineEffects(dir, url, env));
    }
  }

  /** Around calls that are all stage calls, the slot is taken once, first, and given back once, last. */
  lemma SlotAroundStages(dir: WorkspaceDir, p: seq<Effect>)
    requires forall i :: 0 <= i < |p| ==> p[i].IsStageCall()
    ensures var e := [Acquire, MkdirTemp(dir)] + p + [RemoveAll(dir), Release];
      multiset(e)[Acquire] == 1 && multiset(e)[Release] == 1 && e[0] == Acquire && e[|e| - 1] == Release
  {
    assert Acquire !in p && Release !in p;
    var e := [Acquire, MkdirTemp(dir)] + p + [RemoveAll(dir), Release];
    assert multiset(e) == multiset([Acquire, MkdirTemp(dir)]) + multiset(p) + multiset([RemoveAll(dir), Release]);
  }

  /**
   * A workspace is created only by a request with a URL whose `os.MkdirTemp` succeeded, and
   * the only workspace ever created or removed is that one.
   */
  lemma WorkspaceOnlyAfterMkdirTemp(query: Option<Values>, env: Env)
    ensures var e := Effects(query, env);
      (exists i :: 0 <= i < |e| && e[i].MkdirTemp?) <==> ExtractRawPdfUrl(query) != "" && env.mkdirTemp.Some?
    ensures var e := Effects(query, env);
      forall i :: 0 <= i < |e| && (e[i].MkdirTemp? || e[i].RemoveAll?) ==> env.mkdirTemp == Some(e[i].dir)
  {
    var url := ExtractRawPdfUrl(query);
    var e := Effects(query, env);
    if url != "" && env.mkdirTemp.Some? {
      var dir := env.mkdirTemp.value;
      var p := PipelineEffects(dir, url, env);
      PipelineEffectsAreStageCalls(dir, url, env);
      assert e == [Acquire, MkdirTemp(dir)] + p + [RemoveAll(dir), Release];
      assert e[1].MkdirTemp?;
      forall i | 0 <= i < |e| && (e[i].MkdirTemp? || e[i].RemoveAll?) ensures env.mkdirTemp == Some(e[i].dir) {
        assert i == 1 || i == |e| - 2;
      }
    }
  }

  /** When `os.MkdirTemp` fails the response is 500, nothing is removed, and the slot still goes back. */
  lemma MkdirTempFailureAnswers500(query: Option<Values>, env: Env)
    requires ExtractRawPdfUrl(query) != "" && env.mkdirTemp.None?
    ensures Respond(query, env) == ServerError(WorkspaceFailed) && Respond(query, env).Status() == 500
    ensures Effects(query, env) == [Acquire, Release]
  {
  }

  /**
   * A created workspace is removed on every path: it is created once, right after the slot is
   * taken, and removed once, after every stage and just before the slot goes back.
   */
  lemma WorkspaceRemovedOnEveryPath(query: Option<Values>, env: Env)
    requires ExtractRawPdfUrl(query) != "" && env.mkdirTemp.Some?
    ensures var e := Effects(query, env);
      var dir := env.mkdirTemp.value;
      && e[1] == MkdirTemp(dir) && e[|e| - 2] == RemoveAll(dir)
      && multiset(e)[MkdirTemp(dir)] == 1 && multiset(e)[RemoveAll(dir)] == 1
      && forall i :: 0 <= i < |e| && e[i].IsStageCall() ==> 1 < i < |e| - 2
  {
    var url := ExtractRawPdfUrl(query);
    var e := Effects(query, env);
    var dir := env.mkdirTemp.value;
    var p := PipelineEffects(dir, url, env);
    PipelineEffectsAreStageCalls(dir, url, env);
    assert e == [Acquire, MkdirTemp(dir)] + p + [RemoveAll(dir), Release];
    assert MkdirTemp(dir) !in p && RemoveAll(dir) !in p;
    assert multiset(e) == multiset([Acquire, MkdirTemp(dir)]) + multiset(p) + multiset([RemoveAll(dir), Release]);
  }

  /**
   * Stage `k` starts exactly when every earlier stage succeeded, and then it is the `k`-th call.
   * The response is a 500 from stage `k` exactly when stage `k` is the first to fail, and it
   * then carries that stage's error.
   */
  lemma StagesRunInOrder(query: Option<Values>, env: Env, k: nat)
    requires ExtractRawPdfUrl(query) != "" && env.mkdirTemp.Some? && k < 4
    ensures var steps := Stages(env.mkdirTemp.value, ExtractRawPdfUrl(query), env);
      var p := PipelineEffects(env.mkdirTemp.value, ExtractRawPdfUrl(query), env);
      && (k < |p| <==> forall j :: 0 <= j < k ==> steps[j].outcome.Pass?)
      && (k < |p| ==> p[k] == steps[k].call && Effects(query, env)[k + 2] == steps[k].call)
    ensures var steps := Stages(env.mkdirTemp.value, ExtractRawPdfUrl(query), env);
      var r := Respond(query, env);
      && (r.ServerError? && StageOf(r.kind) == k <==>
          steps[k].outcome.Fail? && forall j :: 0 <= j < k ==> steps[j].outcome.Pass?)
      && (r.ServerError? && StageOf(r.kind) == k ==> r.kind == steps[k].outcome.error)
  {
    var dir, url := env.mkdirTemp.value, ExtractRawPdfUrl(query);
    var steps := Stages(dir, url, env);
    var p := PipelineEffects(dir, url, env);
    assert Effects(query, env) == [Acquire, MkdirTemp(dir)] + p + [RemoveAll(dir), Release];
    match FirstFailure(steps)
    case None =>
    case Some(f) =>
      if k < f {
        assert steps[k].outcome.Pass?;
      } else if f < k {
        assert steps[f].outcome.Fail?;
      }
  }

  /** A request is served the HTML file exactly when it has a URL, got a workspace and every stage succeeded. */
  lemma ServedOnlyWhenAllStagesPass(query: Option<Values>, env: Env)
    ensures Respond(query, env).HtmlFile? <==>
      && ExtractRawPdfUrl(query) != "" && env.mkdirTemp.Some?
      && var steps := Stages(env.mkdirTemp.value, ExtractRawPdfUrl(query), env);
         forall j :: 0 <= j < |steps| ==> steps[j].outcome.Pass?
  {
    var url := ExtractRawPdfUrl(query);
    if url != "" && env.mkdirTemp.Some? {
      var steps := Stages(env.mkdirTemp.value, url, env);
      if FirstFailure(steps).Some? {
        assert steps[FirstFailure(steps).value].outcome.Fail?;
      }
    }
  }

  /**
   * The file served is the output path in the workspace, with status 200 and type text/html;
   * the download was answered 200 with a body starting with %PDF; and the converter exited
   * with 0 after being told to write that very file: `--dest-dir` is the workspace, the
   * output name is the served file's, the input is the downloaded file.
   */
  lemma ServedFileIsConverterOutput(query: Option<Values>, env: Env)
    requires Respond(query, env).HtmlFile?
    ensures ExtractRawPdfUrl(query) != "" && env.mkdirTemp.Some?
    ensures var dir := env.mkdirTemp.value;
      var pdfPath := Join(dir, InputName);
      var htmlPath := Join(dir, OutputName);
      var argv := ConverterArgs(pdfPath, htmlPath);
      && Respond(query, env) == HtmlFile(htmlPath)
      && Respond(query, env).Status() == 200 && Respond(query, env).ContentType() == "text/html"
      && env.fetch.reply.Some? && env.fetch.reply.value.statusCode == StatusOK
      && HasPrefix(env.fetch.reply.value.body, PdfMagic)
      && argv[2] == dir && argv[|argv| - 1] == OutputName && argv[|argv| - 2] == pdfPath
      && env.convert.run(argv).Exited? && env.convert.run(argv).code == 0
  {
    var url := ExtractRawPdfUrl(query);
    var dir := env.mkdirTemp.value;
    var steps := Stages(dir, url, env);
    assert FirstFailure(steps) == None;
    assert steps[0].outcome.Pass? && steps[1].outcome.Pass? && steps[2].outcome.Pass?;
    SplitJoin(dir, OutputName);
  }
}
