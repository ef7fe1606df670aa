/**
 The program's `main`: a linear pipeline of stages (open the device, query
 its resources, pick connector, mode and encoder, allocate the GEM buffer,
 export it as a dma-buf descriptor, bring up EGL and import the descriptor
 as an image). The outcome of every library call is an input, collected in
 `Platform`; the run records, stage by stage, the calls it issued, and ends
 with the exit status `main` returns.
 */
module Pipeline {
  import opened Common
  import opened DrmMode
  import opened Search
  import opened DisplayTarget
  import opened GemBuffer
  import opened EglAttribs

  datatype Stage =
    | DeviceOpen | ResourceQuery | ConnectorSearch | ModeSearch | EncoderSearch
    | BufferAllocation | BufferExport
    | DisplayInit | ApiBind | ConfigChoice | ContextCreation | ImageImport

  /** Number of stages of a complete run. */
  const StageCount: nat := 12

  /** Position of a stage in the order `main` runs them. */
  function Rank(s: Stage): (n: nat)
    ensures n < StageCount
  {
    match s
    case DeviceOpen => 0
    case ResourceQuery => 1
    case ConnectorSearch => 2
    case ModeSearch => 3
    case EncoderSearch => 4
    case BufferAllocation => 5
    case BufferExport => 6
    case DisplayInit => 7
    case ApiBind => 8
    case ConfigChoice => 9
    case ContextCreation => 10
    case ImageImport => 11
  }

  datatype DrmObject = ConnectorObject | EncoderObject

  /** A call into libdrm or EGL, with the arguments that carry information. */
  datatype Call =
    | DrmOpen(driver: string)
    | GetResources
    | GetObject(kind: DrmObject, index: nat)
    | FreeObject(kind: DrmObject, index: nat)
    | GemCreate(request: GemCreateRequest)
    | PrimeHandleToFd(handle: uint32, flags: uint32)
    | EglGetDisplay
    | EglInitialize
    | EglBindApi(api: int32)
    | EglChooseConfig
    | EglCreateContext
    | EglGetProcAddress(name: string)
    | EglCreateImage(context: nat, target: int32, clientBuffer: nat, attribs: seq<int32>)

  /** The stage a call belongs to. */
  function CallStage(c: Call): Stage
  {
    match c
    case DrmOpen(_) => DeviceOpen
    case GetResources => ResourceQuery
    case GetObject(kind, _) => if kind == ConnectorObject then ConnectorSearch else EncoderSearch
    case FreeObject(kind, _) => if kind == ConnectorObject then ConnectorSearch else EncoderSearch
    case GemCreate(_) => BufferAllocation
    case PrimeHandleToFd(_, _) => BufferExport
    case EglGetDisplay => DisplayInit
    case EglInitialize => DisplayInit
    case EglBindApi(_) => ApiBind
    case EglChooseConfig => ConfigChoice
    case EglCreateContext => ContextCreation
    case EglGetProcAddress(_) => ImageImport
    case EglCreateImage(_, _, _, _) => ImageImport
  }

  /** Return value and handle of the GEM allocation ioctl. */
  datatype GemReply = GemReply(ret: int32, handle: uint32)

  /** Return value and descriptor of the PRIME export. */
  datatype PrimeReply = PrimeReply(ret: int32, fd: int32)

  /**
   What the libraries answer: the descriptor from opening the device, the
   resource set (None for a failed query) with the records the driver returns
   for its connectors and encoders, the ioctl and export replies, and whether
   each checked EGL call succeeded.
   */
  datatype Platform = Platform(
    drmFd: int32,
    resources: Option<Resources>,
    gem: GemReply,
    prime: PrimeReply,
    eglInitialized: bool,
    apiBound: bool,
    configChosen: bool,
    contextCreated: bool,
    imageCreated: bool)

  /** One executed stage and the calls it issued, in order. */
  datatype StageLog = StageLog(stage: Stage, calls: seq<Call>)

  /**
   A finished run: `main`'s return value, the executed stages, the failing
   stage if any, and what the run established on the way: the target, the
   allocated buffer and the exported descriptor, each kept once obtained even
   when a later stage fails.
   */
  datatype Outcome = Outcome(
    exitCode: int,
    log: seq<StageLog>,
    failed: Option<Stage>,
    target: Option<Target>,
    buffer: Option<GemObject>,
    dmaFd: Option<int32>)

  /** Fetch-and-release pairs for the rejected entries of a scan. */
  function Skips(kind: DrmObject, idx: seq<nat>): (r: seq<Call>)
    ensures |r| == 2 * |idx|
    ensures forall c :: c in r ==> CallStage(c) == CallStage(GetObject(kind, 0))
  {
    if |idx| == 0 then []
    else [GetObject(kind, idx[0]), FreeObject(kind, idx[0])] + Skips(kind, idx[1..])
  }

  /** The entries a scan releases are exactly the ones listed as rejected. */
  lemma {:induction false} SkipsRelease(kind: DrmObject, idx: seq<nat>)
    ensures forall j :: FreeObject(kind, j) in Skips(kind, idx) <==> j in idx
  {
    if |idx| > 0 {
      SkipsRelease(kind, idx[1..]);
      assert forall j :: j in idx <==> j == idx[0] || j in idx[1..];
    }
  }

  /** The calls a scan issues: each rejected entry fetched then released, then the matching entry fetched. */
  function Probes(kind: DrmObject, scan: Scan): seq<Call>
  {
    Skips(kind, scan.released) + (if scan.found.Some? then [GetObject(kind, scan.found.value)] else [])
  }

  /** Every call of a scan belongs to that scan's stage. */
  lemma ProbesTagged(kind: DrmObject, scan: Scan)
    ensures forall c :: c in Probes(kind, scan) ==> CallStage(c) == CallStage(GetObject(kind, 0))
  {
  }

  /**
   The calls of a scan release exactly the entries listed as rejected, and a
   scan that found an entry ends by fetching it.
   */
  lemma ProbesRelease(kind: DrmObject, scan: Scan)
    ensures forall j :: FreeObject(kind, j) in Probes(kind, scan) <==> j in scan.released
    ensures scan.found.Some? ==>
      |Probes(kind, scan)| > 0 && Probes(kind, scan)[|Probes(kind, scan)| - 1] == GetObject(kind, scan.found.value)
  {
    SkipsRelease(kind, scan.released);
  }

  /**
   For the first-match scan over `s`, the entry it stops at is the last one
   fetched and is never released: the loop breaks before the release.
   */
  lemma ScanKeepsChosen<T>(kind: DrmObject, s: seq<T>, p: T -> bool)
    ensures var scan := FirstMatch(s, p);
      scan.found.Some? ==>
        && |Probes(kind, scan)| > 0
        && Probes(kind, scan)[|Probes(kind, scan)| - 1] == GetObject(kind, scan.found.value)
        && FreeObject(kind, scan.found.value) !in Probes(kind, scan)
  {
    var scan := FirstMatch(s, p);
    ProbesRelease(kind, scan);
    if scan.found.Some? {
      var k := scan.found.value;
      assert forall i :: 0 <= i < |scan.released| ==> scan.released[i] < k;
    }
  }

  /** Every call of a stage log belongs to that stage. */
  ghost predicate Tagged(e: StageLog)
  {
    forall c :: c in e.calls ==> CallStage(c) == e.stage
  }

  /** The log holds the stages in run order from the first stage on, each entry tagged with its stage. */
  ghost predicate InStageOrder(log: seq<StageLog>)
  {
    && |log| <= StageCount
    && forall i :: 0 <= i < |log| ==> Rank(log[i].stage) == i && Tagged(log[i])
  }

  /**
   The shape every run has: at least one stage executed, stages in order,
   a failure ends the run at the failing stage, a failed allocation returns
   the ioctl's own value, every other failure returns -1, and 0 is returned
   exactly when all stages ran and none failed.
   */
  ghost predicate WellFormed(p: Platform, r: Outcome)
  {
    && 1 <= |r.log|
    && InStageOrder(r.log)
    && (r.exitCode == 0 <==> r.failed.None?)
    && (r.failed.None? ==> |r.log| == StageCount)
    && (r.failed.Some? ==> r.failed.value == r.log[|r.log| - 1].stage)
    && (r.failed == Some(BufferAllocation) ==> r.exitCode == p.gem.ret)
    && (r.failed.Some? && r.failed.value != BufferAllocation ==> r.exitCode == -1)
  }

  /** Appending the next stage's entry keeps the log in stage order. */
  function Extend(log: seq<StageLog>, e: StageLog): (r: seq<StageLog>)
    requires InStageOrder(log) && |log| < StageCount
    requires Rank(e.stage) == |log| && Tagged(e)
    ensures r == log + [e] && InStageOrder(r)
  {
    log + [e]
  }

  /** A failed run that stops after the last stage of `log`, returning `code`. */
  function Stop(p: Platform, log: seq<StageLog>, code: int,
                target: Option<Target>, buffer: Option<GemObject>, dmaFd: Option<int32>): (r: Outcome)
    requires 1 <= |log| && InStageOrder(log) && code != 0
    requires log[|log| - 1].stage == BufferAllocation ==> code == p.gem.ret
    requires log[|log| - 1].stage != BufferAllocation ==> code == -1
    ensures WellFormed(p, r) && r.failed == Some(log[|log| - 1].stage)
  {
    Outcome(code, log, Some(log[|log| - 1].stage), target, buffer, dmaFd)
  }

  /** The run's log starts with `log`. */
  ghost predicate Continues(log: seq<StageLog>, r: Outcome)
  {
    |log| <= |r.log| && forall i :: 0 <= i < |log| ==> r.log[i] == log[i]
  }

  /** All checked EGL calls succeed. */
  predicate EglOk(p: Platform)
  {
    p.eglInitialized && p.apiBound && p.configChosen && p.contextCreated && p.imageCreated
  }

  /** Allocation, export and every checked EGL call succeed. */
  predicate GemOk(p: Platform)
  {
    p.gem.ret == 0 && p.prime.ret == 0 && EglOk(p)
  }

  /** The calls of the import stage: look up the entry point, then import the descriptor. */
  function ImportCalls(mode: ModeInfo, dmaFd: int32): seq<Call>
  {
    [EglGetProcAddress("eglCreateImageKHR"),
     EglCreateImage(EglNoContext, EglLinuxDmaBufExt, NoClientBuffer, ImportAttribs(mode, dmaFd))]
  }

  /**
   The first stage of rank `from` or later, after the target is resolved,
   whose checked call fails, listed in the order `main` makes the checks.
   */
  function LaterFailure(p: Platform, from: nat): Option<Stage>
  {
    if from <= 5 && p.gem.ret != 0 then Some(BufferAllocation)
    else if from <= 6 && p.prime.ret != 0 then Some(BufferExport)
    else if from <= 7 && !p.eglInitialized then Some(DisplayInit)
    else if from <= 8 && !p.apiBound then Some(ApiBind)
    else if from <= 9 && !p.configChosen then Some(ConfigChoice)
    else if from <= 10 && !p.contextCreated then Some(ContextCreation)
    else if !p.imageCreated then Some(ImageImport)
    else None
  }

  /**
   What the EGL part of a run leaves behind: the target, buffer and
   descriptor it was given; failure exactly at `fail`, so exit status 0
   exactly when `fail` is None; and on success all stages logged and the
   import issued with the mode's attributes and that descriptor.
   */
  ghost predicate EglOutcome(r: Outcome, target: Target, buffer: GemObject, dmaFd: int32, fail: Option<Stage>)
  {
    && r.target == Some(target)
    && r.buffer == Some(buffer)
    && r.dmaFd == Some(dmaFd)
    && r.failed == fail
    && (r.exitCode == 0 <==> fail.None?)
    && (r.exitCode == 0 ==>
          && |r.log| == StageCount
          && r.log[11].calls == ImportCalls(target.mode, dmaFd))
  }

  /** Import stage: look up the import entry point, then import the descriptor. */
  function ImportStage(p: Platform, log: seq<StageLog>, target: Target, buffer: GemObject, dmaFd: int32): (r: Outcome)
    requires |log| == 11 && InStageOrder(log)
    ensures WellFormed(p, r) && Continues(log, r)
  {
    var importLog := Extend(log, StageLog(ImageImport, ImportCalls(target.mode, dmaFd)));
    if !p.imageCreated then Stop(p, importLog, -1, Some(target), Some(buffer), Some(dmaFd))
    else Outcome(0, importLog, None, Some(target), Some(buffer), Some(dmaFd))
  }

  lemma ImportStageSpec(p: Platform, log: seq<StageLog>, target: Target, buffer: GemObject, dmaFd: int32)
    requires |log| == 11 && InStageOrder(log)
    ensures EglOutcome(ImportStage(p, log, target, buffer, dmaFd), target, buffer, dmaFd, LaterFailure(p, 11))
  {
  }

  /** Context creation; on success the import follows. */
  function ContextStage(p: Platform, log: seq<StageLog>, target: Target, buffer: GemObject, dmaFd: int32): (r: Outcome)
    requires |log| == 10 && InStageOrder(log)
    ensures WellFormed(p, r) && Continues(log, r)
  {
    var contextLog := Extend(log, StageLog(ContextCreation, [EglCreateContext]));
    if !p.contextCreated then Stop(p, contextLog, -1, Some(target), Some(buffer), Some(dmaFd))
    else ImportStage(p, contextLog, target, buffer, dmaFd)
  }

  lemma ContextStageSpec(p: Platform, log: seq<StageLog>, target: Target, buffer: GemObject, dmaFd: int32)
    requires |log| == 10 && InStageOrder(log)
    ensures EglOutcome(ContextStage(p, log, target, buffer, dmaFd), target, buffer, dmaFd, LaterFailure(p, 10))
  {
    if p.contextCreated {
      ImportStageSpec(p, Extend(log, StageLog(ContextCreation, [EglCreateContext])), target, buffer, dmaFd);
    }
  }

  /** Config choice; on success context creation follows. */
  function ConfigStage(p: Platform, log: seq<StageLog>, target: Target, buffer: GemObject, dmaFd: int32): (r: Outcome)
    requires |log| == 9 && InStageOrder(log)
    ensures WellFormed(p, r) && Continues(log, r)
  {
    var configLog := Extend(log, StageLog(ConfigChoice, [EglChooseConfig]));
    if !p.configChosen then Stop(p, configLog, -1, Some(target), Some(buffer), Some(dmaFd))
    else ContextStage(p, configLog, target, buffer, dmaFd)
  }

  lemma ConfigStageSpec(p: Platform, log: seq<StageLog>, target: Target, buffer: GemObject, dmaFd: int32)
    requires |log| == 9 && InStageOrder(log)
    ensures EglOutcome(ConfigStage(p, log, target, buffer, dmaFd), target, buffer, dmaFd, LaterFailure(p, 9))
  {
    if p.configChosen {
      ContextStageSpec(p, Extend(log, StageLog(ConfigChoice, [EglChooseConfig])), target, buffer, dmaFd);
    }
  }

  /** Binding the OpenGL ES API; on success the config choice follows. */
  function BindStage(p: Platform, log: seq<StageLog>, target: Target, buffer: GemObject, dmaFd: int32): (r: Outcome)
    requires |log| == 8 && InStageOrder(log)
    ensures WellFormed(p, r) && Continues(log, r)
  {
    var bindLog := Extend(log, StageLog(ApiBind, [EglBindApi(EglOpenglEsApi)]));
    if !p.apiBound then Stop(p, bindLog, -1, Some(target), Some(buffer), Some(dmaFd))
    else ConfigStage(p, bindLog, target, buffer, dmaFd)
  }

  lemma BindStageSpec(p: Platform, log: seq<StageLog>, target: Target, buffer: GemObject, dmaFd: int32)
    requires |log| == 8 && InStageOrder(log)
    ensures EglOutcome(BindStage(p, log, target, buffer, dmaFd), target, buffer, dmaFd, LaterFailure(p, 8))
  {
    if p.apiBound {
      ConfigStageSpec(p, Extend(log, StageLog(ApiBind, [EglBindApi(EglOpenglEsApi)])), target, buffer, dmaFd);
    }
  }

  /** Display initialisation: get the default display (unchecked) and initialise it. */
  function DisplayStage(p: Platform, log: seq<StageLog>, target: Target, buffer: GemObject, dmaFd: int32): (r: Outcome)
    requires |log| == 7 && InStageOrder(log)
    ensures WellFormed(p, r) && Continues(log, r)
  {
    var initLog := Extend(log, StageLog(DisplayInit, [EglGetDisplay, EglInitialize]));
    if !p.eglInitialized then Stop(p, initLog, -1, Some(target), Some(buffer), Some(dmaFd))
    else BindStage(p, initLog, target, buffer, dmaFd)
  }

  /**
   The EGL block fails at its first failing check, succeeds exactly when
   every checked EGL call does, and then imports the descriptor it was given.
   */
  lemma DisplayStageSpec(p: Platform, log: seq<StageLog>, target: Target, buffer: GemObject, dmaFd: int32)
    requires |log| == 7 && InStageOrder(log)
    ensures var r := DisplayStage(p, log, target, buffer, dmaFd);
      && EglOutcome(r, target, buffer, dmaFd, LaterFailure(p, 7))
      && (r.exitCode == 0 <==> EglOk(p))
  {
    if p.eglInitialized {
      BindStageSpec(p, Extend(log, StageLog(DisplayInit, [EglGetDisplay, EglInitialize])), target, buffer, dmaFd);
    }
  }

  /** Export of the buffer as a close-on-exec dma-buf descriptor; on success the EGL block follows. */
  function ExportStage(p: Platform, log: seq<StageLog>, target: Target, buffer: GemObject): (r: Outcome)
    requires |log| == 6 && InStageOrder(log)
    ensures WellFormed(p, r) && Continues(log, r)
  {
    var exportLog := Extend(log, StageLog(BufferExport, [PrimeHandleToFd(buffer.handle, DrmCloexec)]));
    if p.prime.ret != 0 then Stop(p, exportLog, -1, Some(target), Some(buffer), None)
    else DisplayStage(p, exportLog, target, buffer, p.prime.fd)
  }

  /**
   The export asks for the buffer's handle with close-on-exec; the run then
   fails at the first failing check from the export on, keeps a descriptor
   exactly when the export succeeded, and succeeds exactly when the export
   and the EGL block do, importing the descriptor the export returned.
   */
  lemma ExportStageSpec(p: Platform, log: seq<StageLog>, target: Target, buffer: GemObject)
    requires |log| == 6 && InStageOrder(log)
    ensures var r := ExportStage(p, log, target, buffer);
      && r.log[6].calls == [PrimeHandleToFd(buffer.handle, DrmCloexec)]
      && r.target == Some(target) && r.buffer == Some(buffer)
      && r.failed == LaterFailure(p, 6)
      && (r.exitCode == 0 <==> p.prime.ret == 0 && EglOk(p))
      && (r.dmaFd.Some? <==> p.prime.ret == 0)
      && (p.prime.ret == 0 ==> EglOutcome(r, target, buffer, p.prime.fd, LaterFailure(p, 7)))
  {
    var exportLog := Extend(log, StageLog(BufferExport, [PrimeHandleToFd(buffer.handle, DrmCloexec)]));
    if p.prime.ret == 0 {
      DisplayStageSpec(p, exportLog, target, buffer, p.prime.fd);
    }
  }

  /**
   What a run that resolved its target does with it: it asks the kernel for
   a non-contiguous buffer of the mode's byte size; it fails at allocation
   exactly when the ioctl fails, and otherwise at the first later check that
   fails; it returns 0 exactly when allocation, export
   and every checked EGL call succeed; and then it holds the allocated handle,
   exported it with close-on-exec, and imported the exported descriptor with
   the mode's attributes.
   */
  ghost predicate AfterTarget(p: Platform, r: Outcome)
  {
    && r.target.Some?
    && |r.log| >= 6
    && r.log[5].calls == [GemCreate(GemCreateRequest(BufferGeometry(r.target.value.mode).size, ExynosBoNonContig))]
    && (r.failed == Some(BufferAllocation) <==> p.gem.ret != 0)
    && r.failed == LaterFailure(p, 5)
    && (r.exitCode == 0 <==> GemOk(p))
    && (r.exitCode == 0 ==>
          && |r.log| == StageCount
          && r.buffer == Some(GemObject(p.gem.handle, BufferGeometry(r.target.value.mode)))
          && r.log[6].calls == [PrimeHandleToFd(p.gem.handle, DrmCloexec)]
          && r.dmaFd == Some(p.prime.fd)
          && r.log[11].calls == ImportCalls(r.target.value.mode, p.prime.fd))
  }

  /** Allocation of the buffer for the target's mode; on success the export follows. */
  function AllocationStage(p: Platform, log: seq<StageLog>, target: Target): (r: Outcome)
    requires |log| == 5 && InStageOrder(log)
    ensures WellFormed(p, r) && Continues(log, r)
  {
    var g := BufferGeometry(target.mode);
    var allocLog := Extend(log, StageLog(BufferAllocation, [GemCreate(GemCreateRequest(g.size, ExynosBoNonContig))]));
    if p.gem.ret != 0 then Stop(p, allocLog, p.gem.ret, Some(target), None, None)
    else ExportStage(p, allocLog, target, GemObject(p.gem.handle, g))
  }

  lemma AllocationStageSpec(p: Platform, log: seq<StageLog>, target: Target)
    requires |log| == 5 && InStageOrder(log)
    ensures var r := AllocationStage(p, log, target);
      r.target == Some(target) && AfterTarget(p, r)
  {
    var g := BufferGeometry(target.mode);
    var allocLog := Extend(log, StageLog(BufferAllocation, [GemCreate(GemCreateRequest(g.size, ExynosBoNonContig))]));
    if p.gem.ret == 0 {
      ExportStageSpec(p, allocLog, target, GemObject(p.gem.handle, g));
    }
  }

  /** Encoder search for the chosen connector; on success the target is complete and the GEM block follows. */
  function EncoderStage(p: Platform, res: Resources, conn: Connector, mode: ModeInfo, log: seq<StageLog>): (r: Outcome)
    requires |log| == 4 && InStageOrder(log)
    ensures WellFormed(p, r) && Continues(log, r)
  {
    var es := FindEncoder(res.encoders, conn.encoderId);
    ProbesTagged(EncoderObject, es);
    var encLog := Extend(log, StageLog(EncoderSearch, Probes(EncoderObject, es)));
    if es.found.None? then Stop(p, encLog, -1, None, None, None)
    else AllocationStage(p, encLog, Target(p.drmFd, mode, res.encoders[es.found.value].crtcId, conn.connectorId))
  }

  /**
   The target is set exactly when an encoder carries the connector's encoder
   id, and names that encoder's CRTC.
   */
  lemma EncoderStageSpec(p: Platform, res: Resources, conn: Connector, mode: ModeInfo, log: seq<StageLog>)
    requires |log| == 4 && InStageOrder(log)
    ensures var r := EncoderStage(p, res, conn, mode, log);
      && |r.log| >= 5 && r.log[4].calls == Probes(EncoderObject, FindEncoder(res.encoders, conn.encoderId))
      && (r.target.Some? <==> FindEncoder(res.encoders, conn.encoderId).found.Some?)
      && (r.target.Some? ==> AfterTarget(p, r) && r.target.value == Target(
            p.drmFd, mode, res.encoders[FindEncoder(res.encoders, conn.encoderId).found.value].crtcId,
            conn.connectorId))
      && (r.target.None? ==> r.exitCode == -1 && |r.log| <= 5 && r.failed == Some(EncoderSearch))
  {
    var es := FindEncoder(res.encoders, conn.encoderId);
    ProbesTagged(EncoderObject, es);
    var encLog := Extend(log, StageLog(EncoderSearch, Probes(EncoderObject, es)));
    if es.found.Some? {
      AllocationStageSpec(p, encLog, Target(p.drmFd, mode, res.encoders[es.found.value].crtcId, conn.connectorId));
    }
  }

  /** Mode search over the chosen connector's modes. */
  function ModeStage(p: Platform, res: Resources, conn: Connector, log: seq<StageLog>): (r: Outcome)
    requires |log| == 3 && InStageOrder(log)
    ensures WellFormed(p, r) && Continues(log, r)
  {
    var ms := SelectMode(conn.modes);
    var modeLog := Extend(log, StageLog(ModeSearch, []));
    if ms.None? then Stop(p, modeLog, -1, None, None, None)
    else EncoderStage(p, res, conn, conn.modes[ms.value], modeLog)
  }

  /** The target is set exactly when the mode and encoder searches both succeed, and carries the selected mode. */
  lemma ModeStageSpec(p: Platform, res: Resources, conn: Connector, log: seq<StageLog>)
    requires |log| == 3 && InStageOrder(log)
    ensures var r := ModeStage(p, res, conn, log);
      && (SelectMode(conn.modes).Some? ==>
            |r.log| >= 5 && r.log[4].calls == Probes(EncoderObject, FindEncoder(res.encoders, conn.encoderId)))
      && (r.target.Some? <==>
            SelectMode(conn.modes).Some? && FindEncoder(res.encoders, conn.encoderId).found.Some?)
      && (r.target.Some? ==> AfterTarget(p, r) && r.target.value == Target(
            p.drmFd, conn.modes[SelectMode(conn.modes).value],
            res.encoders[FindEncoder(res.encoders, conn.encoderId).found.value].crtcId, conn.connectorId))
      && (r.target.None? ==> r.exitCode == -1 && |r.log| <= 5)
      && (r.target.None? ==> r.failed == Some(if SelectMode(conn.modes).None? then ModeSearch else EncoderSearch))
  {
    var ms := SelectMode(conn.modes);
    if ms.Some? {
      EncoderStageSpec(p, res, conn, conn.modes[ms.value], Extend(log, StageLog(ModeSearch, [])));
    }
  }

  /** Connector search over the resource set, then the rest of the run. */
  function ConnectorStage(p: Platform, res: Resources, log: seq<StageLog>): (r: Outcome)
    requires |log| == 2 && InStageOrder(log)
    ensures WellFormed(p, r) && Continues(log, r)
  {
    var cs := FindConnector(res.connectors);
    ProbesTagged(ConnectorObject, cs);
    var connLog := Extend(log, StageLog(ConnectorSearch, Probes(ConnectorObject, cs)));
    if cs.found.None? then Stop(p, connLog, -1, None, None, None)
    else ModeStage(p, res, res.connectors[cs.found.value], connLog)
  }

  /**
   The connector stage logs the probes of the connector scan; with no
   connected connector the run stops there with -1; otherwise the target is
   set exactly when all three searches succeed, and is the target they yield;
   without a target the run stops at the first search that found nothing.
   */
  lemma ConnectorStageSpec(p: Platform, res: Resources, log: seq<StageLog>)
    requires |log| == 2 && InStageOrder(log)
    ensures var r := ConnectorStage(p, res, log);
      && |r.log| >= 3 && r.log[2].calls == Probes(ConnectorObject, FindConnector(res.connectors))
      && (FindConnector(res.connectors).found.None? ==> |r.log| == 3 && r.exitCode == -1)
      && (ReachesEncoderSearch(res) ==>
            |r.log| >= 5
            && r.log[4].calls == Probes(EncoderObject, FindEncoder(res.encoders, ChosenConnector(res).encoderId)))
      && (r.target.Some? <==> SearchesSucceed(res))
      && (r.target.Some? ==> AfterTarget(p, r) && r.target.value == ResolvedTarget(res, p.drmFd))
      && (r.target.None? ==> r.exitCode == -1 && |r.log| <= 5 && r.failed == SearchFailure(res))
  {
    var cs := FindConnector(res.connectors);
    ProbesTagged(ConnectorObject, cs);
    var connLog := Extend(log, StageLog(ConnectorSearch, Probes(ConnectorObject, cs)));
    if cs.found.Some? {
      ModeStageSpec(p, res, res.connectors[cs.found.value], connLog);
    }
  }

  /** The log after opening the device. */
  function OpenLog(): (r: seq<StageLog>)
    ensures |r| == 1 && InStageOrder(r)
  {
    Extend([], StageLog(DeviceOpen, [DrmOpen("exynos")]))
  }

  /** The log after querying the resources. */
  function QueryLog(): (r: seq<StageLog>)
    ensures |r| == 2 && InStageOrder(r)
  {
    Extend(OpenLog(), StageLog(ResourceQuery, [GetResources]))
  }

  /**
   One run of `main`: open the exynos device, query its resources, then the
   searches, the GEM block and the EGL block.
   */
  function Run(p: Platform): (r: Outcome)
    ensures WellFormed(p, r)
  {
    if p.drmFd < 0 then Stop(p, OpenLog(), -1, None, None, None)
    else
      match p.resources
      case None => Stop(p, QueryLog(), -1, None, None, None)
      case Some(res) => ConnectorStage(p, res, QueryLog())
  }

  /** Every call of a run, stage after stage. */
  function Flatten(log: seq<StageLog>): seq<Call>
  {
    if |log| == 0 then [] else log[0].calls + Flatten(log[1..])
  }

  function Calls(r: Outcome): seq<Call>
  {
    Flatten(r.log)
  }

  /**
   Flattening a log of consecutive stages starting at `base` gives calls
   whose stages never go backwards and all lie among the logged stages.
   */
  lemma {:induction false} FlattenInStageOrder(log: seq<StageLog>, base: nat)
    requires base + |log| <= StageCount
    requires forall i :: 0 <= i < |log| ==> Rank(log[i].stage) == base + i && Tagged(log[i])
    ensures forall c :: c in Flatten(log) ==> base <= Rank(CallStage(c)) < base + |log|
    ensures forall i, j :: 0 <= i < j < |Flatten(log)| ==>
      Rank(CallStage(Flatten(log)[i])) <= Rank(CallStage(Flatten(log)[j]))
  {
    if |log| > 0 {
      var a, b := log[0].calls, Flatten(log[1..]);
      FlattenInStageOrder(log[1..], base + 1);
      assert Flatten(log) == a + b;
      forall c | c in a
        ensures Rank(CallStage(c)) == base
      {
        assert CallStage(c) == log[0].stage;
      }
      forall i, j | 0 <= i < j < |a + b|
        ensures Rank(CallStage((a + b)[i])) <= Rank(CallStage((a + b)[j]))
      {
        if j < |a| {
          assert (a + b)[i] in a && (a + b)[j] in a;
        } else if i < |a| {
          assert (a + b)[i] in a && (a + b)[j] == b[j - |a|];
        } else {
          assert (a + b)[i] == b[i - |a|] && (a + b)[j] == b[j - |a|];
        }
      }
    }
  }

  /**
   The calls of a run come stage by stage in run order, and only
   stages that were executed issue calls: no call belongs to a stage after
   the one that failed.
   */
  lemma CallsInStageOrder(p: Platform)
    ensures forall c :: c in Calls(Run(p)) ==> Rank(CallStage(c)) < |Run(p).log|
    ensures Run(p).failed.Some? ==>
      forall c :: c in Calls(Run(p)) ==> Rank(CallStage(c)) <= Rank(Run(p).failed.value)
    ensures forall i, j :: 0 <= i < j < |Calls(Run(p))| ==>
      Rank(CallStage(Calls(Run(p))[i])) <= Rank(CallStage(Calls(Run(p))[j]))
  {
    OutcomeCallsInStageOrder(p, Run(p));
  }

  lemma OutcomeCallsInStageOrder(p: Platform, r: Outcome)
    requires WellFormed(p, r)
    ensures forall c :: c in Calls(r) ==> Rank(CallStage(c)) < |r.log|
    ensures forall i, j :: 0 <= i < j < |Calls(r)| ==>
      Rank(CallStage(Calls(r)[i])) <= Rank(CallStage(Calls(r)[j]))
  {
    assert forall i :: 0 <= i < |r.log| ==> Rank(r.log[i].stage) == 0 + i && Tagged(r.log[i]);
    FlattenInStageOrder(r.log, 0);
  }

  /** `k` is the first connected connector. */
  ghost predicate IsFirstConnected(conns: seq<Connector>, k: nat)
  {
    k < |conns| && conns[k].connection == Connected
    && forall j :: 0 <= j < k ==> conns[j].connection != Connected
  }

  /** `e` is the first encoder carrying the id `encoderId`. */
  ghost predicate IsFirstEncoder(encs: seq<Encoder>, encoderId: uint32, e: nat)
  {
    e < |encs| && encs[e].encoderId == encoderId
    && forall j :: 0 <= j < e ==> encs[j].encoderId != encoderId
  }

  /**
   A display target can be resolved from `res`: the first connected
   connector offers a mode of nonzero area, and some encoder carries the
   id that connector is bound to.
   */
  ghost predicate Resolvable(res: Resources)
  {
    exists k: nat ::
      && IsFirstConnected(res.connectors, k)
      && (exists m :: 0 <= m < |res.connectors[k].modes| && Area(res.connectors[k].modes[m]) > 0)
      && (exists e :: 0 <= e < |res.encoders| && res.encoders[e].encoderId == res.connectors[k].encoderId)
  }

  /**
   The target record agrees with the resources: its connector is the first
   connected one, its mode is that connector's preferred mode, and its CRTC
   is the one bound to the first encoder carrying the connector's encoder id.
   */
  ghost predicate ValidTarget(res: Resources, fd: int32, t: Target)
  {
    && t.fd == fd
    && exists k: nat ::
         && IsFirstConnected(res.connectors, k)
         && t.connectorId == res.connectors[k].connectorId
         && (exists m: nat :: IsPreferredMode(res.connectors[k].modes, m) && t.mode == res.connectors[k].modes[m])
         && (exists e: nat ::
               IsFirstEncoder(res.encoders, res.connectors[k].encoderId, e) && t.crtcId == res.encoders[e].crtcId)
  }

  /** The connector the connector search stops at. */
  function ChosenConnector(res: Resources): Connector
    requires FindConnector(res.connectors).found.Some?
  {
    res.connectors[FindConnector(res.connectors).found.value]
  }

  /** The connector and mode searches succeed, so the encoder search runs. */
  predicate ReachesEncoderSearch(res: Resources)
  {
    FindConnector(res.connectors).found.Some? && SelectMode(ChosenConnector(res).modes).Some?
  }

  /** The connector, mode and encoder searches all find something. */
  predicate SearchesSucceed(res: Resources)
  {
    ReachesEncoderSearch(res) && FindEncoder(res.encoders, ChosenConnector(res).encoderId).found.Some?
  }

  /** The first of the three searches that finds nothing, if any. */
  function SearchFailure(res: Resources): Option<Stage>
  {
    if FindConnector(res.connectors).found.None? then Some(ConnectorSearch)
    else if SelectMode(ChosenConnector(res).modes).None? then Some(ModeSearch)
    else if FindEncoder(res.encoders, ChosenConnector(res).encoderId).found.None? then Some(EncoderSearch)
    else None
  }

  /** The target the three searches yield. */
  function ResolvedTarget(res: Resources, fd: int32): Target
    requires SearchesSucceed(res)
  {
    var conn := ChosenConnector(res);
    Target(fd, conn.modes[SelectMode(conn.modes).value],
      res.encoders[FindEncoder(res.encoders, conn.encoderId).found.value].crtcId, conn.connectorId)
  }

  /** The three searches of the DRM block all succeed exactly when a target is resolvable. */
  lemma SearchesSucceedIff(res: Resources)
    ensures SearchesSucceed(res) <==> Resolvable(res)
  {
    var cs := FindConnector(res.connectors);
    if Resolvable(res) {
      var k: nat :|
        && IsFirstConnected(res.connectors, k)
        && (exists m :: 0 <= m < |res.connectors[k].modes| && Area(res.connectors[k].modes[m]) > 0)
        && (exists e :: 0 <= e < |res.encoders| && res.encoders[e].encoderId == res.connectors[k].encoderId);
      assert cs.found.Some?;
      assert cs.found.value == k;
    }
    if cs.found.Some? {
      var k := cs.found.value;
      assert IsFirstConnected(res.connectors, k);
    }
  }

  /** The target the searches yield satisfies the target invariant. */
  lemma ResolvedTargetValid(res: Resources, fd: int32)
    requires SearchesSucceed(res)
    ensures ValidTarget(res, fd, ResolvedTarget(res, fd))
  {
    var k := FindConnector(res.connectors).found.value;
    var conn := res.connectors[k];
    var m := SelectMode(conn.modes).value;
    var e := FindEncoder(res.encoders, conn.encoderId).found.value;
    SelectModeIsPreferred(conn.modes, m);
    assert IsFirstConnected(res.connectors, k);
    assert IsPreferredMode(conn.modes, m);
    assert IsFirstEncoder(res.encoders, conn.encoderId, e);
  }

  /** The external inputs under which every stage succeeds, stated without the search functions. */
  ghost predicate Succeeds(p: Platform)
  {
    && p.drmFd >= 0
    && p.resources.Some?
    && Resolvable(p.resources.value)
    && p.gem.ret == 0
    && p.prime.ret == 0
    && p.eglInitialized && p.apiBound && p.configChosen && p.contextCreated && p.imageCreated
  }

  /** A sequence with a connected connector has a first one. */
  lemma FirstConnectedExists(conns: seq<Connector>)
    requires exists j :: 0 <= j < |conns| && conns[j].connection == Connected
    ensures exists k: nat :: IsFirstConnected(conns, k)
  {
    var k := FindConnector(conns).found.value;
    assert IsFirstConnected(conns, k);
  }

  /**
   The stage at which a run given `p` must stop, stated without the search
   functions: the checks of `main`, in the order it makes them.
   */
  ghost function FirstFailure(p: Platform): Option<Stage>
  {
    if p.drmFd < 0 then Some(DeviceOpen)
    else if p.resources.None? then Some(ResourceQuery)
    else
      var res := p.resources.value;
      if forall j :: 0 <= j < |res.connectors| ==> res.connectors[j].connection != Connected then
        Some(ConnectorSearch)
      else
        FirstConnectedExists(res.connectors);
        var k: nat :| IsFirstConnected(res.connectors, k);
        var conn := res.connectors[k];
        if forall m :: 0 <= m < |conn.modes| ==> Area(conn.modes[m]) == 0 then Some(ModeSearch)
        else if forall e :: 0 <= e < |res.encoders| ==> res.encoders[e].encoderId != conn.encoderId then
          Some(EncoderSearch)
        else if p.gem.ret != 0 then Some(BufferAllocation)
        else if p.prime.ret != 0 then Some(BufferExport)
        else if !p.eglInitialized then Some(DisplayInit)
        else if !p.apiBound then Some(ApiBind)
        else if !p.configChosen then Some(ConfigChoice)
        else if !p.contextCreated then Some(ContextCreation)
        else if !p.imageCreated then Some(ImageImport)
        else None
  }

  /** The searches stop the run where the independent listing of checks says. */
  lemma SearchFailureAgrees(p: Platform)
    requires p.drmFd >= 0 && p.resources.Some?
    ensures var res := p.resources.value;
      FirstFailure(p) == if SearchesSucceed(res) then LaterFailure(p, 5) else SearchFailure(res)
  {
    var res := p.resources.value;
    var cs := FindConnector(res.connectors);
    if cs.found.Some? {
      assert IsFirstConnected(res.connectors, cs.found.value);
    }
  }

  /** A run stops exactly at the first stage whose check fails, and at none when all pass. */
  lemma RunFailsAtFirstFailure(p: Platform)
    ensures Run(p).failed == FirstFailure(p)
  {
    assert OpenLog()[0].stage == DeviceOpen;
    assert QueryLog()[1].stage == ResourceQuery;
    if p.drmFd >= 0 && p.resources.Some? {
      ConnectorStageSpec(p, p.resources.value, QueryLog());
      SearchFailureAgrees(p);
    }
  }

  /** `main` returns 0 exactly when every stage succeeds. */
  lemma RunSucceedsIff(p: Platform)
    ensures Run(p).exitCode == 0 <==> Succeeds(p)
  {
    if p.drmFd >= 0 && p.resources.Some? {
      SearchesSucceedIff(p.resources.value);
      ConnectorStageSpec(p, p.resources.value, QueryLog());
    }
  }

  /**
   The connector scan releases connector `j` exactly when `j` exists and
   neither it nor any connector before it is connected: every connector
   passed over is freed, and the chosen one is kept.
   */
  lemma ConnectorsReleased(p: Platform, j: nat)
    requires p.drmFd >= 0 && p.resources.Some?
    ensures |Run(p).log| >= 3
    ensures FreeObject(ConnectorObject, j) in Run(p).log[2].calls <==>
      j < |p.resources.value.connectors| &&
      forall i :: 0 <= i <= j ==> p.resources.value.connectors[i].connection != Connected
  {
    var res := p.resources.value;
    var cs := FindConnector(res.connectors);
    ConnectorStageSpec(p, res, QueryLog());
    ProbesRelease(ConnectorObject, cs);
    if j < |cs.released| {
      assert cs.released[j] == j;
    }
  }

  /**
   Once the encoder search runs, it releases encoder `j` exactly when `j`
   exists and neither it nor any encoder before it carries the chosen
   connector's encoder id.
   */
  lemma EncodersReleased(p: Platform, j: nat)
    requires p.drmFd >= 0 && p.resources.Some? && ReachesEncoderSearch(p.resources.value)
    ensures |Run(p).log| >= 5
    ensures var res := p.resources.value;
      FreeObject(EncoderObject, j) in Run(p).log[4].calls <==>
      j < |res.encoders| &&
      forall i :: 0 <= i <= j ==> res.encoders[i].encoderId != ChosenConnector(res).encoderId
  {
    var res := p.resources.value;
    var es := FindEncoder(res.encoders, ChosenConnector(res).encoderId);
    ConnectorStageSpec(p, res, QueryLog());
    ProbesRelease(EncoderObject, es);
    if j < |es.released| {
      assert es.released[j] == j;
    }
  }

  /**
   With no connected connector (in particular with none at all) the run
   returns -1 at the connector search, having set no target and issued no
   call of a later stage.
   */
  lemma NoConnectedOutput(p: Platform)
    requires p.drmFd >= 0 && p.resources.Some?
    requires forall j :: 0 <= j < |p.resources.value.connectors| ==>
      p.resources.value.connectors[j].connection != Connected
    ensures Run(p).exitCode == -1 && Run(p).failed == Some(ConnectorSearch) && Run(p).target.None?
    ensures forall c :: c in Calls(Run(p)) ==> Rank(CallStage(c)) <= Rank(ConnectorSearch)
  {
    ConnectorStageSpec(p, p.resources.value, QueryLog());
    CallsInStageOrder(p);
  }

  /**
   A failed allocation ioctl ends the run: no export or EGL call is issued,
   the status is not 0, and when the target was resolved the run fails at
   the allocation and returns the ioctl's own value.
   */
  lemma AllocationFailure(p: Platform)
    requires p.gem.ret != 0
    ensures Run(p).exitCode != 0
    ensures forall c :: c in Calls(Run(p)) ==> Rank(CallStage(c)) <= Rank(BufferAllocation)
    ensures p.drmFd >= 0 && p.resources.Some? && Resolvable(p.resources.value) ==>
      Run(p).failed == Some(BufferAllocation) && Run(p).exitCode == p.gem.ret
  {
    CallsInStageOrder(p);
    if p.drmFd >= 0 && p.resources.Some? {
      SearchesSucceedIff(p.resources.value);
      ConnectorStageSpec(p, p.resources.value, QueryLog());
    }
  }

  /** A target the run sets satisfies the target invariant for the queried resources. */
  lemma RunTargetValid(p: Platform)
    requires Run(p).target.Some?
    ensures p.resources.Some? && ValidTarget(p.resources.value, p.drmFd, Run(p).target.value)
  {
    var res := p.resources.value;
    ConnectorStageSpec(p, res, QueryLog());
    ResolvedTargetValid(res, p.drmFd);
  }

  /**
   A successful run allocated a non-contiguous buffer of four bytes per pixel
   of the target's mode, exported the returned handle with close-on-exec,
   and imported the exported descriptor with an attribute list that reads
   back as an image matching that buffer.
   */
  lemma SuccessfulRunAgrees(p: Platform)
    requires Run(p).exitCode == 0
    ensures Run(p).target.Some? && |Run(p).log| == StageCount
    ensures var t := Run(p).target.value;
      && Run(p).log[5].calls == [GemCreate(GemCreateRequest(Area(t.mode) * BytesPerPixel, ExynosBoNonContig))]
      && Run(p).buffer == Some(GemObject(p.gem.handle, BufferGeometry(t.mode)))
      && Run(p).log[6].calls == [PrimeHandleToFd(p.gem.handle, DrmCloexec)]
      && Run(p).dmaFd == Some(p.prime.fd)
    ensures var t := Run(p).target.value;
      && |Run(p).log[11].calls| == 2
      && Run(p).log[11].calls[1].EglCreateImage?
      && Run(p).log[11].calls[1].target == EglLinuxDmaBufExt
      && ImageFromAttribs(Run(p).log[11].calls[1].attribs).Some?
      && Run(p).log[11].calls[1].context == EglNoContext
      && Run(p).log[11].calls[1].clientBuffer == NoClientBuffer
      && MatchesBuffer(ImageFromAttribs(Run(p).log[11].calls[1].attribs).value,
           t.mode, BufferGeometry(t.mode), p.prime.fd)
  {
    var res := p.resources.value;
    ConnectorStageSpec(p, res, QueryLog());
    var t := Run(p).target.value;
    ImportAttribsMatchBuffer(t.mode, p.prime.fd);
  }
}
