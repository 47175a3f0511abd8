/**
 * The REST gateway's `add_source_files` handler: each uploaded file is
 * checked (a name, an extension, a known source type); a file that fails a
 * check gets an error status and the next file is taken. An accepted file
 * is uploaded to the object store, its `SourceMeta` is committed to the
 * database, and an extraction job naming it is published; a failure at any
 * of these steps aborts the whole request.
 *
 * The object store, the database and the JSON encoder are not modelled:
 * what each of them does for each file is given as an `Outcome`, and the
 * encoder as the function `serialize`. The broker is the one of
 * `RabbitMQRepository`.
 */
module AddSourceFiles {
  import opened Wrappers
  import opened Utf8
  import opened Broker
  import RabbitMQRepository
  import opened SourceMeta
  import opened UploadPath

  /** One part of the multipart form: only its file name matters here. */
  datatype UploadedFile = UploadedFile(fileName: Option<string>)

  datatype Status = Success | Error

  datatype FileStatus = FileStatus(fileName: Option<string>, status: Status, message: Option<string>)

  datatype AddSourceFilesError =
    | NoSourceFiles
    | RepositoryAccessError(message: string)
    | UnexpectedError(message: string)
    | JsonError(message: string)

  /** `status_code`: 400 for a form without files, 500 for everything else. */
  function StatusCode(e: AddSourceFilesError): (code: nat)
    ensures code == 400 <==> e.NoSourceFiles?
    ensures code == 400 || code == 500
  {
    match e
    case NoSourceFiles => 400
    case _ => 500
  }

  const NO_FILE_NAME: string := "No file name"
  const NO_EXTENSION: string := "Could not extract extension"
  /** Sent as written: the `{}` is never filled in. */
  const INVALID_SOURCE_TYPE_FOR: string := "Invalid source type for {}"

  /**
   * The checks made before anything is stored: the file's name and source
   * type, or the error status the file gets.
   */
  function Validate(f: UploadedFile): (v: Result<(string, SourceType), FileStatus>)
    ensures v.Ok? <==> f.fileName.Some? && Extension(f.fileName.value) == Some("epub")
    ensures v.Ok? ==> v.value == (f.fileName.value, Epub)
    ensures v.Err? ==> v.error.status == Error && v.error.fileName == f.fileName && v.error.message.Some?
  {
    match f.fileName
    case None => Err(FileStatus(None, Error, Some(NO_FILE_NAME)))
    case Some(name) =>
      match Extension(name)
      case None => Err(FileStatus(Some(name), Error, Some(NO_EXTENSION)))
      case Some(extension) =>
        match FromStr(extension)
        case Err(_) => Err(FileStatus(Some(name), Error, Some(INVALID_SOURCE_TYPE_FOR)))
        case Ok(sourceType) => Ok((name, sourceType))
  }

  /** What the object store, the database and the broker do for one accepted file. */
  datatype Outcome = Outcome(
    beginFailure: Option<string>,
    upload: Result<(string, string), string>,
    freshId: Uuid,
    now: Timestamp,
    saveFailure: Option<string>,
    commitFailure: Option<string>,
    publishFailure: Option<string>)

  /** `ExtractContentJobDto`. */
  datatype Job = Job(sourceMetaId: Uuid, sourceType: SourceTypeDto, objectStorePathName: string, sourceInitialName: string)

  /** What the handler leaves behind it, in order. */
  datatype Effect =
    | Uploaded(objectName: string)
    | Committed(meta: SourceMeta)
    | Sent(job: Job, data: seq<byte>)

  const POOL_FAILED: string := "Failed to acquire a Postgres connection from the pool"
  const UPLOAD_FAILED: string := " could not be uploaded to object storage"
  const SAVE_FAILED: string := "Could not save the file information of "
  const COMMIT_FAILED: string := "Failed to commit SQL transaction to store the file "
  const SEND_FAILED: string := "Could not send content extraction job request for the file "

  /**
   * One file: its status, or the error that aborts the request, and what
   * was done before. `ready` says whether the broker repository is
   * initialised; publishing through an idle one fails.
   */
  function Step(f: UploadedFile, o: Outcome, userId: Uuid, serialize: Job -> Result<seq<byte>, string>, ready: bool)
    : (r: (Result<FileStatus, AddSourceFilesError>, seq<Effect>))
    ensures Validate(f).Err? ==> r == (Ok(Validate(f).error), [])
    ensures r.0.Ok? ==> r.0.value == ExpectedStatus(f)
    ensures r.0.Err? ==> !r.0.error.NoSourceFiles?
  {
    match Validate(f)
    case Err(status) => (Ok(status), [])
    case Ok((name, sourceType)) => Store(name, sourceType, o, userId, serialize, ready)
  }

  /**
   * An accepted file: uploaded, recorded, announced. The effects say how
   * far it got; a job is only ever sent for a record just committed.
   */
  function Store(name: string, sourceType: SourceType, o: Outcome, userId: Uuid,
                 serialize: Job -> Result<seq<byte>, string>, ready: bool)
    : (r: (Result<FileStatus, AddSourceFilesError>, seq<Effect>))
    ensures r.0.Ok? ==> r.0.value == FileStatus(Some(name), Success, None) && |r.1| == 3
    ensures r.0.Err? ==> !r.0.error.NoSourceFiles?
  {
    if o.beginFailure.Some? then (Err(UnexpectedError(POOL_FAILED)), [])
    else if o.upload.Err? then (Err(UnexpectedError("The file " + name + UPLOAD_FAILED)), [])
    else
      var (objectName, objectPathName) := o.upload.value;
      var meta := Build(userId, name, objectName, Epub, o.freshId, o.now);
      if o.saveFailure.Some? then (Err(UnexpectedError(SAVE_FAILED + name)), [Uploaded(objectName)])
      else if o.commitFailure.Some? then (Err(UnexpectedError(COMMIT_FAILED + name)), [Uploaded(objectName)])
      else
        var stored := [Uploaded(objectName), Committed(meta)];
        var job := Job(meta.id, ToDto(sourceType), objectPathName, name);
        match serialize(job)
        case Err(e) => (Err(JsonError(e)), stored)
        case Ok(data) =>
          if !ready || o.publishFailure.Some? then (Err(UnexpectedError(SEND_FAILED + name)), stored)
          else (Ok(FileStatus(Some(name), Success, None)), stored + [Sent(job, data)])
  }

  /** The status a file gets when the request goes through. */
  function ExpectedStatus(f: UploadedFile): FileStatus
  {
    match Validate(f)
    case Err(status) => status
    case Ok((name, _)) => FileStatus(Some(name), Success, None)
  }

  /** What one file gives: its status or the error that aborts the request, and its effects. */
  type StepResult = (Result<FileStatus, AddSourceFilesError>, seq<Effect>)

  /** `Step` for each file, in order. */
  function Steps(files: seq<UploadedFile>, outcomes: seq<Outcome>, userId: Uuid,
                 serialize: Job -> Result<seq<byte>, string>, ready: bool): (steps: seq<StepResult>)
    requires |outcomes| == |files|
    ensures |steps| == |files|
    ensures forall i :: 0 <= i < |steps| ==> steps[i].0 != Err(NoSourceFiles)
  {
    if files == [] then []
    else [Step(files[0], outcomes[0], userId, serialize, ready)] + Steps(files[1..], outcomes[1..], userId, serialize, ready)
  }

  lemma {:induction false} StepsAt(files: seq<UploadedFile>, outcomes: seq<Outcome>, userId: Uuid,
                                   serialize: Job -> Result<seq<byte>, string>, ready: bool, i: nat)
    requires |outcomes| == |files| && i < |files|
    ensures Steps(files, outcomes, userId, serialize, ready)[i] == Step(files[i], outcomes[i], userId, serialize, ready)
  {
    if i > 0 {
      StepsAt(files[1..], outcomes[1..], userId, serialize, ready, i - 1);
    }
  }

  /** The first `n` files, one after the other, stopping at the first error. */
  function Run(steps: seq<StepResult>, n: nat): (r: (Result<seq<FileStatus>, AddSourceFilesError>, seq<Effect>))
    requires n <= |steps|
  {
    if n == 0 then (Ok([]), [])
    else
      var before := Run(steps, n - 1);
      if before.0.Err? then before
      else if steps[n - 1].0.Err? then (Err(steps[n - 1].0.error), before.1 + steps[n - 1].1)
      else (Ok(before.0.value + [steps[n - 1].0.value]), before.1 + steps[n - 1].1)
  }

  /** The whole request: a form without files is refused, otherwise every file is handled. */
  function Handle(files: seq<UploadedFile>, outcomes: seq<Outcome>, userId: Uuid,
                  serialize: Job -> Result<seq<byte>, string>, ready: bool)
    : (r: (Result<seq<FileStatus>, AddSourceFilesError>, seq<Effect>))
    requires |outcomes| == |files|
    ensures files == [] <==> r.0 == Err(NoSourceFiles)
    ensures files == [] ==> r.1 == []
  {
    if files == [] then (Err(NoSourceFiles), [])
    else
      var steps := Steps(files, outcomes, userId, serialize, ready);
      RunNeverNoSourceFiles(steps, |files|);
      Run(steps, |files|)
  }

  /** No file's step answers `NoSourceFiles`, so neither does the loop over them. */
  lemma {:induction false} RunNeverNoSourceFiles(steps: seq<StepResult>, n: nat)
    requires n <= |steps|
    requires forall i :: 0 <= i < |steps| ==> steps[i].0 != Err(NoSourceFiles)
    ensures Run(steps, n).0 != Err(NoSourceFiles)
  {
    if n > 0 {
      RunNeverNoSourceFiles(steps, n - 1);
    }
  }

  /** Once a file has aborted the request, later files change nothing. */
  lemma {:induction false} RunStopsAtError(steps: seq<StepResult>, n: nat, m: nat)
    requires n <= m <= |steps|
    requires Run(steps, n).0.Err?
    ensures Run(steps, m) == Run(steps, n)
    decreases m
  {
    if m > n {
      RunStopsAtError(steps, n, m - 1);
    }
  }

  /** A loop that goes through keeps every file's status, in order. */
  lemma {:induction false} RunStatuses(steps: seq<StepResult>, n: nat)
    requires n <= |steps|
    ensures var r := Run(steps, n).0;
            r.Ok? ==> |r.value| == n && forall i :: 0 <= i < n ==> steps[i].0 == Ok(r.value[i])
  {
    if n > 0 {
      RunStatuses(steps, n - 1);
    }
  }

  /**
   * When the request goes through, there is one status per file, in the
   * order of the files: the validation error of a refused file, success
   * for the others.
   */
  lemma OneStatusPerFile(files: seq<UploadedFile>, outcomes: seq<Outcome>, userId: Uuid,
                         serialize: Job -> Result<seq<byte>, string>, ready: bool)
    requires |outcomes| == |files|
    ensures var r := Handle(files, outcomes, userId, serialize, ready).0;
            r.Ok? ==> |r.value| == |files| && forall i :: 0 <= i < |files| ==> r.value[i] == ExpectedStatus(files[i])
  {
    if files != [] {
      var steps := Steps(files, outcomes, userId, serialize, ready);
      RunStatuses(steps, |files|);
      var r := Run(steps, |files|).0;
      if r.Ok? {
        forall i | 0 <= i < |files|
          ensures r.value[i] == ExpectedStatus(files[i])
        {
          StepsAt(files, outcomes, userId, serialize, ready, i);
        }
      }
    }
  }

  /**
   * Every job is published right after the transaction that stored its
   * `SourceMeta` commits, and names that record and the file's name.
   */
  ghost predicate SentAfterCommit(effects: seq<Effect>)
  {
    && (|effects| > 0 ==> !effects[0].Sent?)
    && forall j, k :: 0 <= j < k < |effects| && k == j + 1 && effects[k].Sent? ==>
         && effects[j].Committed?
         && effects[k].job.sourceMetaId == effects[j].meta.id
         && effects[k].job.sourceInitialName == effects[j].meta.initialName
  }

  /** Every stored record is an EPUB that has not been extracted yet, whatever type was parsed. */
  ghost predicate StoredAsFreshEpub(effects: seq<Effect>)
  {
    forall k :: 0 <= k < |effects| && effects[k].Committed? ==>
      effects[k].meta.sourceType == Epub && effects[k].meta.extractedAt == None
  }

  lemma EffectsAppend(a: seq<Effect>, b: seq<Effect>)
    requires SentAfterCommit(a) && StoredAsFreshEpub(a)
    requires SentAfterCommit(b) && StoredAsFreshEpub(b) && (b != [] ==> b[0].Uploaded?)
    ensures SentAfterCommit(a + b) && StoredAsFreshEpub(a + b)
  {
    var e := a + b;
    forall j, k | 0 <= j < k < |e| && k == j + 1 && e[k].Sent?
      ensures e[j].Committed? && e[k].job.sourceMetaId == e[j].meta.id
              && e[k].job.sourceInitialName == e[j].meta.initialName
    {
      if k >= |a| {
        assert e[k] == b[k - |a|];
        assert k > |a|;
        assert e[j] == b[j - |a|];
      } else {
        assert e[k] == a[k] && e[j] == a[j];
      }
    }
    forall k | 0 <= k < |e| && e[k].Committed?
      ensures e[k].meta.sourceType == Epub && e[k].meta.extractedAt == None
    {
      if k >= |a| {
        assert e[k] == b[k - |a|];
      } else {
        assert e[k] == a[k];
      }
    }
  }

  /** What one file leaves behind starts with its upload and sends a job only after its commit. */
  lemma StepEffects(f: UploadedFile, o: Outcome, userId: Uuid, serialize: Job -> Result<seq<byte>, string>, ready: bool)
    ensures var e := Step(f, o, userId, serialize, ready).1;
            SentAfterCommit(e) && StoredAsFreshEpub(e) && (e != [] ==> e[0].Uploaded?)
  {
    if Validate(f).Ok? {
      StoreEffects(Validate(f).value.0, Validate(f).value.1, o, userId, serialize, ready);
    }
  }

  /**
   * An accepted file's trail: its upload, the record naming the uploaded
   * object, then the job naming that record and the uploaded path.
   */
  lemma StoreEffects(name: string, sourceType: SourceType, o: Outcome, userId: Uuid,
                     serialize: Job -> Result<seq<byte>, string>, ready: bool)
    ensures var e := Store(name, sourceType, o, userId, serialize, ready).1;
            SentAfterCommit(e) && StoredAsFreshEpub(e) && (e != [] ==> e[0].Uploaded?)
    ensures var e := Store(name, sourceType, o, userId, serialize, ready).1;
            e != [] ==> o.upload.Ok? && e[0] == Uploaded(o.upload.value.0)
    ensures var e := Store(name, sourceType, o, userId, serialize, ready).1;
            |e| >= 2 ==> e[1].Committed? && e[1].meta.objectStoreName == o.upload.value.0 && e[1].meta.userId == userId
    ensures var e := Store(name, sourceType, o, userId, serialize, ready).1;
            |e| == 3 ==> e[2].Sent? && e[2].job.objectStorePathName == o.upload.value.1
  {
    var e := Store(name, sourceType, o, userId, serialize, ready).1;
    if |e| == 3 {
      assert e[0].Uploaded? && e[1].Committed? && e[2].Sent?;
      assert e[2].job.sourceMetaId == e[1].meta.id;
    }
  }

  lemma {:induction false} RunEffects(steps: seq<StepResult>, n: nat)
    requires n <= |steps|
    requires forall i :: 0 <= i < |steps| ==>
               SentAfterCommit(steps[i].1) && StoredAsFreshEpub(steps[i].1) && (steps[i].1 != [] ==> steps[i].1[0].Uploaded?)
    ensures SentAfterCommit(Run(steps, n).1) && StoredAsFreshEpub(Run(steps, n).1)
  {
    if n > 0 {
      RunEffects(steps, n - 1);
      var before := Run(steps, n - 1);
      if before.0.Ok? {
        EffectsAppend(before.1, steps[n - 1].1);
      }
    }
  }

  /**
   * Over the whole request, every job sent follows the commit of its
   * record, and every record stored is a fresh EPUB.
   */
  lemma JobsFollowCommits(files: seq<UploadedFile>, outcomes: seq<Outcome>, userId: Uuid,
                          serialize: Job -> Result<seq<byte>, string>, ready: bool)
    requires |outcomes| == |files|
    ensures var e := Handle(files, outcomes, userId, serialize, ready).1;
            SentAfterCommit(e) && StoredAsFreshEpub(e)
  {
    if files != [] {
      var steps := Steps(files, outcomes, userId, serialize, ready);
      forall i | 0 <= i < |steps|
        ensures SentAfterCommit(steps[i].1) && StoredAsFreshEpub(steps[i].1) && (steps[i].1 != [] ==> steps[i].1[0].Uploaded?)
      {
        StepsAt(files, outcomes, userId, serialize, ready, i);
        StepEffects(files[i], outcomes[i], userId, serialize, ready);
      }
      RunEffects(steps, |files|);
    }
  }

  /** Everything the storage and the broker are asked for succeeds. */
  predicate Succeeds(o: Outcome)
  {
    o.beginFailure.None? && o.upload.Ok? && o.saveFailure.None? && o.commitFailure.None? && o.publishFailure.None?
  }

  lemma {:induction false} RunAllOk(steps: seq<StepResult>, n: nat)
    requires n <= |steps|
    requires forall i :: 0 <= i < |steps| ==> steps[i].0.Ok? && |steps[i].1| == 3
    ensures Run(steps, n).0.Ok? && |Run(steps, n).1| == 3 * n
  {
    if n > 0 {
      RunAllOk(steps, n - 1);
    }
  }

  /**
   * When every file is an EPUB and nothing fails, the request goes through:
   * every file is uploaded, recorded and announced.
   */
  lemma EveryFileStored(files: seq<UploadedFile>, outcomes: seq<Outcome>, userId: Uuid,
                        serialize: Job -> Result<seq<byte>, string>)
    requires |outcomes| == |files| && files != []
    requires forall i :: 0 <= i < |files| ==> Validate(files[i]).Ok? && Succeeds(outcomes[i])
    requires forall j :: serialize(j).Ok?
    ensures var r := Handle(files, outcomes, userId, serialize, true);
            r.0.Ok? && |r.1| == 3 * |files|
  {
    var steps := Steps(files, outcomes, userId, serialize, true);
    forall i | 0 <= i < |steps|
      ensures steps[i].0.Ok? && |steps[i].1| == 3
    {
      StepsAt(files, outcomes, userId, serialize, true, i);
      StepSucceeds(files[i], outcomes[i], userId, serialize);
    }
    RunAllOk(steps, |files|);
  }

  lemma {:induction false} RunQuiet(steps: seq<StepResult>, n: nat)
    requires n <= |steps|
    requires forall i :: 0 <= i < |steps| ==> steps[i].0.Ok? && steps[i].1 == []
    ensures Run(steps, n).0.Ok? && Run(steps, n).1 == []
  {
    if n > 0 {
      RunQuiet(steps, n - 1);
    }
  }

  /**
   * A form whose every file is refused by the checks is answered with their
   * error statuses, and nothing is uploaded, stored or sent.
   */
  lemma RefusedFilesTouchNothing(files: seq<UploadedFile>, outcomes: seq<Outcome>, userId: Uuid,
                                 serialize: Job -> Result<seq<byte>, string>, ready: bool)
    requires |outcomes| == |files| && files != []
    requires forall i :: 0 <= i < |files| ==> Validate(files[i]).Err?
    ensures var r := Handle(files, outcomes, userId, serialize, ready);
            r.0.Ok? && r.1 == []
  {
    var steps := Steps(files, outcomes, userId, serialize, ready);
    forall i | 0 <= i < |steps|
      ensures steps[i].0.Ok? && steps[i].1 == []
    {
      StepsAt(files, outcomes, userId, serialize, ready, i);
    }
    RunQuiet(steps, |files|);
  }

  lemma StepSucceeds(f: UploadedFile, o: Outcome, userId: Uuid, serialize: Job -> Result<seq<byte>, string>)
    requires Validate(f).Ok? && Succeeds(o)
    requires forall j :: serialize(j).Ok?
    ensures Step(f, o, userId, serialize, true).0.Ok? && |Step(f, o, userId, serialize, true).1| == 3
  {
    var (name, sourceType) := Validate(f).value;
    var meta := Build(userId, name, o.upload.value.0, Epub, o.freshId, o.now);
    var job := Job(meta.id, ToDto(sourceType), o.upload.value.1, name);
    assert serialize(job).Ok?;
    assert Step(f, o, userId, serialize, true) == Store(name, sourceType, o, userId, serialize, true);
  }

  /** The messages the broker receives: one per job sent, in order. */
  function Messages(channel: Channel, exchangeName: string, routingKey: string, effects: seq<Effect>): (m: seq<Event>)
    ensures |m| <= |effects|
  {
    if effects == [] then []
    else
      var rest := Messages(channel, exchangeName, routingKey, effects[1..]);
      match effects[0]
      case Sent(_, data) => [Published(channel, exchangeName, routingKey, data, None)] + rest
      case _ => rest
  }

  lemma {:induction false} MessagesAppend(channel: Channel, exchangeName: string, routingKey: string, a: seq<Effect>, b: seq<Effect>)
    ensures Messages(channel, exchangeName, routingKey, a + b)
            == Messages(channel, exchangeName, routingKey, a) + Messages(channel, exchangeName, routingKey, b)
  {
    if a == [] {
      assert a + b == b;
    } else {
      assert (a + b)[1..] == a[1..] + b;
      MessagesAppend(channel, exchangeName, routingKey, a[1..], b);
    }
  }

  /**
   * `add_source_files`, proved to answer what `Handle` says and to publish
   * to the broker exactly the jobs `Handle` lists.
   */
  method AddSourceFilesHandler(files: seq<UploadedFile>, outcomes: seq<Outcome>, userId: Uuid,
                               serialize: Job -> Result<seq<byte>, string>,
                               repository: RabbitMQRepository.Repository, routingKey: string)
    returns (res: Result<seq<FileStatus>, AddSourceFilesError>, effects: seq<Effect>)
    requires |outcomes| == |files|
    modifies repository.connection
    ensures (res, effects) == Handle(files, outcomes, userId, serialize, repository.Ready?)
    ensures repository.Idle? ==> unchanged(repository.connection)
    ensures repository.Ready? ==>
              && repository.connection.channels == old(repository.connection.channels)
              && repository.connection.events == old(repository.connection.events)
                   + Messages(repository.channel, repository.exchangeName, routingKey, effects)
  {
    if |files| == 0 {
      return Err(NoSourceFiles), [];
    }
    ghost var steps := Steps(files, outcomes, userId, serialize, repository.Ready?);
    ghost var logged0 := repository.connection.events;
    var statuses: seq<FileStatus> := [];
    var failure: Option<AddSourceFilesError> := None;
    effects := [];
    var i := 0;
    while i < |files| && failure.None?
      invariant 0 <= i <= |files|
      invariant Run(steps, i) == (if failure.None? then Ok(statuses) else Err(failure.value), effects)
      invariant logged0 == old(repository.connection.events)
      invariant repository.Idle? ==> unchanged(repository.connection)
      invariant repository.Ready? ==>
                  && repository.connection.channels == old(repository.connection.channels)
                  && repository.connection.events == logged0 + Messages(repository.channel, repository.exchangeName, routingKey, effects)
    {
      ghost var logged := repository.connection.events;
      var r, e := HandleNth(files, outcomes, i, userId, serialize, repository, routingKey);
      if repository.Ready? {
        LogGrows(repository.channel, repository.exchangeName, routingKey, logged0, logged, repository.connection.events, effects, e);
      }
      effects := effects + e;
      if r.Err? {
        failure := Some(r.error);
      } else {
        statuses := statuses + [r.value];
      }
      i := i + 1;
    }
    if failure.Some? {
      RunStopsAtError(steps, i, |files|);
      res := Err(failure.value);
    } else {
      res := Ok(statuses);
    }
  }

  /** The body of the loop over the files, as the loop sees it: the `i`-th step. */
  method HandleNth(files: seq<UploadedFile>, outcomes: seq<Outcome>, i: nat, userId: Uuid,
                   serialize: Job -> Result<seq<byte>, string>,
                   repository: RabbitMQRepository.Repository, routingKey: string)
    returns (r: Result<FileStatus, AddSourceFilesError>, effects: seq<Effect>)
    requires |outcomes| == |files| && i < |files|
    modifies repository.connection
    ensures (r, effects) == Steps(files, outcomes, userId, serialize, repository.Ready?)[i]
    ensures repository.Idle? ==> unchanged(repository.connection)
    ensures repository.Ready? ==>
              && repository.connection.channels == old(repository.connection.channels)
              && repository.connection.events == old(repository.connection.events)
                   + Messages(repository.channel, repository.exchangeName, routingKey, effects)
  {
    StepsAt(files, outcomes, userId, serialize, repository.Ready?, i);
    r, effects := HandleFile(files[i], outcomes[i], userId, serialize, repository, routingKey);
  }

  /** One file: checked, then stored and announced through `repository`. */
  method HandleFile(f: UploadedFile, o: Outcome, userId: Uuid, serialize: Job -> Result<seq<byte>, string>,
                    repository: RabbitMQRepository.Repository, routingKey: string)
    returns (r: Result<FileStatus, AddSourceFilesError>, effects: seq<Effect>)
    modifies repository.connection
    ensures (r, effects) == Step(f, o, userId, serialize, repository.Ready?)
    ensures repository.Idle? ==> unchanged(repository.connection)
    ensures repository.Ready? ==>
              && repository.connection.channels == old(repository.connection.channels)
              && repository.connection.events == old(repository.connection.events)
                   + Messages(repository.channel, repository.exchangeName, routingKey, effects)
  {
    var v := Validate(f);
    if v.Err? {
      return Ok(v.error), [];
    }
    r, effects := StoreFile(v.value.0, v.value.1, o, userId, serialize, repository, routingKey);
  }

  /** An accepted file: upload, record, and publish its job. */
  method StoreFile(name: string, sourceType: SourceType, o: Outcome, userId: Uuid,
                   serialize: Job -> Result<seq<byte>, string>,
                   repository: RabbitMQRepository.Repository, routingKey: string)
    returns (r: Result<FileStatus, AddSourceFilesError>, effects: seq<Effect>)
    modifies repository.connection
    ensures (r, effects) == Store(name, sourceType, o, userId, serialize, repository.Ready?)
    ensures repository.Idle? ==> unchanged(repository.connection)
    ensures repository.Ready? ==>
              && repository.connection.channels == old(repository.connection.channels)
              && repository.connection.events == old(repository.connection.events)
                   + Messages(repository.channel, repository.exchangeName, routingKey, effects)
  {
    if o.beginFailure.Some? {
      return Err(UnexpectedError(POOL_FAILED)), [];
    }
    if o.upload.Err? {
      return Err(UnexpectedError("The file " + name + UPLOAD_FAILED)), [];
    }
    var (objectName, objectPathName) := o.upload.value;
    var meta := Build(userId, name, objectName, Epub, o.freshId, o.now);
    if o.saveFailure.Some? {
      effects := [Uploaded(objectName)];
      NoMessages(repository, routingKey, effects);
      return Err(UnexpectedError(SAVE_FAILED + name)), effects;
    }
    if o.commitFailure.Some? {
      effects := [Uploaded(objectName)];
      NoMessages(repository, routingKey, effects);
      return Err(UnexpectedError(COMMIT_FAILED + name)), effects;
    }
    effects := [Uploaded(objectName), Committed(meta)];
    NoMessages(repository, routingKey, effects);
    var job := Job(meta.id, ToDto(sourceType), objectPathName, name);
    var data := serialize(job);
    if data.Err? {
      return Err(JsonError(data.error)), effects;
    }
    var sent := RabbitMQRepository.Publish(repository, routingKey, data.value, o.publishFailure);
    if sent.Err? {
      return Err(UnexpectedError(SEND_FAILED + name)), effects;
    }
    effects := effects + [Sent(job, data.value)];
    if repository.Ready? {
      MessagesAppend(repository.channel, repository.exchangeName, routingKey, [Uploaded(objectName), Committed(meta)], [Sent(job, data.value)]);
    }
    r := Ok(FileStatus(Some(name), Success, None));
  }

  /** Publishing the messages of `e` after those of `effects` logs the messages of `effects + e`. */
  lemma LogGrows(channel: Channel, exchangeName: string, routingKey: string,
                 log0: seq<Event>, log1: seq<Event>, log2: seq<Event>, effects: seq<Effect>, e: seq<Effect>)
    requires log1 == log0 + Messages(channel, exchangeName, routingKey, effects)
    requires log2 == log1 + Messages(channel, exchangeName, routingKey, e)
    ensures log2 == log0 + Messages(channel, exchangeName, routingKey, effects + e)
  {
    MessagesAppend(channel, exchangeName, routingKey, effects, e);
    LogAppend(log0, Messages(channel, exchangeName, routingKey, effects), Messages(channel, exchangeName, routingKey, e));
  }

  lemma LogAppend(log: seq<Event>, a: seq<Event>, b: seq<Event>)
    ensures (log + a) + b == log + (a + b)
  {
  }

  lemma NoMessages(repository: RabbitMQRepository.Repository, routingKey: string, effects: seq<Effect>)
    requires |effects| <= 2 && forall k :: 0 <= k < |effects| ==> !effects[k].Sent?
    ensures repository.Ready? ==> Messages(repository.channel, repository.exchangeName, routingKey, effects) == []
  {
    if repository.Ready? && effects != [] {
      NoMessages(repository, routingKey, effects[1..]);
    }
  }
}
