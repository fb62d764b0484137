/**
 * The memory-file upload of MemoryHandler: an upload is admitted only after
 * its name and size are validated, its bytes are read and its text is
 * parsed; then an upload job is created and its sections are turned into
 * memories, one at a time, in order.
 *
 * The memory service and the job service are not part of this model. Their
 * outcomes are parameters: `created(i)` is the id of the memory created for
 * section i, or None when creation failed, and `accepted(i)` says whether
 * the job service took that memory.
 */
module Memories {
  import opened Results
  import opened GoStrings
  import opened FileParser

  datatype JobStatus = Pending | Processing | Completed | Failed

  /** A memory as the memory service returns it. */
  datatype Memory = Memory(id: string, userId: string, content: string)

  /** What happened to a job, in order: a status change or an appended memory. */
  datatype JobEvent = StatusSet(status: JobStatus) | MemoryAdded(memory: Memory)

  /** An upload job: fixed description, current status and the memories produced so far. */
  class UploadJob {
    const id: string
    const userId: string
    const filename: string
    const fileType: string
    const totalItems: nat
    var status: JobStatus
    var memories: seq<Memory>
    /** Every change made to the job since it was created. */
    ghost var events: seq<JobEvent>

    /** CreateJob: a new job starts `pending`, with no memories. */
    constructor (id: string, userId: string, filename: string, fileType: string, totalItems: nat)
      ensures this.id == id && this.userId == userId && this.filename == filename
      ensures this.fileType == fileType && this.totalItems == totalItems
      ensures status == Pending && memories == [] && events == []
    {
      this.id := id;
      this.userId := userId;
      this.filename := filename;
      this.fileType := fileType;
      this.totalItems := totalItems;
      status := Pending;
      memories := [];
      events := [];
    }

    /** UpdateJobStatus: sets the status and records the change; the memories are untouched. */
    method UpdateStatus(s: JobStatus)
      modifies this
      ensures status == s && memories == old(memories)
      ensures events == old(events) + [StatusSet(s)]
    {
      status := s;
      events := events + [StatusSet(s)];
    }

    /**
     * AddMemoryToJob: appends the memory when the job service accepts it
     * (`accepted`); a refusal leaves the job as it was.
     */
    method AddMemory(m: Memory, accepted: bool) returns (ok: bool)
      modifies this
      ensures ok == accepted && status == old(status)
      ensures memories == if ok then old(memories) + [m] else old(memories)
      ensures events == if ok then old(events) + [MemoryAdded(m)] else old(events)
    {
      ok := accepted;
      if ok {
        memories := memories + [m];
        events := events + [MemoryAdded(m)];
      }
    }
  }

  /** Section i leads to a memory in the job: it was created and the job took it. */
  predicate Succeeds(created: nat -> Option<string>, accepted: nat -> bool, i: nat) {
    created(i).Some? && accepted(i)
  }

  /** The memory created for section i (meaningful when creation succeeded). */
  function MemoryFor(userId: string, sections: seq<Section>, created: nat -> Option<string>, i: nat): Memory
    requires i < |sections| && created(i).Some?
  {
    Memory(created(i).value, userId, sections[i].content)
  }

  /** The indices among the first n sections that end up as memories of the job, in order. */
  function SuccessfulIndices(created: nat -> Option<string>, accepted: nat -> bool, n: nat): seq<nat> {
    if n == 0 then []
    else SuccessfulIndices(created, accepted, n - 1) + (if Succeeds(created, accepted, n - 1) then [n - 1] else [])
  }

  /** The memories that processing the first n sections appends to the job. */
  function Stored(userId: string, sections: seq<Section>, created: nat -> Option<string>, accepted: nat -> bool, n: nat): seq<Memory>
    requires n <= |sections|
  {
    if n == 0 then []
    else
      Stored(userId, sections, created, accepted, n - 1) +
      (if Succeeds(created, accepted, n - 1) then [MemoryFor(userId, sections, created, n - 1)] else [])
  }

  /**
   * The successful indices below n are exactly the sections that succeed,
   * listed in increasing order, so there are at most n of them.
   */
  lemma {:induction false} SuccessfulIndicesExact(created: nat -> Option<string>, accepted: nat -> bool, n: nat)
    ensures |SuccessfulIndices(created, accepted, n)| <= n
    ensures forall k :: 0 <= k < |SuccessfulIndices(created, accepted, n)| ==> SuccessfulIndices(created, accepted, n)[k] < n
    ensures forall i: nat :: i in SuccessfulIndices(created, accepted, n) <==> i < n && Succeeds(created, accepted, i)
    ensures forall j, k :: 0 <= j < k < |SuccessfulIndices(created, accepted, n)| ==>
              SuccessfulIndices(created, accepted, n)[j] < SuccessfulIndices(created, accepted, n)[k]
  {
    if n > 0 {
      SuccessfulIndicesExact(created, accepted, n - 1);
    }
  }

  /**
   * The stored memories are, in order, the memories of the successful
   * sections: the k-th one belongs to the k-th successful section.
   */
  lemma {:induction false} StoredFollowsSections(userId: string, sections: seq<Section>, created: nat -> Option<string>, accepted: nat -> bool, n: nat)
    requires n <= |sections|
    ensures |Stored(userId, sections, created, accepted, n)| == |SuccessfulIndices(created, accepted, n)|
    ensures forall k :: 0 <= k < |Stored(userId, sections, created, accepted, n)| ==>
              var i := SuccessfulIndices(created, accepted, n)[k];
              i < n && Succeeds(created, accepted, i) &&
              Stored(userId, sections, created, accepted, n)[k] == MemoryFor(userId, sections, created, i)
  {
    if n > 0 {
      StoredFollowsSections(userId, sections, created, accepted, n - 1);
      SuccessfulIndicesExact(created, accepted, n - 1);
    }
  }

  /** Every memory appended belongs to the uploading user, and there are at most as many as sections. */
  lemma {:induction false} StoredBounded(userId: string, sections: seq<Section>, created: nat -> Option<string>, accepted: nat -> bool, n: nat)
    requires n <= |sections|
    ensures |Stored(userId, sections, created, accepted, n)| <= n
    ensures forall k :: 0 <= k < |Stored(userId, sections, created, accepted, n)| ==>
              Stored(userId, sections, created, accepted, n)[k].userId == userId
  {
    if n > 0 {
      StoredBounded(userId, sections, created, accepted, n - 1);
    }
  }

  /** When every section succeeds, the job holds one memory per section, in section order. */
  lemma {:induction false} AllSucceedStoresAll(userId: string, sections: seq<Section>, created: nat -> Option<string>, accepted: nat -> bool, n: nat)
    requires n <= |sections|
    requires forall i :: 0 <= i < n ==> Succeeds(created, accepted, i)
    ensures |Stored(userId, sections, created, accepted, n)| == n
    ensures forall i :: 0 <= i < n ==>
              created(i).Some? &&
              Stored(userId, sections, created, accepted, n)[i] == Memory(created(i).value, userId, sections[i].content)
  {
    if n > 0 {
      AllSucceedStoresAll(userId, sections, created, accepted, n - 1);
    }
  }

  /** The events recording the given memories being appended, one each, in order. */
  function AddedEvents(ms: seq<Memory>): (es: seq<JobEvent>)
    ensures |es| == |ms| && forall k :: 0 <= k < |ms| ==> es[k] == MemoryAdded(ms[k])
  {
    if ms == [] then [] else [MemoryAdded(ms[0])] + AddedEvents(ms[1..])
  }

  lemma AddedEventsAppend(ms: seq<Memory>, m: Memory)
    ensures AddedEvents(ms + [m]) == AddedEvents(ms) + [MemoryAdded(m)]
  {
    assert AddedEvents(ms + [m])[|ms|] == MemoryAdded(m);
  }

  /**
   * processUploadJob: the job is set to `processing` before any section is
   * handled; each section in turn is created as a memory and appended, a
   * failed creation or a refused append is skipped; the job ends
   * `completed` whatever failed.
   */
  method ProcessUploadJob(job: UploadJob, userId: string, sections: seq<Section>,
                          created: nat -> Option<string>, accepted: nat -> bool)
    modifies job
    ensures job.status == Completed
    ensures job.memories == old(job.memories) + Stored(userId, sections, created, accepted, |sections|)
    ensures job.events == old(job.events) + [StatusSet(Processing)] +
                          AddedEvents(Stored(userId, sections, created, accepted, |sections|)) +
                          [StatusSet(Completed)]
  {
    job.UpdateStatus(Processing);
    ghost var start := job.memories;
    ghost var started := job.events;
    var i := 0;
    while i < |sections|
      invariant 0 <= i <= |sections|
      invariant job.memories == start + Stored(userId, sections, created, accepted, i)
      invariant job.events == started + AddedEvents(Stored(userId, sections, created, accepted, i))
    {
      ProcessSection(job, userId, sections, created, accepted, i);
      StoredStep(userId, sections, created, accepted, i);
      i := i + 1;
    }
    job.UpdateStatus(Completed);
  }

  /** Handling section i appends its memory, and the matching event, exactly when it succeeds. */
  lemma StoredStep(userId: string, sections: seq<Section>, created: nat -> Option<string>, accepted: nat -> bool, i: nat)
    requires i < |sections|
    ensures Succeeds(created, accepted, i) ==>
              var m := MemoryFor(userId, sections, created, i);
              Stored(userId, sections, created, accepted, i + 1) == Stored(userId, sections, created, accepted, i) + [m] &&
              AddedEvents(Stored(userId, sections, created, accepted, i + 1)) ==
                AddedEvents(Stored(userId, sections, created, accepted, i)) + [MemoryAdded(m)]
    ensures !Succeeds(created, accepted, i) ==>
              Stored(userId, sections, created, accepted, i + 1) == Stored(userId, sections, created, accepted, i)
  {
    if Succeeds(created, accepted, i) {
      AddedEventsAppend(Stored(userId, sections, created, accepted, i), MemoryFor(userId, sections, created, i));
    }
  }

  /**
   * One turn of processUploadJob's loop: create the memory for section i and
   * append it to the job; a failed creation or a refused append changes
   * nothing.
   */
  method ProcessSection(job: UploadJob, userId: string, sections: seq<Section>,
                        created: nat -> Option<string>, accepted: nat -> bool, i: nat)
    requires i < |sections|
    modifies job
    ensures job.status == old(job.status)
    ensures Succeeds(created, accepted, i) ==>
              var m := MemoryFor(userId, sections, created, i);
              job.memories == old(job.memories) + [m] && job.events == old(job.events) + [MemoryAdded(m)]
    ensures !Succeeds(created, accepted, i) ==>
              job.memories == old(job.memories) && job.events == old(job.events)
  {
    var section := sections[i];
    var memoryId := created(i);
    if memoryId.Some? {
      var memory := Memory(memoryId.value, userId, section.content);
      var _ := job.AddMemory(memory, accepted(i));
    }
  }

  /** The multipart file header: the client's file name and declared size. */
  datatype FileHeader = FileHeader(filename: string, size: int)

  /** Opening and reading the uploaded file. */
  datatype ReadOutcome = OpenFailed | ReadFailed | Read(content: string)

  /** A refused upload: the HTTP status and the `error` message of the JSON body. */
  datatype Rejection = Rejection(httpStatus: int, error: string)

  /** The 202 response: the job's id, status, file name and raw extension. */
  datatype UploadResponse = UploadResponse(jobId: string, status: JobStatus, filename: string, fileType: string)

  /**
   * The guards of UploadMemoryFile, in their order: a file must be present,
   * then pass validation, then be opened and read, then parse. On success,
   * the header and the parsed sections.
   */
  function Admit(file: Option<FileHeader>, read: ReadOutcome): Result<(FileHeader, seq<Section>), Rejection> {
    if file.None? then Err(Rejection(400, "No file uploaded"))
    else
      var header := file.value;
      match ValidateFile(header.filename, header.size)
      case Some(e) => Err(Rejection(400, e.message))
      case None =>
        match read
        case OpenFailed => Err(Rejection(500, "Failed to read file"))
        case ReadFailed => Err(Rejection(500, "Failed to read file content"))
        case Read(content) =>
          match ParsedFile(header.filename, content)
          case Err(e) => Err(Rejection(400, "Parse error: " + e.message))
          case Ok(sections) => Ok((header, sections))
  }

  /**
   * What the guards guarantee: an admitted upload passed validation and
   * parsed into at least one non-empty section; a file too large is refused
   * with "File exceeds 5MB limit" before it is read, and a wrongly named one
   * with "Only .txt and .md files allowed".
   */
  lemma AdmitOutcome(file: Option<FileHeader>, read: ReadOutcome)
    ensures Admit(file, read).Ok? <==>
              file.Some? && ValidateFile(file.value.filename, file.value.size).None? &&
              read.Read? && ParsedFile(file.value.filename, read.content).Ok?
    ensures Admit(file, read).Ok? ==>
              var (header, sections) := Admit(file, read).value;
              header == file.value && |sections| >= 1 &&
              sections == ParsedFile(header.filename, read.content).value
    ensures file.Some? && file.value.size > MaxFileSize ==>
              Admit(file, read) == Err(Rejection(400, "File exceeds 5MB limit"))
    ensures file.Some? && file.value.size <= MaxFileSize && !HasAcceptedSuffix(file.value.filename) ==>
              Admit(file, read) == Err(Rejection(400, "Only .txt and .md files allowed"))
  {
    if file.Some? {
      var header := file.value;
      var checked := ValidateFile(header.filename, header.size);
      if checked.Some? {
        assert Admit(file, read) == Err(Rejection(400, checked.value.message));
      } else if read.Read? {
        ParsedFileOutcome(header.filename, read.content);
      }
    }
  }

  /**
   * An accepted file's parse never fails with a type error, because
   * validation already checked the name: the only parse failure left is an
   * empty file.
   */
  lemma AdmittedParseFailsOnlyEmpty(header: FileHeader, content: string)
    requires ValidateFile(header.filename, header.size).None?
    ensures ParsedFile(header.filename, content).Err? ==>
              ParsedFile(header.filename, content).error.code == EmptyFile
  {
    ParsedFileOutcome(header.filename, content);
  }

  /**
   * UploadMemoryFile with the job run in sequence: no job is created unless
   * the upload is admitted; otherwise the job is created with one item per
   * section, the reply reports it `pending`, and the job is then processed.
   */
  method UploadMemoryFile(userId: string, file: Option<FileHeader>, read: ReadOutcome, jobId: string,
                          created: nat -> Option<string>, accepted: nat -> bool)
    returns (reply: Result<UploadResponse, Rejection>, job: UploadJob?)
    ensures Admit(file, read).Err? ==> reply == Err(Admit(file, read).error) && job == null
    ensures Admit(file, read).Ok? ==>
              var (header, sections) := Admit(file, read).value;
              job != null && fresh(job) &&
              job.id == jobId && job.userId == userId && job.filename == header.filename &&
              job.fileType == Ext(header.filename) && job.totalItems == |sections| &&
              reply == Ok(UploadResponse(jobId, Pending, header.filename, Ext(header.filename))) &&
              job.status == Completed &&
              job.memories == Stored(userId, sections, created, accepted, |sections|) &&
              |job.memories| <= job.totalItems
  {
    var admitted := Admit(file, read);
    if admitted.Err? {
      return Err(admitted.error), null;
    }
    var (header, sections) := admitted.value;
    var fileType := Ext(header.filename);
    job := new UploadJob(jobId, userId, header.filename, fileType, |sections|);
    reply := Ok(UploadResponse(job.id, job.status, job.filename, job.fileType));
    ProcessUploadJob(job, userId, sections, created, accepted);
    StoredBounded(userId, sections, created, accepted, |sections|);
  }
}
