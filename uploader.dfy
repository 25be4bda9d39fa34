/** The per-file loop of the uploader. Each argument is a file record that carries what
    the outside world answers for that file: the stat result, the bytes the checksum
    computation reads (or nothing when opening or reading fails), the search endpoint's
    reply and the submission endpoint's reply. The loop produces the trace of what it
    does and the exit status. */
module Uploader {
  import opened Options
  import opened Search

  /** The service's size ceiling, 250 MiB; a file of exactly this size is accepted. */
  const MaxUploadSize: nat := 250 * 1024 * 1024

  /** The exit status when the service rate-limits the client. */
  const RateLimitExit: int := 2

  /** The exit status of the fatal usage message (no file given). */
  const UsageExit: int := 1

  /** What stat reports for a path. */
  datatype StatResult = StatFailed | Directory | NonDirectory(size: nat)

  /** What the submission endpoint answered: nothing at all (the file could not be
      opened or encoded, or the request failed in transport), or a status code. */
  datatype PostReply = NotSent | Posted(status: int)

  /** Everything the outside world answers for one argument. */
  datatype FileRecord = FileRecord(
    path: string,
    stat: StatResult,
    content: Option<seq<bv8>>,
    searchReply: HttpReply,
    postReply: PostReply)

  /** Why a file was dropped before hashing was finished. */
  datatype SkipReason = StatError | IsDirectory | TooLarge(size: nat) | ChecksumError

  /** Result of an upload attempt: success carries the search URL printed after "OK". */
  datatype UploadOutcome = UploadFailed(reply: PostReply) | UploadOk(url: string)

  /** One step of the run. */
  datatype Action =
    | Skipped(reason: SkipReason)
    | Hashed(checksum: string)
    | LookedUp(result: Lookup)
    | Uploaded(outcome: UploadOutcome)
    | Slept
    | Halt

  /** A step, tagged with the position of the argument it belongs to. */
  datatype Event = Event(file: nat, action: Action)

  /** A file passes the checks made before hashing: stat works, it is not a directory
      and it is not larger than the ceiling. */
  predicate Eligible(stat: StatResult) {
    stat.NonDirectory? && stat.size <= MaxUploadSize
  }

  /** The upload succeeds exactly on status 200; the link printed then is the search URL. */
  function UploadResult(checksum: string, reply: PostReply): (o: UploadOutcome)
    ensures o.UploadOk? <==> reply == Posted(StatusOK)
    ensures o.UploadOk? ==> o.url == SearchUrl(checksum)
  {
    if reply == Posted(StatusOK) then UploadOk(SearchUrl(checksum)) else UploadFailed(reply)
  }

  /** The steps taken for the argument at position `i`. */
  function FileEvents(i: nat, f: FileRecord, digest: seq<bv8> -> string): (steps: seq<Event>) {
    match f.stat
    case StatFailed => [Event(i, Skipped(StatError))]
    case Directory => [Event(i, Skipped(IsDirectory))]
    case NonDirectory(size) =>
      if size > MaxUploadSize then
        [Event(i, Skipped(TooLarge(size)))]
      else if f.content.None? then
        [Event(i, Skipped(ChecksumError))]
      else
        var checksum := digest(f.content.value);
        var lookup := Classify(checksum, f.searchReply);
        if lookup == RateLimited then
          [Event(i, Hashed(checksum)), Event(i, Halt)]
        else if !lookup.NotFound? then
          [Event(i, Hashed(checksum)), Event(i, LookedUp(lookup))]
        else
          var outcome := UploadResult(checksum, f.postReply);
          [Event(i, Hashed(checksum)), Event(i, LookedUp(lookup)), Event(i, Uploaded(outcome))]
          + (if outcome.UploadOk? then [Event(i, Slept)] else [])
  }

  /** Processing this file ends the run: it passes the checks, its checksum is
      computed and the lookup reports the rate limit. */
  predicate Halts(f: FileRecord, digest: seq<bv8> -> string) {
    Eligible(f.stat) && f.content.Some? &&
    Classify(digest(f.content.value), f.searchReply) == RateLimited
  }

  /** The steps for the arguments from position `i` on, up to and including the first
      one that ends the run. */
  function RunFrom(files: seq<FileRecord>, i: nat, digest: seq<bv8> -> string): (trace: seq<Event>)
    decreases |files| - i
  {
    if i >= |files| then []
    else FileEvents(i, files[i], digest)
         + (if Halts(files[i], digest) then [] else RunFrom(files, i + 1, digest))
  }

  /** One step of the definition of RunFrom, as a fact that proofs call explicitly. */
  lemma RunFromUnfold(files: seq<FileRecord>, i: nat, digest: seq<bv8> -> string)
    requires i < |files|
    ensures RunFrom(files, i, digest) == FileEvents(i, files[i], digest)
              + (if Halts(files[i], digest) then [] else RunFrom(files, i + 1, digest))
  {
  }

  /** Concatenation of traces is associative; stated once so that the loop proof of
      Run can use it without unfolding sequence equality itself. */
  lemma ConcatAssoc(a: seq<Event>, b: seq<Event>, c: seq<Event>)
    ensures (a + b) + c == a + (b + c)
  {
  }

  /** The steps of the whole run. */
  function RunTrace(files: seq<FileRecord>, digest: seq<bv8> -> string): (trace: seq<Event>) {
    RunFrom(files, 0, digest)
  }

  /** The exit status: the usage failure without arguments, 2 when some file is
      rate-limited, 0 otherwise (per-file errors do not change it). */
  function ExitStatus(files: seq<FileRecord>, digest: seq<bv8> -> string): (status: int) {
    if files == [] then UsageExit
    else if exists i :: 0 <= i < |files| && Halts(files[i], digest) then RateLimitExit
    else 0
  }

  /** One pass of the loop body for the argument at position `i`: the steps taken for
      it, and whether the run ends here. Each early return is a `continue` of the loop. */
  method ProcessFile(i: nat, f: FileRecord, digest: seq<bv8> -> string)
    returns (steps: seq<Event>, halted: bool)
    ensures steps == FileEvents(i, f, digest)
    ensures halted == Halts(f, digest)
  {
    halted := false;
    if f.stat.StatFailed? {
      steps := [Event(i, Skipped(StatError))];
      return;
    }
    if f.stat.Directory? {
      steps := [Event(i, Skipped(IsDirectory))];
      return;
    }
    if f.stat.size > MaxUploadSize {
      steps := [Event(i, Skipped(TooLarge(f.stat.size)))];
      return;
    }
    if f.content.None? {
      steps := [Event(i, Skipped(ChecksumError))];
      return;
    }
    var checksum := digest(f.content.value);
    steps := [Event(i, Hashed(checksum))];
    var lookup := Classify(checksum, f.searchReply);
    if lookup == RateLimited {
      steps := steps + [Event(i, Halt)];
      halted := true;
      return;
    }
    steps := steps + [Event(i, LookedUp(lookup))];
    if lookup.LookupFailed? || lookup.Found? {
      return;
    }
    var outcome := UploadResult(checksum, f.postReply);
    steps := steps + [Event(i, Uploaded(outcome))];
    if outcome.UploadFailed? {
      return;
    }
    steps := steps + [Event(i, Slept)];
  }

  /** Processes the arguments one after another; every per-file failure moves on to the
      next argument, a rate-limited lookup ends the run with status 2. */
  method Run(files: seq<FileRecord>, digest: seq<bv8> -> string)
    returns (trace: seq<Event>, exitStatus: int)
    ensures trace == RunTrace(files, digest)
    ensures exitStatus == ExitStatus(files, digest)
  {
    trace := [];
    if files == [] {
      exitStatus := UsageExit;
      return;
    }
    exitStatus := 0;
    for i := 0 to |files|
      invariant forall j :: 0 <= j < i ==> !Halts(files[j], digest)
      invariant trace + RunFrom(files, i, digest) == RunTrace(files, digest)
    {
      var steps, halted := ProcessFile(i, files[i], digest);
      if halted {
        trace := trace + steps;
        exitStatus := RateLimitExit;
        return;
      }
      RunFromUnfold(files, i, digest);
      ConcatAssoc(trace, steps, RunFrom(files, i + 1, digest));
      trace := trace + steps;
    }
  }
}

/** Properties of the run trace: what can happen to a file, and in which order. */
module UploaderProperties {
  import opened Search
  import opened Uploader

  /** Every upload is immediately preceded, for the same file, by its checksum and by a
      lookup that reported "not found" for that checksum. */
  ghost predicate UploadsFollowNotFound(t: seq<Event>) {
    forall k :: 0 <= k < |t| && t[k].action.Uploaded? ==>
      && 2 <= k
      && t[k - 2].file == t[k].file && t[k - 2].action.Hashed?
      && t[k - 1] == Event(t[k].file, LookedUp(NotFound(SearchUrl(t[k - 2].action.checksum))))
  }

  /** Every pause immediately follows a successful upload of the same file. */
  ghost predicate SleepsFollowUploads(t: seq<Event>) {
    forall k :: 0 <= k < |t| && t[k].action == Slept ==>
      1 <= k && t[k - 1].file == t[k].file && t[k - 1].action.Uploaded? &&
      t[k - 1].action.outcome.UploadOk?
  }

  /** Every successful upload is immediately followed by a pause. */
  ghost predicate UploadsThenSleep(t: seq<Event>) {
    forall k :: 0 <= k < |t| && t[k].action.Uploaded? && t[k].action.outcome.UploadOk? ==>
      k + 1 < |t| && t[k + 1] == Event(t[k].file, Slept)
  }

  /** The rate-limit halt, if any, is the last step. */
  ghost predicate HaltIsLast(t: seq<Event>) {
    forall k :: 0 <= k < |t| && t[k].action == Halt ==> k == |t| - 1
  }

  ghost predicate WellOrdered(t: seq<Event>) {
    UploadsFollowNotFound(t) && SleepsFollowUploads(t) && UploadsThenSleep(t) && HaltIsLast(t)
  }

  /** The steps of one file: all tagged with its position, in the order the loop body
      takes them, with a halt exactly when the file is rate-limited. */
  lemma FileEventsShape(i: nat, f: FileRecord, digest: seq<bv8> -> string)
    ensures var fe := FileEvents(i, f, digest);
            && fe != []
            && (forall e :: e in fe ==> e.file == i)
            && WellOrdered(fe)
            && (Event(i, Halt) in fe <==> Halts(f, digest))
  {
    FileEventsTagged(i, f, digest);
    var fe := FileEvents(i, f, digest);
    if !Eligible(f.stat) || f.content.None? {
      assert |fe| == 1 && fe[0].action.Skipped?;
    } else {
      var c := digest(f.content.value);
      var lookup := Classify(c, f.searchReply);
      if lookup == RateLimited {
        assert fe == [Event(i, Hashed(c)), Event(i, Halt)];
      } else if !lookup.NotFound? {
        assert fe == [Event(i, Hashed(c)), Event(i, LookedUp(lookup))];
      } else {
        var outcome := UploadResult(c, f.postReply);
        NotFoundStepsWellOrdered(i, c, outcome);
        assert fe == [Event(i, Hashed(c)), Event(i, LookedUp(NotFound(SearchUrl(c)))), Event(i, Uploaded(outcome))]
                     + (if outcome.UploadOk? then [Event(i, Slept)] else []);
      }
    }
  }

  /** Every step produced for the argument at position `i` is tagged with `i`. */
  lemma FileEventsTagged(i: nat, f: FileRecord, digest: seq<bv8> -> string)
    ensures forall e :: e in FileEvents(i, f, digest) ==> e.file == i
  {
  }

  /** A file that passes the checks, is hashed and is reported "not found" is uploaded:
      its steps are the checksum, the lookup, the upload, and a pause exactly when the
      upload succeeded. */
  lemma UploadedSteps(i: nat, f: FileRecord, digest: seq<bv8> -> string)
    requires Eligible(f.stat) && f.content.Some?
    requires Classify(digest(f.content.value), f.searchReply).NotFound?
    ensures var c := digest(f.content.value);
            var outcome := UploadResult(c, f.postReply);
            FileEvents(i, f, digest)
            == [Event(i, Hashed(c)), Event(i, LookedUp(NotFound(SearchUrl(c)))), Event(i, Uploaded(outcome))]
               + (if outcome.UploadOk? then [Event(i, Slept)] else [])
  {
  }

  /** The steps after a "not found" lookup keep the order of the loop body. */
  lemma NotFoundStepsWellOrdered(i: nat, c: string, outcome: UploadOutcome)
    ensures var fe := [Event(i, Hashed(c)), Event(i, LookedUp(NotFound(SearchUrl(c)))), Event(i, Uploaded(outcome))]
                      + (if outcome.UploadOk? then [Event(i, Slept)] else []);
            && (forall e :: e in fe ==> e.file == i)
            && WellOrdered(fe)
            && Event(i, Halt) !in fe
  {
    var head := [Event(i, Hashed(c)), Event(i, LookedUp(NotFound(SearchUrl(c)))), Event(i, Uploaded(outcome))];
    var fe := head + (if outcome.UploadOk? then [Event(i, Slept)] else []);
    forall k | 0 <= k < |fe|
      ensures fe[k].file == i && fe[k].action != Halt
      ensures fe[k].action.Uploaded? ==> k == 2
      ensures fe[k].action == Slept ==> k == 3
    {
    }
    assert fe[1] == Event(i, LookedUp(NotFound(SearchUrl(fe[0].action.checksum))));
  }

  lemma ConcatWellOrdered(a: seq<Event>, b: seq<Event>)
    requires WellOrdered(a) && WellOrdered(b)
    requires b != [] ==> forall k :: 0 <= k < |a| ==> a[k].action != Halt
    ensures WellOrdered(a + b)
  {
    var t := a + b;
    forall k | 0 <= k < |t| && t[k].action.Uploaded?
      ensures 2 <= k && t[k - 2].file == t[k].file && t[k - 2].action.Hashed?
      ensures t[k - 1] == Event(t[k].file, LookedUp(NotFound(SearchUrl(t[k - 2].action.checksum))))
    {
      if k >= |a| {
        assert b[k - |a|] == t[k];
      }
    }
    forall k | 0 <= k < |t| && t[k].action == Slept
      ensures 1 <= k && t[k - 1].file == t[k].file && t[k - 1].action.Uploaded?
      ensures t[k - 1].action.outcome.UploadOk?
    {
      if k >= |a| {
        assert b[k - |a|] == t[k];
      }
    }
    forall k | 0 <= k < |t| && t[k].action.Uploaded? && t[k].action.outcome.UploadOk?
      ensures k + 1 < |t| && t[k + 1] == Event(t[k].file, Slept)
    {
      if k >= |a| {
        assert b[k - |a|] == t[k];
      }
    }
    forall k | 0 <= k < |t| && t[k].action == Halt
      ensures k == |t| - 1
    {
      if k >= |a| {
        assert b[k - |a|] == t[k];
      }
    }
  }

  lemma {:induction false} RunFromWellOrdered(files: seq<FileRecord>, i: nat, digest: seq<bv8> -> string)
    ensures WellOrdered(RunFrom(files, i, digest))
    decreases |files| - i
  {
    if i < |files| {
      var fe := FileEvents(i, files[i], digest);
      RunFromUnfold(files, i, digest);
      FileEventsShape(i, files[i], digest);
      if Halts(files[i], digest) {
        assert RunFrom(files, i, digest) == fe + [];
        ConcatWellOrdered(fe, []);
      } else {
        forall k | 0 <= k < |fe| ensures fe[k].action != Halt {
          assert fe[k] in fe;
        }
        RunFromWellOrdered(files, i + 1, digest);
        ConcatWellOrdered(fe, RunFrom(files, i + 1, digest));
      }
    }
  }

  /** In the whole run: an upload is attempted only right after a checksum and a
      "not found" lookup for it; a pause comes only right after a successful upload,
      and always comes after one; a rate-limit halt is the last step. */
  lemma RunTraceWellOrdered(files: seq<FileRecord>, digest: seq<bv8> -> string)
    ensures WellOrdered(RunTrace(files, digest))
  {
    RunFromWellOrdered(files, 0, digest);
  }

  /** Every step in the run belongs to an argument that was reached (no earlier argument
      ended the run) and is one of the steps of that argument. */
  lemma {:induction false} EventOrigin(files: seq<FileRecord>, i: nat, digest: seq<bv8> -> string, e: Event)
    requires e in RunFrom(files, i, digest)
    ensures i <= e.file < |files|
    ensures e in FileEvents(e.file, files[e.file], digest)
    ensures forall j :: i <= j < e.file ==> !Halts(files[j], digest)
    decreases |files| - i
  {
    var fe := FileEvents(i, files[i], digest);
    RunFromUnfold(files, i, digest);
    if e in fe {
      FileEventsTagged(i, files[i], digest);
    } else {
      assert !Halts(files[i], digest);
      assert e in RunFrom(files, i + 1, digest);
      EventOrigin(files, i + 1, digest, e);
    }
  }

  /** Every step of an argument that is reached appears in the run. */
  lemma {:induction false} ReachedFileLogged(files: seq<FileRecord>, i: nat, j: nat, digest: seq<bv8> -> string)
    requires i <= j < |files|
    requires forall m :: i <= m < j ==> !Halts(files[m], digest)
    ensures forall e :: e in FileEvents(j, files[j], digest) ==> e in RunFrom(files, i, digest)
    decreases j - i
  {
    RunFromUnfold(files, i, digest);
    var fe := FileEvents(i, files[i], digest);
    if i < j {
      assert !Halts(files[i], digest);
      var rest := RunFrom(files, i + 1, digest);
      assert RunFrom(files, i, digest) == fe + rest;
      ReachedFileLogged(files, i + 1, j, digest);
      forall e | e in FileEvents(j, files[j], digest) ensures e in RunFrom(files, i, digest) {
        assert e in rest;
      }
    }
  }

  /** A path whose stat fails, a directory, or a file above the ceiling only ever shows
      up as skipped: it is never hashed, looked up or uploaded. */
  lemma IneligibleOnlySkipped(files: seq<FileRecord>, digest: seq<bv8> -> string, i: nat)
    requires i < |files| && !Eligible(files[i].stat)
    ensures forall e :: e in RunTrace(files, digest) && e.file == i ==>
              e.action.Skipped? && e.action.reason != ChecksumError
  {
    forall e | e in RunTrace(files, digest) && e.file == i
      ensures e.action.Skipped? && e.action.reason != ChecksumError
    {
      EventOrigin(files, 0, digest, e);
    }
  }

  /** A readable file of exactly 250 MiB that is reached is hashed: the ceiling is inclusive. */
  lemma CeilingIsInclusive(files: seq<FileRecord>, digest: seq<bv8> -> string, i: nat)
    requires i < |files| && files[i].stat == NonDirectory(MaxUploadSize)
    requires files[i].content.Some?
    requires forall j :: 0 <= j < i ==> !Halts(files[j], digest)
    ensures Event(i, Hashed(digest(files[i].content.value))) in RunTrace(files, digest)
  {
    ReachedFileLogged(files, 0, i, digest);
    assert FileEvents(i, files[i], digest)[0] == Event(i, Hashed(digest(files[i].content.value)));
  }

  /** A file the service already knows is reported with its search URL and never uploaded. */
  lemma FoundIsNotUploaded(files: seq<FileRecord>, digest: seq<bv8> -> string, i: nat)
    requires i < |files| && Eligible(files[i].stat) && files[i].content.Some?
    requires Classify(digest(files[i].content.value), files[i].searchReply).Found?
    ensures forall e :: e in RunTrace(files, digest) && e.file == i ==> !e.action.Uploaded?
    ensures (forall j :: 0 <= j < i ==> !Halts(files[j], digest)) ==>
              Event(i, LookedUp(Found(SearchUrl(digest(files[i].content.value))))) in RunTrace(files, digest)
  {
    forall e | e in RunTrace(files, digest) && e.file == i ensures !e.action.Uploaded? {
      EventOrigin(files, 0, digest, e);
    }
    if forall j :: 0 <= j < i ==> !Halts(files[j], digest) {
      ReachedFileLogged(files, 0, i, digest);
      assert FileEvents(i, files[i], digest)[1]
          == Event(i, LookedUp(Found(SearchUrl(digest(files[i].content.value)))));
    }
  }

  /** A reached file that passes the checks and that the service does not know is
      uploaded, and the run pauses after it exactly when the upload succeeded. */
  lemma NotFoundIsUploaded(files: seq<FileRecord>, digest: seq<bv8> -> string, i: nat)
    requires i < |files| && Eligible(files[i].stat) && files[i].content.Some?
    requires Classify(digest(files[i].content.value), files[i].searchReply).NotFound?
    requires forall j :: 0 <= j < i ==> !Halts(files[j], digest)
    ensures var outcome := UploadResult(digest(files[i].content.value), files[i].postReply);
            && Event(i, Uploaded(outcome)) in RunTrace(files, digest)
            && (Event(i, Slept) in RunTrace(files, digest) <==> outcome.UploadOk?)
  {
    var outcome := UploadResult(digest(files[i].content.value), files[i].postReply);
    ReachedFileLogged(files, 0, i, digest);
    UploadedSteps(i, files[i], digest);
    var fe := FileEvents(i, files[i], digest);
    assert fe[2] == Event(i, Uploaded(outcome));
    if outcome.UploadOk? {
      assert fe[3] == Event(i, Slept);
    } else if Event(i, Slept) in RunTrace(files, digest) {
      EventOrigin(files, 0, digest, Event(i, Slept));
      assert false;
    }
  }

  /** Once a file is rate-limited no later argument is touched. */
  lemma NothingAfterHalt(files: seq<FileRecord>, digest: seq<bv8> -> string, h: nat)
    requires h < |files| && Halts(files[h], digest)
    ensures forall e :: e in RunTrace(files, digest) ==> e.file <= h
  {
    forall e | e in RunTrace(files, digest) ensures e.file <= h {
      EventOrigin(files, 0, digest, e);
    }
  }

  lemma {:induction false} HaltFrom(files: seq<FileRecord>, i: nat, digest: seq<bv8> -> string)
    ensures (exists e :: e in RunFrom(files, i, digest) && e.action == Halt) <==>
            (exists j :: i <= j < |files| && Halts(files[j], digest))
    decreases |files| - i
  {
    if i < |files| {
      var fe := FileEvents(i, files[i], digest);
      RunFromUnfold(files, i, digest);
      FileEventsShape(i, files[i], digest);
      if Halts(files[i], digest) {
        assert Event(i, Halt) in RunFrom(files, i, digest);
      } else {
        HaltFrom(files, i + 1, digest);
        forall e | e in fe ensures e.action != Halt {
          assert e.file == i;
        }
      }
    }
  }

  /** With at least one argument the run ends with status 2 exactly when its trace holds
      a rate-limit halt, and with status 0 otherwise, however many files failed. */
  lemma ExitStatusMatchesTrace(files: seq<FileRecord>, digest: seq<bv8> -> string)
    requires files != []
    ensures ExitStatus(files, digest) == RateLimitExit <==>
            exists e :: e in RunTrace(files, digest) && e.action == Halt
    ensures ExitStatus(files, digest) != RateLimitExit ==> ExitStatus(files, digest) == 0
  {
    HaltFrom(files, 0, digest);
  }
}
