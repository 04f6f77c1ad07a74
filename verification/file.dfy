/**
 The file resource of `resource/file/resource.go`: a watched file whose
 extension picks the formatter. Reading the file and the file-system watcher
 are outside the model; their results arrive as inputs.
 */
module File {
  import opened Wrappers
  import opened Bytes
  import opened Adapter
  import Format
  import Paths

  datatype Resource = Resource(filename: string, ext: string, formatter: Formatter)

  /** `New`: fails on a file name whose last element has no extension (no
      dot, or a trailing dot), fails when no formatter is registered for
      the extension in any letter case, and otherwise records the name, the
      extension without its dot, and the formatter found. */
  function New(reg: Registry, filename: string): (r: Result<Resource, Error>)
    ensures Paths.Extension(filename) == "" ==> r == Failure(EmptyExtension("file"))
    ensures Paths.Extension(filename) != "" && Format.GetFormatter(reg, Paths.Extension(filename)).None?
            ==> r == Failure(FormatterNotFound(Paths.Extension(filename)))
    ensures r.Success? <==> Paths.Extension(filename) != "" && Format.GetFormatter(reg, Paths.Extension(filename)).Some?
    ensures r.Success? ==> r.value.filename == filename && r.value.ext == Paths.Extension(filename)
    ensures r.Success? ==> Some(r.value.formatter) == Format.GetFormatter(reg, Paths.Extension(filename))
  {
    match Lookup(reg, filename, "file")
    case Failure(e) => Failure(e)
    case Success(found) => Success(Resource(filename, found.ext, found.formatter))
  }

  /** `Load`: the bytes read are recorded as last seen before parsing. */
  function Load(res: Resource, lastSeen: Option<Bytes>, read: Result<Bytes, Error>): (l: Loaded)
    ensures read.Failure? ==> l == Loaded(lastSeen, Failure(read.error))
    ensures read.Success? ==> l.lastSeen == Some(read.value) && l.result == res.formatter(read.value)
  {
    Adapter.Load(lastSeen, read, res.formatter)
  }

  /** The fsnotify operations an event can carry. */
  datatype Op = Create | Write | Remove | Rename | Chmod

  /** What the watcher delivers: a change to some path, or an error. */
  datatype Event = Changed(name: string, ops: set<Op>) | WatcherError(reason: string)

  /** The filter of the watch loop as written: the cleaned event path
      must equal the file name exactly as it was given to `New`, and the
      change must write or create. `filepath.Clean` is passed in as
      `clean`. */
  predicate ConcernsAsWritten(res: Resource, clean: string -> string, name: string, ops: set<Op>) {
    clean(name) == res.filename && (Write in ops || Create in ops)
  }

  /** `filepath.Clean` returns a path in clean form, which it leaves as is. */
  ghost predicate CleanIsIdempotent(clean: string -> string) {
    forall x :: clean(clean(x)) == clean(x)
  }

  /** As written, a file name that is not in clean form (such as
      "./app.yaml", which `filepath.Clean` turns into "app.yaml") never
      matches a cleaned event path. Not even an event naming the file
      exactly is handled, so such a resource never reacts to changes. */
  lemma UncleanNameIsNeverConcerned(res: Resource, clean: string -> string, name: string, ops: set<Op>)
    requires CleanIsIdempotent(clean)
    requires clean(res.filename) != res.filename
    ensures !ConcernsAsWritten(res, clean, name, ops)
  {
  }

  /** The filter as evidently intended: both paths are compared in clean
      form. For a file name already in clean form it is the filter as
      written. */
  predicate Concerns(res: Resource, clean: string -> string, name: string, ops: set<Op>) {
    clean(name) == clean(res.filename) && (Write in ops || Create in ops)
  }

  /** With the corrected filter, a write or create of any spelling of the
      watched file is handled, and nothing else is. For a file name in clean
      form the corrected filter agrees with the one as written. */
  lemma WatchedFileIsConcerned(res: Resource, clean: string -> string, name: string, ops: set<Op>)
    requires Write in ops || Create in ops
    ensures clean(name) == clean(res.filename) <==> Concerns(res, clean, name, ops)
    ensures Concerns(res, clean, res.filename, ops)
    ensures clean(res.filename) == res.filename
            ==> (Concerns(res, clean, name, ops) <==> ConcernsAsWritten(res, clean, name, ops))
  {
  }

  /** One turn of the watch loop as written. A change that does not
      concern the file reads nothing, sends nothing and changes nothing,
      whatever reading would have returned; a relevant change reads the
      file and goes through the shared poll step; a watcher error is
      forwarded. */
  function OnEvent(res: Resource, clean: string -> string, lastSeen: Option<Bytes>,
                   ev: Event, read: Result<Bytes, Error>): (s: Step)
    ensures ev.Changed? && !ConcernsAsWritten(res, clean, ev.name, ev.ops) ==> s == Step(lastSeen, Silent)
    ensures ev.Changed? && ConcernsAsWritten(res, clean, ev.name, ev.ops) ==> s == Poll(lastSeen, read, res.formatter)
    ensures ev.WatcherError? ==> s == Step(lastSeen, Fail(WatcherFailed(ev.reason)))
  {
    match ev
    case WatcherError(reason) => Step(lastSeen, Fail(WatcherFailed(reason)))
    case Changed(name, ops) =>
      if clean(name) != res.filename then Step(lastSeen, Silent)
      else if Write !in ops && Create !in ops then Step(lastSeen, Silent)
      else Poll(lastSeen, read, res.formatter)
  }

  /** The watch loop turn as evidently intended: the same step, with the
      event path and the file name compared in clean form. */
  function OnEventIntended(res: Resource, clean: string -> string, lastSeen: Option<Bytes>,
                           ev: Event, read: Result<Bytes, Error>): (s: Step)
    ensures ev.Changed? && !Concerns(res, clean, ev.name, ev.ops) ==> s == Step(lastSeen, Silent)
    ensures ev.Changed? && Concerns(res, clean, ev.name, ev.ops) ==> s == Poll(lastSeen, read, res.formatter)
    ensures ev.WatcherError? ==> s == Step(lastSeen, Fail(WatcherFailed(ev.reason)))
  {
    match ev
    case WatcherError(reason) => Step(lastSeen, Fail(WatcherFailed(reason)))
    case Changed(name, ops) =>
      if clean(name) != clean(res.filename) then Step(lastSeen, Silent)
      else if Write !in ops && Create !in ops then Step(lastSeen, Silent)
      else Poll(lastSeen, read, res.formatter)
  }

  /** As written, a resource whose file name is not in clean form never
      reacts to a change, whatever was read; as intended, a write to the
      file under its own name is read and delivered. For a file name in
      clean form the two steps are the same. */
  lemma UncleanNameStepIsSilent(res: Resource, clean: string -> string, lastSeen: Option<Bytes>,
                                ev: Event, read: Result<Bytes, Error>)
    requires CleanIsIdempotent(clean)
    ensures clean(res.filename) != res.filename && ev.Changed?
            ==> OnEvent(res, clean, lastSeen, ev, read) == Step(lastSeen, Silent)
    ensures OnEventIntended(res, clean, lastSeen, Changed(res.filename, {Write}), read)
            == Poll(lastSeen, read, res.formatter)
    ensures clean(res.filename) == res.filename
            ==> OnEvent(res, clean, lastSeen, ev, read) == OnEventIntended(res, clean, lastSeen, ev, read)
  {
    if clean(res.filename) != res.filename && ev.Changed? {
      UncleanNameIsNeverConcerned(res, clean, ev.name, ev.ops);
    }
  }

  /** A relevant change whose read fails sends that error and keeps the
      last-seen payload; one whose bytes equal the last seen sends nothing;
      with nothing recorded the bytes are always parsed. */
  lemma OnEventOutcomes(res: Resource, clean: string -> string, lastSeen: Option<Bytes>, name: string, ops: set<Op>, read: Result<Bytes, Error>)
    requires ConcernsAsWritten(res, clean, name, ops)
    ensures read.Failure? ==> OnEvent(res, clean, lastSeen, Changed(name, ops), read) == Step(lastSeen, Fail(read.error))
    ensures read.Success? && lastSeen == Some(read.value) ==> OnEvent(res, clean, lastSeen, Changed(name, ops), read) == Step(lastSeen, Silent)
    ensures read.Success? && lastSeen.None? ==> !OnEvent(res, clean, lastSeen, Changed(name, ops), read).emit.Silent?
  {
  }

  /** Every turn of the watch loop, as written or as intended, keeps the
      deduplication invariant, so a chain of them never notifies the same
      file content twice in a row. */
  lemma OnEventDedups(res: Resource, clean: string -> string, lastSeen: Option<Bytes>,
                      ev: Event, read: Result<Bytes, Error>)
    ensures Dedups(lastSeen, OnEvent(res, clean, lastSeen, ev, read))
    ensures Dedups(lastSeen, OnEventIntended(res, clean, lastSeen, ev, read))
  {
  }

  /** `Watch`'s setup: a done context refuses first; then a failure to
      create the watcher or to watch the directory is returned. */
  function StartWatch(ctx: Context, setup: Option<Error>): (r: Option<Error>)
    ensures ctx.Done? ==> r == Some(ctx.err)
    ensures ctx.Live? ==> r == setup
  {
    if CheckContext(ctx).Some? then CheckContext(ctx) else setup
  }
}
