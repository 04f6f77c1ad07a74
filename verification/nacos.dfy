/**
 The Nacos resource of `resource/nacos/resource.go`: one configuration item,
 named by group and data id, whose data-id extension picks the formatter.
 The Nacos client is outside the model; what it returns arrives as input.
 */
module Nacos {
  import opened Wrappers
  import opened Bytes
  import opened Adapter
  import Format
  import Paths

  datatype Resource = Resource(group: string, dataId: string, ext: string, formatter: Formatter)

  /** `New`: fails on a data id without an extension, fails when no
      formatter is registered for the extension in any letter case, and
      otherwise records group, data id, extension and formatter. */
  function New(reg: Registry, group: string, dataId: string): (r: Result<Resource, Error>)
    ensures Paths.Extension(dataId) == "" ==> r == Failure(EmptyExtension("dataId"))
    ensures Paths.Extension(dataId) != "" && Format.GetFormatter(reg, Paths.Extension(dataId)).None?
            ==> r == Failure(FormatterNotFound(Paths.Extension(dataId)))
    ensures r.Success? <==> Paths.Extension(dataId) != "" && Format.GetFormatter(reg, Paths.Extension(dataId)).Some?
    ensures r.Success? ==> r.value.group == group && r.value.dataId == dataId && r.value.ext == Paths.Extension(dataId)
    ensures r.Success? ==> Some(r.value.formatter) == Format.GetFormatter(reg, Paths.Extension(dataId))
  {
    match Lookup(reg, dataId, "dataId")
    case Failure(e) => Failure(e)
    case Success(found) => Success(Resource(group, dataId, found.ext, found.formatter))
  }

  /** `Load`: the fetched content is recorded as last seen before parsing. */
  function Load(res: Resource, lastSeen: Option<Bytes>, fetched: Result<Bytes, Error>): (l: Loaded)
    ensures fetched.Failure? ==> l == Loaded(lastSeen, Failure(fetched.error))
    ensures fetched.Success? ==> l.lastSeen == Some(fetched.value) && l.result == res.formatter(fetched.value)
  {
    Adapter.Load(lastSeen, fetched, res.formatter)
  }

  /** The outcome of `Watch`'s setup: whether a change listener was asked
      for, and the error returned, if any. */
  datatype Started = Started(listenRequested: bool, error: Option<Error>)

  /** `Watch`'s setup: a done context returns its error before any listener
      is asked for; otherwise the listener is asked for and its failure, if
      any, is returned. */
  function Watch(ctx: Context, listenError: Option<Error>): (w: Started)
    ensures ctx.Done? ==> w == Started(false, Some(ctx.err))
    ensures ctx.Live? ==> w == Started(true, listenError)
  {
    match CheckContext(ctx)
    case Some(e) => Started(false, Some(e))
    case None => Started(true, listenError)
  }

  /** The `OnChange` callback: content byte-identical to the last seen does
      nothing; otherwise a parse failure is sent and the last seen is kept,
      and a parsed struct is notified and then recorded. */
  function OnChange(res: Resource, lastSeen: Option<Bytes>, content: Bytes): (s: Step)
    ensures lastSeen == Some(content) ==> s == Step(lastSeen, Silent)
    ensures lastSeen != Some(content) && res.formatter(content).Failure?
            ==> s == Step(lastSeen, Fail(res.formatter(content).error))
    ensures lastSeen != Some(content) && res.formatter(content).Success?
            ==> s == Step(Some(content), Notify(res.formatter(content).value))
  {
    Deliver(lastSeen, content, res.formatter)
  }

  /** Every callback keeps the deduplication invariant, so a chain of them
      never notifies the same content twice in a row. */
  lemma OnChangeDedups(res: Resource, lastSeen: Option<Bytes>, content: Bytes)
    ensures Dedups(lastSeen, OnChange(res, lastSeen, content))
  {
  }

  /** Once content has been notified, the same content again does nothing. */
  lemma OnChangeIgnoresRepeat(res: Resource, lastSeen: Option<Bytes>, content: Bytes)
    requires OnChange(res, lastSeen, content).emit.Notify?
    ensures OnChange(res, OnChange(res, lastSeen, content).lastSeen, content) == Step(Some(content), Silent)
  {
  }
}
