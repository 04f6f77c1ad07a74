/**
 The Consul resource of `resource/consul/resource.go`: one key of the Consul
 KV store whose extension picks the formatter. The Consul client and watch
 plan are outside the model; what they deliver arrives as input.
 */
module Consul {
  import opened Wrappers
  import opened Bytes
  import opened Adapter
  import Format
  import Paths

  datatype Resource = Resource(key: string, ext: string, formatter: Formatter)

  /** `New`: fails on a key without an extension, fails when no formatter
      is registered for the extension in any letter case, and otherwise
      records key, extension and formatter. */
  function New(reg: Registry, key: string): (r: Result<Resource, Error>)
    ensures Paths.Extension(key) == "" ==> r == Failure(EmptyExtension("key"))
    ensures Paths.Extension(key) != "" && Format.GetFormatter(reg, Paths.Extension(key)).None?
            ==> r == Failure(FormatterNotFound(Paths.Extension(key)))
    ensures r.Success? <==> Paths.Extension(key) != "" && Format.GetFormatter(reg, Paths.Extension(key)).Some?
    ensures r.Success? ==> r.value.key == key && r.value.ext == Paths.Extension(key)
    ensures r.Success? ==> Some(r.value.formatter) == Format.GetFormatter(reg, Paths.Extension(key))
  {
    match Lookup(reg, key, "key")
    case Failure(e) => Failure(e)
    case Success(found) => Success(Resource(key, found.ext, found.formatter))
  }

  /** `Load`: the fetched value is recorded as last seen before parsing. */
  function Load(res: Resource, lastSeen: Option<Bytes>, fetched: Result<Bytes, Error>): (l: Loaded)
    ensures fetched.Failure? ==> l == Loaded(lastSeen, Failure(fetched.error))
    ensures fetched.Success? ==> l.lastSeen == Some(fetched.value) && l.result == res.formatter(fetched.value)
  {
    Adapter.Load(lastSeen, fetched, res.formatter)
  }

  /** What the watch plan hands the handler: nothing, a KV pair, or a
      payload of some other type. */
  datatype Payload = NoPayload | KVPair(key: string, value: Bytes) | OtherPayload

  /** The `plan.Handler` body: no payload, or one that is not a KV pair, is
      ignored; a pair's value byte-identical to the last seen is dropped;
      otherwise a parse failure is sent and the last seen is kept, and a
      parsed struct is notified and then recorded. */
  function Handle(res: Resource, lastSeen: Option<Bytes>, raw: Payload): (s: Step)
    ensures !raw.KVPair? ==> s == Step(lastSeen, Silent)
    ensures raw.KVPair? && lastSeen == Some(raw.value) ==> s == Step(lastSeen, Silent)
    ensures raw.KVPair? && lastSeen != Some(raw.value) && res.formatter(raw.value).Failure?
            ==> s == Step(lastSeen, Fail(res.formatter(raw.value).error))
    ensures raw.KVPair? && lastSeen != Some(raw.value) && res.formatter(raw.value).Success?
            ==> s == Step(Some(raw.value), Notify(res.formatter(raw.value).value))
  {
    match raw
    case NoPayload => Step(lastSeen, Silent)
    case OtherPayload => Step(lastSeen, Silent)
    case KVPair(_, value) => Deliver(lastSeen, value, res.formatter)
  }

  /** Every handler call keeps the deduplication invariant, whatever the
      payload, so a chain of them never notifies the same value twice in a
      row. */
  lemma HandleDedups(res: Resource, lastSeen: Option<Bytes>, raw: Payload)
    ensures Dedups(lastSeen, Handle(res, lastSeen, raw))
  {
  }

  /** Once a pair's value has been notified, the same value again, under
      any key, is dropped. */
  lemma HandleIgnoresRepeat(res: Resource, lastSeen: Option<Bytes>, raw: Payload, again: string)
    requires Handle(res, lastSeen, raw).emit.Notify?
    ensures raw.KVPair?
    ensures Handle(res, Handle(res, lastSeen, raw).lastSeen, KVPair(again, raw.value)) == Step(Some(raw.value), Silent)
  {
  }
}
