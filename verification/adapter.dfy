/**
 What the file, env, nacos and consul resources of `resource/` have in
 common: the errors they report, the formatter they parse with, `Load`, the
 extension lookup of their constructors, and the one-event handler step that
 deduplicates against the last payload seen.

 Channels become values: a step returns what it would send on `notifyC` or
 `errC` (at most one of them), together with the new "last seen" payload
 that the `atomic.Value` field `data` holds.
 */
module Adapter {
  import opened Wrappers
  import opened Values
  import opened Bytes
  import Format
  import Paths

  /** The errors the adapters return or send. */
  datatype Error =
    | EmptyExtension(subject: string)  // "config: <subject> extension is empty"
    | FormatterNotFound(ext: string)   // "config: not found formatter for <ext>"
    | NoEnvironment(prefix: Bytes)     // "config: no environment variables found with prefix <prefix>"
    | FetchFailed(reason: string)      // a read or remote fetch failed
    | ParseFailed(reason: string)      // the formatter rejected the payload
    | WatcherFailed(reason: string)    // the file watcher reported an error
    | Canceled(reason: string)         // the context was already done

  /** A formatter is its `Parse` method. */
  type Formatter = Bytes -> Result<Fields, Error>

  type Registry = Format.Registry<Formatter>

  /** What one step sends: nothing, one struct on `notifyC`, or one error
      on `errC`. */
  datatype Emit = Silent | Notify(value: Fields) | Fail(error: Error)

  /** The last-seen payload after a step, and what the step sent. */
  datatype Step = Step(lastSeen: Option<Bytes>, emit: Emit)

  /** The last-seen payload after `Load`, and what `Load` returns. */
  datatype Loaded = Loaded(lastSeen: Option<Bytes>, result: Result<Fields, Error>)

  /** `ctx.Err()`: nil while the context is live. */
  datatype Context = Live | Done(err: Error)

  /** The extension and formatter a constructor found. */
  datatype Found = Found(ext: string, formatter: Formatter)

  /** The shared part of `New`: derive the extension of `name` and look its
      formatter up; `subject` names `name` in the empty-extension error. */
  function Lookup(reg: Registry, name: string, subject: string): (r: Result<Found, Error>)
    ensures Paths.Extension(name) == "" ==> r == Failure(EmptyExtension(subject))
    ensures Paths.Extension(name) != "" && Format.ToLower(Paths.Extension(name)) !in reg
            ==> r == Failure(FormatterNotFound(Paths.Extension(name)))
    ensures r.Success? <==> Paths.Extension(name) != "" && Format.ToLower(Paths.Extension(name)) in reg
    ensures r.Success? ==> r.value.ext == Paths.Extension(name)
    ensures r.Success? ==> r.value.formatter == reg[Format.ToLower(Paths.Extension(name))]
  {
    var ext := Paths.Extension(name);
    if ext == "" then Failure(EmptyExtension(subject))
    else
      match Format.GetFormatter(reg, ext)
      case None => Failure(FormatterNotFound(ext))
      case Some(f) => Success(Found(ext, f))
  }

  /** `Load`: a failed fetch is returned as is; a fetched payload is
      recorded as last seen BEFORE it is parsed, so it stays recorded even
      when parsing fails. */
  function Load(lastSeen: Option<Bytes>, fetched: Result<Bytes, Error>, parse: Formatter): (l: Loaded)
    ensures fetched.Failure? ==> l.lastSeen == lastSeen && l.result == Failure(fetched.error)
    ensures fetched.Success? ==> l.lastSeen == Some(fetched.value) && l.result == parse(fetched.value)
  {
    match fetched
    case Failure(e) => Loaded(lastSeen, Failure(e))
    case Success(data) => Loaded(Some(data), parse(data))
  }

  /** The common tail of every handler: a payload byte-identical to the last
      one seen is dropped unparsed; otherwise a parse failure is sent on
      `errC` and the last-seen payload is kept, and a parsed struct is sent
      on `notifyC` and only then recorded as last seen. With nothing
      recorded yet nothing is dropped. */
  function Deliver(lastSeen: Option<Bytes>, data: Bytes, parse: Formatter): (s: Step)
    ensures s.emit.Silent? <==> lastSeen == Some(data)
    ensures s.emit.Notify? <==> lastSeen != Some(data) && parse(data).Success?
    ensures s.emit.Notify? ==> s.emit.value == parse(data).value && s.lastSeen == Some(data)
    ensures s.emit.Fail? ==> s.emit.error == parse(data).error
    ensures !s.emit.Notify? ==> s.lastSeen == lastSeen
  {
    if lastSeen.Some? && lastSeen.value == data then Step(lastSeen, Silent)
    else
      match parse(data)
      case Failure(e) => Step(lastSeen, Fail(e))
      case Success(v) => Step(Some(data), Notify(v))
  }

  /** A handler that fetches first: a failed fetch is sent on `errC` and
      changes nothing; a fetched payload goes through `Deliver`. */
  function Poll(lastSeen: Option<Bytes>, fetched: Result<Bytes, Error>, parse: Formatter): (s: Step)
    ensures fetched.Failure? ==> s == Step(lastSeen, Fail(fetched.error))
    ensures fetched.Success? ==> s == Deliver(lastSeen, fetched.value, parse)
  {
    match fetched
    case Failure(e) => Step(lastSeen, Fail(e))
    case Success(data) => Deliver(lastSeen, data, parse)
  }

  /** `Watch`'s opening check: a context that is already done refuses. */
  function CheckContext(ctx: Context): (r: Option<Error>)
    ensures r.None? <==> ctx.Live?
    ensures ctx.Done? ==> r == Some(ctx.err)
  {
    match ctx
    case Live => None
    case Done(e) => Some(e)
  }

  /** After a successful `Load`, delivering the payload it fetched again
      sends nothing, whether or not `Load` could parse it. */
  lemma LoadSuppressesSamePayload(lastSeen: Option<Bytes>, data: Bytes, parse: Formatter)
    ensures Deliver(Load(lastSeen, Success(data), parse).lastSeen, data, parse).emit == Silent
  {
  }

  /** The last-seen payload and the sends after a run of deliveries. */
  datatype Trace = Trace(lastSeen: Option<Bytes>, emits: seq<Emit>)

  /** Payload `i` was the last one notified. */
  ghost predicate LastNotified(emits: seq<Emit>, i: int) {
    && 0 <= i < |emits|
    && emits[i].Notify?
    && forall j :: i < j < |emits| ==> !emits[j].Notify?
  }

  /** `Deliver` applied to `payloads` in order: the handler's life. The
      last-seen payload is always the last payload notified, or the initial
      one when nothing was notified. */
  function Run(lastSeen: Option<Bytes>, payloads: seq<Bytes>, parse: Formatter): (t: Trace)
    ensures |t.emits| == |payloads|
    ensures forall i :: LastNotified(t.emits, i) ==> t.lastSeen == Some(payloads[i])
    ensures (forall i :: 0 <= i < |t.emits| ==> !t.emits[i].Notify?) ==> t.lastSeen == lastSeen
  {
    if |payloads| == 0 then Trace(lastSeen, [])
    else
      var front := Run(lastSeen, payloads[..|payloads| - 1], parse);
      var s := Deliver(front.lastSeen, payloads[|payloads| - 1], parse);
      var t := Trace(s.lastSeen, front.emits + [s.emit]);
      assert forall i :: 0 <= i < |front.emits| ==> t.emits[i] == front.emits[i];
      assert t.emits[|front.emits|] == s.emit;
      assert forall i :: 0 <= i < |front.emits| ==> payloads[..|payloads| - 1][i] == payloads[i];
      assert forall i :: LastNotified(t.emits, i) && i < |front.emits| ==> LastNotified(front.emits, i);
      assert forall i :: LastNotified(t.emits, i) ==> t.lastSeen == Some(payloads[i]) by {
        forall i | LastNotified(t.emits, i) ensures t.lastSeen == Some(payloads[i]) {
          if s.emit.Notify? {
            assert i == |front.emits|;
          } else {
            assert LastNotified(front.emits, i);
          }
        }
      }
      assert (forall i :: 0 <= i < |t.emits| ==> !t.emits[i].Notify?) ==> t.lastSeen == lastSeen by {
        if forall i :: 0 <= i < |t.emits| ==> !t.emits[i].Notify? {
          assert !t.emits[|front.emits|].Notify?;
        }
      }
      t
  }

  /** A run over a prefix sends what the full run sends first. */
  lemma {:induction false} RunPrefix(lastSeen: Option<Bytes>, payloads: seq<Bytes>, parse: Formatter, n: nat)
    requires n <= |payloads|
    ensures Run(lastSeen, payloads[..n], parse).emits == Run(lastSeen, payloads, parse).emits[..n]
    decreases |payloads|
  {
    if n < |payloads| {
      var front := payloads[..|payloads| - 1];
      assert front[..n] == payloads[..n];
      RunPrefix(lastSeen, front, parse, n);
    } else {
      assert payloads[..n] == payloads;
    }
  }

  /** Duplicate content is never notified twice: two notifications with no
      notification between them carry different payloads, and the first
      notification differs from the payload recorded before the run. */
  lemma NoDuplicateNotification(lastSeen: Option<Bytes>, payloads: seq<Bytes>, parse: Formatter, j: nat)
    requires j < |payloads|
    requires Run(lastSeen, payloads, parse).emits[j].Notify?
    ensures forall i :: 0 <= i < j && LastNotified(Run(lastSeen, payloads, parse).emits[..j], i)
                        ==> payloads[i] != payloads[j]
    ensures (forall i :: 0 <= i < j ==> !Run(lastSeen, payloads, parse).emits[i].Notify?)
            ==> lastSeen != Some(payloads[j])
  {
    var full := Run(lastSeen, payloads, parse).emits;
    var before := Run(lastSeen, payloads[..j], parse);
    RunPrefix(lastSeen, payloads, parse, j);
    RunPrefix(lastSeen, payloads, parse, j + 1);
    var upto := payloads[..j + 1];
    assert upto[..j] == payloads[..j];
    assert Run(lastSeen, upto, parse).emits[j] == Deliver(before.lastSeen, payloads[j], parse).emit;
    forall i | 0 <= i < j && LastNotified(full[..j], i)
      ensures payloads[i] != payloads[j]
    {
      assert before.emits == full[..j];
    }
  }

  /** What every handler step keeps, whatever event it handles: a step that
      does not notify leaves the last-seen payload alone, and one that
      notifies records a payload other than the one it started from. */
  predicate Dedups(lastSeen: Option<Bytes>, s: Step) {
    if s.emit.Notify? then s.lastSeen.Some? && s.lastSeen != lastSeen
    else s.lastSeen == lastSeen
  }

  /** `Deliver` and `Poll` keep `Dedups`. */
  lemma PollDedups(lastSeen: Option<Bytes>, fetched: Result<Bytes, Error>, parse: Formatter)
    ensures Dedups(lastSeen, Poll(lastSeen, fetched, parse))
    ensures fetched.Success? ==> Dedups(lastSeen, Deliver(lastSeen, fetched.value, parse))
  {
  }

  /** A handler's life over arbitrary events: each step starts from the
      last-seen payload the step before it left, and keeps `Dedups`. */
  ghost predicate Chained(start: Option<Bytes>, steps: seq<Step>) {
    forall i {:trigger steps[i]} :: 0 <= i < |steps| ==> Dedups(if i == 0 then start else steps[i - 1].lastSeen, steps[i])
  }

  /** Between two steps with no notification after the first, the last-seen
      payload does not move. */
  lemma {:induction false} QuietStretch(start: Option<Bytes>, steps: seq<Step>, i: nat, k: nat)
    requires Chained(start, steps)
    requires i <= k < |steps|
    requires forall m :: i < m <= k ==> !steps[m].emit.Notify?
    ensures steps[k].lastSeen == steps[i].lastSeen
    decreases k - i
  {
    if i < k {
      QuietStretch(start, steps, i, k - 1);
      assert Dedups(steps[k - 1].lastSeen, steps[k]);
    }
  }

  /** Duplicate content is never notified twice, over any chain of handler
      steps (read failures, filtered events and watcher errors included):
      two notifications with none between them record different payloads,
      and the first notification records a payload other than the start. */
  lemma {:induction false} ChainNeverRepeats(start: Option<Bytes>, steps: seq<Step>, i: nat, j: nat)
    requires Chained(start, steps)
    requires i < j < |steps|
    requires steps[i].emit.Notify? && steps[j].emit.Notify?
    requires forall m :: i < m < j ==> !steps[m].emit.Notify?
    ensures steps[j].lastSeen != steps[i].lastSeen
  {
    QuietStretch(start, steps, i, j - 1);
    assert Dedups(steps[j - 1].lastSeen, steps[j]);
  }

  /** The first notification of a chain records a payload other than the
      one recorded before it. */
  lemma {:induction false} ChainFirstNotification(start: Option<Bytes>, steps: seq<Step>, j: nat)
    requires Chained(start, steps)
    requires j < |steps|
    requires steps[j].emit.Notify?
    requires forall m :: 0 <= m < j ==> !steps[m].emit.Notify?
    ensures steps[j].lastSeen != start
  {
    if j > 0 {
      assert Dedups(start, steps[0]);
      QuietStretch(start, steps, 0, j - 1);
      assert Dedups(steps[j - 1].lastSeen, steps[j]);
    }
  }
}
