/**
 The environment resource of `resource/env/resource.go`: the environment
 entries starting with a prefix, sorted and joined by newlines, parsed by the
 "env" formatter. The environment arrives as an input (`os.Environ()`), its
 entries as the bytes of Go strings.
 */
module Env {
  import opened Wrappers
  import opened Bytes
  import opened Adapter
  import Format

  datatype Resource = Resource(prefix: Bytes, formatter: Formatter)

  /** The formatter an environment resource always uses. */
  const EnvFormat: string := "env"

  /** `New`: looks up the "env" formatter, whatever the prefix, and fails
      when it is not registered. */
  function New(reg: Registry, prefix: Bytes): (r: Result<Resource, Error>)
    ensures r.Success? <==> Format.GetFormatter(reg, EnvFormat).Some?
    ensures r.Failure? ==> r.error == FormatterNotFound(EnvFormat)
    ensures r.Success? ==> r.value.prefix == prefix && Some(r.value.formatter) == Format.GetFormatter(reg, EnvFormat)
  {
    match Format.GetFormatter(reg, EnvFormat)
    case None => Failure(FormatterNotFound(EnvFormat))
    case Some(f) => Success(Resource(prefix, f))
  }

  /** `s` holds exactly the entries of `environ` that start with `prefix`,
      each as often as it occurs there. */
  ghost predicate KeepsMatching(s: seq<Bytes>, environ: seq<Bytes>, prefix: Bytes) {
    forall x :: multiset(s)[x] == if HasPrefix(x, prefix) then multiset(environ)[x] else 0
  }

  /** The filtering loop of `load`. */
  function Matching(environ: seq<Bytes>, prefix: Bytes): (r: seq<Bytes>)
    ensures KeepsMatching(r, environ, prefix)
    ensures |r| == 0 <==> forall i :: 0 <= i < |environ| ==> !HasPrefix(environ[i], prefix)
  {
    if |environ| == 0 then []
    else
      var rest := Matching(environ[1..], prefix);
      assert environ == [environ[0]] + environ[1..];
      assert forall i :: 1 <= i < |environ| ==> environ[i] == environ[1..][i - 1];
      if HasPrefix(environ[0], prefix) then [environ[0]] + rest else rest
  }

  /** `load`: fails when no entry starts with the prefix; otherwise the
      payload is the join, by newlines, of the ascending arrangement of the
      matching entries. */
  function LoadEnv(environ: seq<Bytes>, prefix: Bytes): (r: Result<Bytes, Error>)
    ensures r.Failure? <==> forall i :: 0 <= i < |environ| ==> !HasPrefix(environ[i], prefix)
    ensures r.Failure? ==> r.error == NoEnvironment(prefix)
    ensures r.Success? ==> forall s :: Sorted(s) && KeepsMatching(s, environ, prefix) ==> r.value == Join(s, NewLine)
  {
    var matching := Matching(environ, prefix);
    if |matching| <= 0 then Failure(NoEnvironment(prefix))
    else
      var sorted := Sort(matching);
      assert forall s :: Sorted(s) && KeepsMatching(s, environ, prefix) ==> s == sorted by {
        forall s | Sorted(s) && KeepsMatching(s, environ, prefix) ensures s == sorted {
          assert multiset(s) == multiset(sorted);
          SortedUnique(s, sorted);
        }
      }
      Success(Join(sorted, NewLine))
  }

  /** The payload does not depend on the order of the environment. */
  lemma LoadIgnoresOrder(e1: seq<Bytes>, e2: seq<Bytes>, prefix: Bytes)
    requires multiset(e1) == multiset(e2)
    ensures LoadEnv(e1, prefix) == LoadEnv(e2, prefix)
  {
    var m1, m2 := Matching(e1, prefix), Matching(e2, prefix);
    forall x ensures multiset(m1)[x] == multiset(m2)[x] {
    }
    assert multiset(m1) == multiset(m2);
    assert |m1| == |multiset(m1)| == |multiset(m2)| == |m2|;
    if |m1| > 0 {
      SortedUnique(Sort(m1), Sort(m2));
    }
  }

  /** When no matching entry contains a newline, splitting the payload at
      newlines gives back the matching entries, in ascending order. */
  lemma LoadSplitsBack(environ: seq<Bytes>, prefix: Bytes)
    requires forall i :: 0 <= i < |environ| && HasPrefix(environ[i], prefix) ==> NewLine !in environ[i]
    requires LoadEnv(environ, prefix).Success?
    ensures Split(LoadEnv(environ, prefix).value, NewLine) == Sort(Matching(environ, prefix))
  {
    var sorted := Sort(Matching(environ, prefix));
    forall i | 0 <= i < |sorted| ensures NewLine !in sorted[i] {
      assert sorted[i] in multiset(sorted);
      assert multiset(Matching(environ, prefix))[sorted[i]] > 0;
      var j :| 0 <= j < |environ| && environ[j] == sorted[i];
    }
    SplitJoin(sorted, NewLine);
  }

  /** `Load`: the payload `load` built is recorded before parsing. */
  function Load(res: Resource, lastSeen: Option<Bytes>, environ: seq<Bytes>): (l: Loaded)
    ensures LoadEnv(environ, res.prefix).Failure? ==> l == Loaded(lastSeen, Failure(NoEnvironment(res.prefix)))
    ensures LoadEnv(environ, res.prefix).Success? ==> l.lastSeen == Some(LoadEnv(environ, res.prefix).value)
    ensures LoadEnv(environ, res.prefix).Success? ==> l.result == res.formatter(LoadEnv(environ, res.prefix).value)
  {
    Adapter.Load(lastSeen, LoadEnv(environ, res.prefix), res.formatter)
  }

  /** One poll tick: a failing `load` sends its error and changes nothing;
      a payload equal to the last seen sends nothing; otherwise a parse
      failure is sent and a parsed struct is notified, then recorded. */
  function OnTick(res: Resource, lastSeen: Option<Bytes>, environ: seq<Bytes>): (s: Step)
    ensures LoadEnv(environ, res.prefix).Failure? ==> s == Step(lastSeen, Fail(NoEnvironment(res.prefix)))
    ensures LoadEnv(environ, res.prefix).Success? ==> s == Deliver(lastSeen, LoadEnv(environ, res.prefix).value, res.formatter)
  {
    Poll(lastSeen, LoadEnv(environ, res.prefix), res.formatter)
  }

  /** Reordering the environment between ticks never causes a notification. */
  lemma TickIgnoresOrder(res: Resource, environ: seq<Bytes>, shuffled: seq<Bytes>)
    requires multiset(environ) == multiset(shuffled)
    requires LoadEnv(environ, res.prefix).Success?
    ensures OnTick(res, Some(LoadEnv(environ, res.prefix).value), shuffled).emit == Silent
  {
    LoadIgnoresOrder(environ, shuffled, res.prefix);
  }

  /** Every poll tick keeps the deduplication invariant, so a chain of
      ticks never notifies the same environment twice in a row. */
  lemma OnTickDedups(res: Resource, lastSeen: Option<Bytes>, environ: seq<Bytes>)
    ensures Dedups(lastSeen, OnTick(res, lastSeen, environ))
  {
  }

  /** `Watch`'s setup: only a done context refuses, with its own error. */
  function StartWatch(ctx: Context): (r: Option<Error>)
    ensures r.Some? <==> ctx.Done?
    ensures ctx.Done? ==> r == Some(ctx.err)
  {
    CheckContext(ctx)
  }
}
