/**
 The formatter registry of `format/format.go`: a map from file extension to
 formatter, normalised to lower case when registering and when looking up.
 The process-wide map and its read-write lock become an explicit registry
 value threaded through the calls.
 */
module Format {
  import opened Wrappers

  /** `strings.ToLower` on one character, for the ASCII range. */
  function LowerChar(c: char): char {
    if 'A' <= c <= 'Z' then (c as int - 'A' as int + 'a' as int) as char else c
  }

  /** `strings.ToLower`: every upper-case letter becomes lower case,
      everything else is kept, and the length does not change. */
  function ToLower(s: string): (r: string)
    ensures |r| == |s|
    ensures forall i :: 0 <= i < |s| ==> r[i] == LowerChar(s[i])
  {
    if |s| == 0 then [] else [LowerChar(s[0])] + ToLower(s[1..])
  }

  /** A string `ToLower` leaves as it is. */
  predicate IsLower(s: string) {
    ToLower(s) == s
  }

  /** Lower-casing a lower-cased string changes nothing. */
  lemma ToLowerIsLower(s: string)
    ensures IsLower(ToLower(s))
  {
    var t := ToLower(s);
    assert forall i :: 0 <= i < |t| ==> ToLower(t)[i] == t[i];
  }

  /** The `formatters` map. */
  type Registry<F> = map<string, F>

  /** Every key of the registry is in lower case. */
  predicate KeysLower<F>(reg: Registry<F>) {
    forall k :: k in reg ==> IsLower(k)
  }

  /** `RegisterFormatter`: stores `f` under the lower-cased extension,
      replacing any earlier formatter there and touching no other entry. */
  function Register<F>(reg: Registry<F>, ext: string, f: F): (r: Registry<F>)
    ensures r.Keys == reg.Keys + {ToLower(ext)}
    ensures r[ToLower(ext)] == f
    ensures forall k :: k in reg && k != ToLower(ext) ==> r[k] == reg[k]
    ensures KeysLower(reg) ==> KeysLower(r)
  {
    ToLowerIsLower(ext);
    reg[ToLower(ext) := f]
  }

  /** `GetFormatter`: the formatter stored under the lower-cased
      extension, or `None` for the `ok == false` answer. */
  function GetFormatter<F>(reg: Registry<F>, ext: string): (r: Option<F>)
    ensures r.Some? <==> ToLower(ext) in reg
    ensures r.Some? ==> r.value == reg[ToLower(ext)]
  {
    if ToLower(ext) in reg then Some(reg[ToLower(ext)]) else None
  }

  /** Lookup ignores case: spellings with one lower-case form find the same. */
  lemma LookupIgnoresCase<F>(reg: Registry<F>, e1: string, e2: string)
    requires ToLower(e1) == ToLower(e2)
    ensures GetFormatter(reg, e1) == GetFormatter(reg, e2)
  {
  }

  /** After registering under `ext`, every spelling of `ext` finds `f`. */
  lemma RegisterThenLookup<F>(reg: Registry<F>, ext: string, f: F, query: string)
    requires ToLower(query) == ToLower(ext)
    ensures GetFormatter(Register(reg, ext, f), query) == Some(f)
  {
  }

  /** Registration leaves the lookup of every other extension alone. */
  lemma RegisterFrame<F>(reg: Registry<F>, ext: string, f: F, query: string)
    requires ToLower(query) != ToLower(ext)
    ensures GetFormatter(Register(reg, ext, f), query) == GetFormatter(reg, query)
  {
  }

  /** Registering one extension twice keeps only the second formatter. */
  lemma RegisterLastWins<F>(reg: Registry<F>, e1: string, f: F, e2: string, g: F)
    requires ToLower(e1) == ToLower(e2)
    ensures Register(Register(reg, e1, f), e2, g) == Register(reg, e2, g)
  {
  }

  /** The registry after the registrations `regs`, in order, starting from
      the empty map the package initialises. */
  function Registered<F>(regs: seq<(string, F)>): (r: Registry<F>)
    ensures KeysLower(r)
  {
    if |regs| == 0 then map[]
    else Register(Registered(regs[..|regs| - 1]), regs[|regs| - 1].0, regs[|regs| - 1].1)
  }

  /** After a sequence of registrations, lookup finds a formatter exactly
      when some registration used an extension with the same lower-case
      form. */
  lemma {:induction false} LookupFindsAny<F>(regs: seq<(string, F)>, query: string)
    ensures GetFormatter(Registered(regs), query).Some?
        <==> exists i :: 0 <= i < |regs| && ToLower(regs[i].0) == ToLower(query)
  {
    if |regs| > 0 {
      var front, last := regs[..|regs| - 1], regs[|regs| - 1];
      LookupFindsAny(front, query);
      assert forall i :: 0 <= i < |front| ==> front[i] == regs[i];
      if ToLower(last.0) == ToLower(query) {
        assert ToLower(regs[|regs| - 1].0) == ToLower(query);
      }
    }
  }

  /** The formatter found is the one of the last registration whose
      extension has the lower-case form of the query. */
  lemma {:induction false} LookupFindsLast<F>(regs: seq<(string, F)>, query: string, i: int)
    requires 0 <= i < |regs| && ToLower(regs[i].0) == ToLower(query)
    requires forall j :: i < j < |regs| ==> ToLower(regs[j].0) != ToLower(query)
    ensures GetFormatter(Registered(regs), query) == Some(regs[i].1)
  {
    var front, last := regs[..|regs| - 1], regs[|regs| - 1];
    if i == |regs| - 1 {
      RegisterThenLookup(Registered(front), last.0, last.1, query);
    } else {
      assert front[i] == regs[i];
      assert forall j :: i < j < |front| ==> front[j] == regs[j];
      LookupFindsLast(front, query, i);
      RegisterFrame(Registered(front), last.0, last.1, query);
    }
  }

  /** Lookup after a sequence of registrations finds a formatter exactly when
      some registration used an extension with the same lower-case form, and
      then it finds the formatter of the last such registration; otherwise
      it reports not-found. */
  lemma LookupAfterRegistrations<F>(regs: seq<(string, F)>, query: string)
    ensures GetFormatter(Registered(regs), query).Some?
        <==> exists i :: 0 <= i < |regs| && ToLower(regs[i].0) == ToLower(query)
    ensures forall i :: 0 <= i < |regs| && ToLower(regs[i].0) == ToLower(query)
                        && (forall j :: i < j < |regs| ==> ToLower(regs[j].0) != ToLower(query))
                        ==> GetFormatter(Registered(regs), query) == Some(regs[i].1)
  {
    LookupFindsAny(regs, query);
    forall i | 0 <= i < |regs| && ToLower(regs[i].0) == ToLower(query)
               && (forall j :: i < j < |regs| ==> ToLower(regs[j].0) != ToLower(query))
      ensures GetFormatter(Registered(regs), query) == Some(regs[i].1)
    {
      LookupFindsLast(regs, query, i);
    }
  }
}
