/** The digest-stamped library cache of the native build driver (native/cuda/build.py, `build`).
    One variant's build directory holds a single library that is overwritten by every compile and
    one stamp file per digest that is never removed. */
module BuildCache {
  import opened Planes

  /** Digests are taken to be injective, so a digest stands for the inputs it was computed from. */
  type Digest = int

  /** One call of `build`: the digest of the inputs it finds, the force flag, and whether the
      compiler would succeed on them. */
  datatype Call = Call(digest: Digest, force: bool, compiles: bool)

  /** The directory: which inputs the library was compiled from, and the stamps present. */
  datatype Dir = Dir(lib: Option<Digest>, stamps: set<Digest>)

  const EMPTY: Dir := Dir(None, {})

  predicate Hit(d: Dir, c: Call) {
    d.lib.Some? && c.digest in d.stamps && !c.force
  }

  function After(d: Dir, c: Call): Dir {
    if Hit(d, c) || !c.compiles then d else Dir(Some(c.digest), d.stamps + {c.digest})
  }

  /** The inputs behind the library the call returns; none when the compiler fails. */
  function Returned(d: Dir, c: Call): Option<Digest> {
    if Hit(d, c) then d.lib else if c.compiles then Some(c.digest) else None
  }

  class BuildDirectory {
    var lib: Option<Digest>
    var stamps: set<Digest>

    constructor ()
      ensures State() == EMPTY
    {
      lib, stamps := None, {};
    }

    function State(): Dir
      reads this
    {
      Dir(lib, stamps)
    }

    /** Return the library when it and the stamp of the current digest are there; compile,
        overwrite and stamp otherwise. A failing compile raises before the stamp is written. */
    method Build(c: Call) returns (r: Option<Digest>)
      modifies this
      ensures r == Returned(old(State()), c)
      ensures State() == After(old(State()), c)
    {
      if lib.Some? && c.digest in stamps && !c.force {
        return lib;
      }
      if !c.compiles {
        return None;
      }
      lib := Some(c.digest);
      stamps := stamps + {c.digest};
      r := lib;
    }
  }

  // ---------------------------------------------------------------- runs

  function Run(calls: seq<Call>): Dir {
    if calls == [] then EMPTY else After(Run(Init(calls)), Last(calls))
  }

  function Init(calls: seq<Call>): seq<Call>
    requires calls != []
  {
    calls[..|calls| - 1]
  }

  function Last(calls: seq<Call>): Call
    requires calls != []
  {
    calls[|calls| - 1]
  }

  /** Every library a run returned was compiled from the inputs of the call that returned it. */
  predicate AlwaysCurrent(calls: seq<Call>) {
    calls == [] ||
    (AlwaysCurrent(Init(calls)) &&
     var r := Returned(Run(Init(calls)), Last(calls));
     r.None? || r.value == Last(calls).digest)
  }

  /** Digests of the calls whose compiler would succeed. */
  function Compiling(calls: seq<Call>): set<Digest> {
    if calls == [] then {}
    else Compiling(Init(calls)) + (if Last(calls).compiles then {Last(calls).digest} else {})
  }

  function LastCompiling(calls: seq<Call>): Option<Digest> {
    if calls == [] then None
    else if Last(calls).compiles then Some(Last(calls).digest)
    else LastCompiling(Init(calls))
  }

  /** No unforced call asks for a digest built earlier after a different one was built. */
  predicate NoDigestRecurs(calls: seq<Call>) {
    calls == [] ||
    (NoDigestRecurs(Init(calls)) &&
     (Last(calls).force || Last(calls).digest !in Compiling(Init(calls)) || LastCompiling(Init(calls)) == Some(Last(calls).digest)))
  }

  /** Call k of the run returns nothing or the library of its own inputs. */
  predicate CurrentAt(calls: seq<Call>, k: nat)
    requires k < |calls|
  {
    var r := Returned(Run(calls[..k]), calls[k]);
    r.None? || r.value == calls[k].digest
  }

  lemma {:induction false} CurrentAtEveryCall(calls: seq<Call>)
    ensures AlwaysCurrent(calls) <==> forall k | 0 <= k < |calls| :: CurrentAt(calls, k)
  {
    if calls != [] {
      var init, last := Init(calls), |calls| - 1;
      CurrentAtEveryCall(init);
      forall k | 0 <= k < last ensures CurrentAt(init, k) == CurrentAt(calls, k) {
        assert init[..k] == calls[..k] && init[k] == calls[k];
      }
      assert CurrentAt(calls, last) == (var r := Returned(Run(init), Last(calls)); r.None? || r.value == Last(calls).digest);
    }
  }

  /** A fresh directory driven through the calls, with what each of them returned: every return is
      current exactly when no digest recurs. */
  method BuildAll(calls: seq<Call>) returns (directory: BuildDirectory, returned: seq<Option<Digest>>)
    ensures fresh(directory) && directory.State() == Run(calls)
    ensures |returned| == |calls| && forall k | 0 <= k < |calls| :: returned[k] == Returned(Run(calls[..k]), calls[k])
    ensures (forall k | 0 <= k < |calls| :: returned[k].None? || returned[k].value == calls[k].digest) <==> NoDigestRecurs(calls)
  {
    directory := new BuildDirectory();
    returned := [];
    for n := 0 to |calls|
      invariant fresh(directory) && directory.State() == Run(calls[..n])
      invariant |returned| == n && forall k | 0 <= k < n :: returned[k] == Returned(Run(calls[..k]), calls[k])
    {
      assert Init(calls[..n + 1]) == calls[..n];
      var r := directory.Build(calls[n]);
      returned := returned + [r];
    }
    assert calls[..|calls|] == calls;
    ReturnsCurrent(calls, returned);
  }

  lemma ReturnsCurrent(calls: seq<Call>, returned: seq<Option<Digest>>)
    requires |returned| == |calls| && forall k | 0 <= k < |calls| :: returned[k] == Returned(Run(calls[..k]), calls[k])
    ensures (forall k | 0 <= k < |calls| :: returned[k].None? || returned[k].value == calls[k].digest) <==> NoDigestRecurs(calls)
  {
    forall k | 0 <= k < |calls| ensures CurrentAt(calls, k) <==> returned[k].None? || returned[k].value == calls[k].digest {
    }
    CurrentAtEveryCall(calls);
    CurrentIffNoDigestRecurs(calls);
  }

  /** Stamps accumulate: the directory holds one for every digest that could be compiled so far. */
  lemma {:induction false} StampsAccumulate(calls: seq<Call>)
    ensures Run(calls).stamps == Compiling(calls)
    ensures Run(calls).lib.Some? <==> Compiling(calls) != {}
  {
    if calls != [] {
      StampsAccumulate(Init(calls));
    }
  }

  /** While every return was current, the library is the last one asked for that compiles. */
  lemma {:induction false} CurrentLibrary(calls: seq<Call>)
    requires AlwaysCurrent(calls)
    ensures Run(calls).lib == LastCompiling(calls)
  {
    if calls != [] {
      CurrentLibrary(Init(calls));
    }
  }

  /** The cache is as good as recompiling exactly on the runs in which no digest recurs. */
  lemma {:induction false} CurrentIffNoDigestRecurs(calls: seq<Call>)
    ensures AlwaysCurrent(calls) <==> NoDigestRecurs(calls)
  {
    if calls != [] {
      CurrentIffNoDigestRecurs(Init(calls));
      StampsAccumulate(Init(calls));
      if AlwaysCurrent(Init(calls)) {
        CurrentLibrary(Init(calls));
      }
    }
  }

  /** Building A, then B, then A again returns the library of B. */
  lemma RecurringDigestIsStale(a: Digest, b: Digest)
    requires a != b
    ensures var calls := [Call(a, false, true), Call(b, false, true), Call(a, false, true)];
            Returned(Run(Init(calls)), Last(calls)) == Some(b) && !AlwaysCurrent(calls)
  {
    var x, y := Call(a, false, true), Call(b, false, true);
    assert Init([x, y, x]) == [x, y] && Init([x, y]) == [x] && Init([x]) == [];
    assert Run([x]) == Dir(Some(a), {a});
    assert Run([x, y]) == Dir(Some(b), {a} + {b});
  }
}
