/** Registering an array of algorithms with the kernel, all or none. */
module Registry {
  type Alg = nat

  datatype Call = Register(alg: Alg) | Unregister(alg: Alg)

  const EXISTS := -17
  const NO_ENTRY := -2

  /** The kernel's registry. Call number k is refused with error `refuses(k)`, unless that is 0. */
  class Kernel {
    const refuses: nat -> int
    var registry: set<Alg>
    var calls: seq<Call>

    method RegisterAlg(alg: Alg) returns (ret: int)
      modifies this
      ensures calls == old(calls) + [Register(alg)]
      ensures ret == if refuses(|old(calls)|) != 0 then refuses(|old(calls)|) else if alg in old(registry) then EXISTS else 0
      ensures registry == if ret == 0 then old(registry) + {alg} else old(registry)
    {
      ret := refuses(|calls|);
      calls := calls + [Register(alg)];
      if ret == 0 {
        if alg in registry {
          return EXISTS;
        }
        registry := registry + {alg};
      }
    }

    method UnregisterAlg(alg: Alg) returns (ret: int)
      modifies this
      ensures calls == old(calls) + [Unregister(alg)]
      ensures ret == if refuses(|old(calls)|) != 0 then refuses(|old(calls)|) else if alg !in old(registry) then NO_ENTRY else 0
      ensures registry == if ret == 0 then old(registry) - {alg} else old(registry)
    {
      ret := refuses(|calls|);
      calls := calls + [Unregister(alg)];
      if ret == 0 {
        if alg !in registry {
          return NO_ENTRY;
        }
        registry := registry - {alg};
      }
    }
  }

  ghost function Elements(algs: seq<Alg>): set<Alg> {
    set i | 0 <= i < |algs| :: algs[i]
  }

  function Registers(algs: seq<Alg>): (calls: seq<Call>)
    ensures |calls| == |algs|
  {
    seq(|algs|, i requires 0 <= i < |algs| => Register(algs[i]))
  }

  function Unregisters(algs: seq<Alg>): (calls: seq<Call>)
    ensures |calls| == |algs|
  {
    seq(|algs|, i requires 0 <= i < |algs| => Unregister(algs[i]))
  }

  /** One call per element, in the order of the elements. */
  lemma CallsInOrder(algs: seq<Alg>, alg: Alg)
    ensures Registers([]) == Unregisters([]) == []
    ensures Registers(algs + [alg]) == Registers(algs) + [Register(alg)]
    ensures Unregisters(algs + [alg]) == Unregisters(algs) + [Unregister(alg)]
  {
  }

  function Reversed(algs: seq<Alg>): (r: seq<Alg>)
    ensures |r| == |algs| && forall i :: 0 <= i < |r| ==> r[i] == algs[|algs| - 1 - i]
  {
    seq(|algs|, i requires 0 <= i < |algs| => algs[|algs| - 1 - i])
  }

  ghost predicate Distinct(algs: seq<Alg>) {
    forall i, j :: 0 <= i < j < |algs| ==> algs[i] != algs[j]
  }

  /** None of the unregistrations among the calls from number `from` on was refused. */
  ghost predicate NoneRefused(k: Kernel, from: nat)
    reads k
  {
    AllLetThrough(k.calls, k.refuses, from)
  }

  ghost predicate AllLetThrough(calls: seq<Call>, refuses: nat -> int, from: nat) {
    forall c :: from <= c < |calls| && calls[c].Unregister? ==> refuses(c) == 0
  }

  lemma OneCallMore(calls: seq<Call>, refuses: nat -> int, from: nat, alg: Alg)
    requires from <= |calls|
    ensures AllLetThrough(calls + [Unregister(alg)], refuses, from) <==>
            AllLetThrough(calls, refuses, from) && refuses(|calls|) == 0
  {
    var more := calls + [Unregister(alg)];
    assert more[|calls|] == Unregister(alg);
    assert forall c :: 0 <= c < |calls| ==> more[c] == calls[c];
  }

  lemma NoCallYet(calls: seq<Call>, refuses: nat -> int)
    ensures AllLetThrough(calls, refuses, |calls|)
  {
  }

  /** The calls that undo all but the first i. */
  function Undone(algs: seq<Alg>, i: nat): seq<Call>
    requires i <= |algs|
  {
    Unregisters(Reversed(algs)[..|algs| - i])
  }

  lemma UndoneStep(algs: seq<Alg>, i: nat)
    requires i < |algs|
    ensures Undone(algs, i) == Undone(algs, i + 1) + [Unregister(algs[i])]
  {
    var r, n := Reversed(algs), |algs| - i;
    assert r[..n] == r[..n - 1] + [algs[i]];
  }

  lemma UndoneEnds(algs: seq<Alg>)
    ensures Undone(algs, |algs|) == [] && Undone(algs, 0) == Unregisters(Reversed(algs))
  {
    assert Reversed(algs)[..|algs|] == Reversed(algs);
  }

  /** Undoes the registration of `algs`, last first, whatever each call returns. */
  method RollBack(k: Kernel, algs: seq<Alg>, ghost before: set<Alg>)
    requires Distinct(algs) && k.registry == before + Elements(algs) && before !! Elements(algs)
    modifies k
    ensures k.calls == old(k.calls) + Unregisters(Reversed(algs))
    ensures before <= k.registry <= before + Elements(algs)
    ensures k.registry == before <==> NoneRefused(k, |old(k.calls)|)
  {
    ghost var left: set<Alg> := {};
    ghost var base := |k.calls|;
    var i := |algs|;
    assert algs[..|algs|] == algs && Elements(algs[..0]) == {};
    UndoneEnds(algs);
    hide Elements, Distinct, AllLetThrough, Undone, Reversed, Unregisters;
    assert NoneRefused(k, base) by { NoCallYet(k.calls, k.refuses); }
    while i > 0
      invariant 0 <= i <= |algs|
      invariant k.calls == old(k.calls) + Undone(algs, i)
      invariant k.registry == before + Elements(algs[..i]) + left
      invariant left <= Elements(algs) && left !! Elements(algs[..i]) && left !! before
      invariant left == {} <==> NoneRefused(k, base)
    {
      i := i - 1;
      UndoneStep(algs, i);
      StepDown(algs, i);
      OneCallMore(k.calls, k.refuses, base, algs[i]);
      var ret := k.UnregisterAlg(algs[i]);
      if ret != 0 {
        left := left + {algs[i]};
      }
    }
  }

  lemma StepDown(algs: seq<Alg>, i: nat)
    requires i < |algs| && Distinct(algs)
    ensures Elements(algs[..i + 1]) == Elements(algs[..i]) + {algs[i]} && algs[i] !in Elements(algs[..i])
    ensures algs[i] in Elements(algs)
  {
    MoreElements(algs, i);
  }

  /**
   * crypto_register_algs: all are registered, or the error is the first one's that was refused, those before it were
   * unregistered once each, last first, and the registry is as before exactly if none of those calls was refused.
   */
  method RegisterAlgs(k: Kernel, algs: seq<Alg>) returns (ret: int)
    modifies k
    ensures ret == 0 ==> k.calls == old(k.calls) + Registers(algs)
    ensures ret == 0 ==> k.registry == old(k.registry) + Elements(algs) && old(k.registry) !! Elements(algs) && Distinct(algs)
    ensures ret != 0 ==> exists i :: 0 <= i < |algs| && FailedAt(old(k.calls), k.calls, old(k.registry), k.refuses, algs, i, ret)
    ensures ret != 0 ==> old(k.registry) <= k.registry <= old(k.registry) + Elements(algs)
    ensures ret != 0 ==> (k.registry == old(k.registry) <==> NoneRefused(k, |old(k.calls)|))
  {
    ret := 0;
    var i := 0;
    assert Registers(algs[..0]) == [] && Distinct(algs[..0]) && Elements(algs[..0]) == {};
    hide Elements, Distinct, Reversed;
    while i < |algs|
      invariant 0 <= i <= |algs|
      invariant k.calls == old(k.calls) + Registers(algs[..i])
      invariant k.registry == old(k.registry) + Elements(algs[..i])
      invariant old(k.registry) !! Elements(algs[..i]) && Distinct(algs[..i])
      invariant forall c: nat :: |old(k.calls)| <= c < |old(k.calls)| + i ==> k.refuses(c) == 0
    {
      assert Registers(algs[..i + 1]) == Registers(algs[..i]) + [Register(algs[i])];
      ret := k.RegisterAlg(algs[i]);
      if ret != 0 {
        ghost var before := k.calls;
        RollBack(k, algs[..i], old(k.registry));
        assert k.calls[..|before|] == before;
        assert k.calls == before + Unregisters(Reversed(algs[..i]));
        assert FailedAt(old(k.calls), k.calls, old(k.registry), k.refuses, algs, i, ret);
        SubsetElements(algs, i);
        return;
      }
      StepUp(algs, i);
      i := i + 1;
    }
    assert algs[..|algs|] == algs;
  }

  /** The calls of a failed registration, and that it was element `i` that was refused. */
  ghost predicate FailedAt(before: seq<Call>, after: seq<Call>, registry: set<Alg>, refuses: nat -> int, algs: seq<Alg>, i: nat,
                           ret: int)
    requires i < |algs|
  {
    && after == before + Registers(algs[..i + 1]) + Unregisters(Reversed(algs[..i]))
    && (if refuses(|before| + i) != 0 then ret == refuses(|before| + i)
        else ret == -17 && algs[i] in registry + Elements(algs[..i]))
    && forall c: nat :: |before| <= c < |before| + i ==> refuses(c) == 0
  }

  lemma SubsetElements(algs: seq<Alg>, i: nat)
    requires i <= |algs|
    ensures Elements(algs[..i]) <= Elements(algs)
  {
    forall x | x in Elements(algs[..i])
      ensures x in Elements(algs)
    {
      var j :| 0 <= j < i && algs[..i][j] == x;
      assert algs[j] == x;
    }
  }

  lemma StepUp(algs: seq<Alg>, i: nat)
    requires i < |algs| && Distinct(algs[..i]) && algs[i] !in Elements(algs[..i])
    ensures Elements(algs[..i + 1]) == Elements(algs[..i]) + {algs[i]} && Distinct(algs[..i + 1])
  {
    forall a | 0 <= a < i
      ensures algs[..i][a] in Elements(algs[..i]) && algs[..i + 1][a] == algs[..i][a]
    {
    }
    StepDown(algs[..i + 1], i);
    assert algs[..i + 1][..i] == algs[..i] && algs[..i + 1][..i + 1] == algs[..i + 1];
  }

  /** crypto_unregister_algs: every element is tried, in order, whatever the calls before it returned. */
  method UnregisterAlgs(k: Kernel, algs: seq<Alg>) returns (ret: int)
    modifies k
    ensures ret == 0
    ensures k.calls == old(k.calls) + Unregisters(algs)
    ensures old(k.registry) - Elements(algs) <= k.registry <= old(k.registry)
    ensures NoneRefused(k, |old(k.calls)|) ==> k.registry == old(k.registry) - Elements(algs)
  {
    assert Unregisters(algs[..0]) == [] && Elements(algs[..0]) == {};
    for i := 0 to |algs|
      invariant k.calls == old(k.calls) + Unregisters(algs[..i])
      invariant old(k.registry) - Elements(algs[..i]) <= k.registry <= old(k.registry)
      invariant NoneRefused(k, |old(k.calls)|) ==> k.registry == old(k.registry) - Elements(algs[..i])
    {
      assert Unregisters(algs[..i + 1]) == Unregisters(algs[..i]) + [Unregister(algs[i])];
      MoreElements(algs, i);
      OneCallMore(k.calls, k.refuses, |old(k.calls)|, algs[i]);
      var r := k.UnregisterAlg(algs[i]);
    }
    assert algs[..|algs|] == algs;
    ret := 0;
  }

  lemma MoreElements(algs: seq<Alg>, i: nat)
    requires i < |algs|
    ensures Elements(algs[..i + 1]) == Elements(algs[..i]) + {algs[i]}
  {
    assert algs[..i + 1][i] == algs[i];
    assert forall j :: 0 <= j < i ==> algs[..i][j] == algs[..i + 1][j];
  }

  /** A successful registration is undone by unregistering, if the kernel lets it. */
  method RegisterThenUnregister(k: Kernel, algs: seq<Alg>) returns (ret: int)
    modifies k
    ensures NoneRefused(k, |old(k.calls)|) ==> k.registry == old(k.registry)
    ensures ret == 0 ==> k.calls == old(k.calls) + Registers(algs) + Unregisters(algs)
  {
    ret := RegisterAlgs(k, algs);
    if ret == 0 {
      ghost var calls := k.calls;
      var _ := UnregisterAlgs(k, algs);
      assert |calls| >= |old(k.calls)|;
    }
  }
}
