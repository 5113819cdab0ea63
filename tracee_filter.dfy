/**
 * The namespace-membership filter `SYSVIPC_FOREACH_TRACEE` of
 * src/extension/sysvipc/sysvipc_internal.h.
 *
 * The tracer's list of live tracees is a sequence in list order, and the
 * extension config that `sysvipc_get_config` returns for a tracee is a partial
 * map: a tracee outside its domain has a NULL config. The loop body runs for
 * a tracee exactly when its config exists and points to the namespace asked
 * for (pointer identity, not equal contents); `ForeachTracee` is the sequence
 * of (tracee, config) pairs the body is run with, in the order it runs.
 */
module TraceeFilter {
  import opened SysvipcTypes

  /** The identity of a traced process (its `Tracee *`). */
  type TraceeRef = nat

  /** One run of the loop body: the values of `out_tracee` and `out_config`. */
  datatype Visit = Visit(tracee: TraceeRef, config: Config)

  /** The macro's guard: a non-NULL config whose namespace is `ns`. */
  predicate InNamespace(t: TraceeRef, configs: map<TraceeRef, Config>, ns: NamespaceRef)
  {
    t in configs && configs[t].ipcNamespace == ns
  }

  /** The visits `SYSVIPC_FOREACH_TRACEE(tracee, config, ns)` makes over the
      tracee list `tracees`. */
  function ForeachTracee(tracees: seq<TraceeRef>, configs: map<TraceeRef, Config>, ns: NamespaceRef): (r: seq<Visit>)
    ensures |r| <= |tracees|
    ensures forall k :: 0 <= k < |r| ==>
              r[k].tracee in tracees && InNamespace(r[k].tracee, configs, ns) && r[k].config == configs[r[k].tracee]
  {
    if tracees == [] then
      []
    else
      var rest := ForeachTracee(tracees[1..], configs, ns);
      if InNamespace(tracees[0], configs, ns) then
        [Visit(tracees[0], configs[tracees[0]])] + rest
      else
        rest
  }

  /** Walking two lists one after the other visits what each walk visits,
      in that order. */
  lemma {:induction false} ForeachConcat(a: seq<TraceeRef>, b: seq<TraceeRef>, configs: map<TraceeRef, Config>, ns: NamespaceRef)
    ensures ForeachTracee(a + b, configs, ns) == ForeachTracee(a, configs, ns) + ForeachTracee(b, configs, ns)
  {
    if a == [] {
      assert a + b == b;
    } else {
      assert (a + b)[1..] == a[1..] + b;
      ForeachConcat(a[1..], b, configs, ns);
    }
  }

  /** One step of the loop: the next tracee in the list is visited after all
      earlier ones when the guard holds, and skipped otherwise. */
  lemma ForeachStep(tracees: seq<TraceeRef>, i: nat, configs: map<TraceeRef, Config>, ns: NamespaceRef)
    requires i < |tracees|
    ensures ForeachTracee(tracees[..i + 1], configs, ns)
            == ForeachTracee(tracees[..i], configs, ns)
               + (if InNamespace(tracees[i], configs, ns) then [Visit(tracees[i], configs[tracees[i]])] else [])
  {
    assert tracees[..i + 1] == tracees[..i] + [tracees[i]];
    ForeachConcat(tracees[..i], [tracees[i]], configs, ns);
    assert [tracees[i]][1..] == [];
  }

  /** The visits are exactly the tracees whose config is non-NULL and names
      `ns`, each with its config. */
  lemma {:induction false} ForeachVisitsExactly(tracees: seq<TraceeRef>, configs: map<TraceeRef, Config>, ns: NamespaceRef, v: Visit)
    ensures v in ForeachTracee(tracees, configs, ns)
            <==> exists i :: 0 <= i < |tracees| && InNamespace(tracees[i], configs, ns)
                             && v == Visit(tracees[i], configs[tracees[i]])
  {
    if tracees != [] {
      ForeachVisitsExactly(tracees[1..], configs, ns, v);
      if v in ForeachTracee(tracees[1..], configs, ns) {
        var j :| 0 <= j < |tracees[1..]| && InNamespace(tracees[1..][j], configs, ns)
                 && v == Visit(tracees[1..][j], configs[tracees[1..][j]]);
        assert tracees[j + 1] == tracees[1..][j];
      }
      if exists i :: 0 <= i < |tracees| && InNamespace(tracees[i], configs, ns)
                     && v == Visit(tracees[i], configs[tracees[i]]) {
        var i :| 0 <= i < |tracees| && InNamespace(tracees[i], configs, ns)
                 && v == Visit(tracees[i], configs[tracees[i]]);
        if i > 0 {
          assert tracees[1..][i - 1] == tracees[i];
        }
      }
    }
  }

  /** A tracee that passes the guard is visited at position
      `|ForeachTracee(tracees[..i])|`, right after the visits of the tracees
      before it. */
  lemma ForeachPosition(tracees: seq<TraceeRef>, i: nat, configs: map<TraceeRef, Config>, ns: NamespaceRef)
    requires i < |tracees| && InNamespace(tracees[i], configs, ns)
    ensures var k := |ForeachTracee(tracees[..i], configs, ns)|;
            && k < |ForeachTracee(tracees, configs, ns)|
            && ForeachTracee(tracees, configs, ns)[k] == Visit(tracees[i], configs[tracees[i]])
  {
    assert tracees == tracees[..i + 1] + tracees[i + 1..];
    ForeachConcat(tracees[..i + 1], tracees[i + 1..], configs, ns);
    ForeachStep(tracees, i, configs, ns);
  }

  /** Visits follow list order: of two tracees that pass the guard, the one
      earlier in the list is visited strictly earlier. */
  lemma ForeachKeepsOrder(tracees: seq<TraceeRef>, i: nat, j: nat, configs: map<TraceeRef, Config>, ns: NamespaceRef)
    requires i < j <= |tracees| && InNamespace(tracees[i], configs, ns)
    ensures |ForeachTracee(tracees[..i], configs, ns)| < |ForeachTracee(tracees[..j], configs, ns)|
  {
    assert tracees[..j] == tracees[..i + 1] + tracees[i + 1..j];
    ForeachConcat(tracees[..i + 1], tracees[i + 1..j], configs, ns);
    ForeachStep(tracees, i, configs, ns);
  }
}
