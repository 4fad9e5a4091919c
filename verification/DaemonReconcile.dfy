/** Reconciling routing daemons: everything is stopped in reverse order, startup flags are set, then the enabled
    daemons are started in order. */
module DaemonReconcile {
  import opened Sequences

  datatype Daemon = Daemon(name: string, enabled: bool, deps: seq<string>)

  datatype StartupOption = StartupOption(daemon: string, name: string, value: string)

  predicate IsEnabled(d: Daemon) { d.enabled }

  function Names(ds: seq<Daemon>): (r: seq<string>)
    ensures |r| == |ds|
    ensures forall i :: 0 <= i < |ds| ==> r[i] == ds[i].name
  {
    seq(|ds|, i requires 0 <= i < |ds| => ds[i].name)
  }

  function OptionKeys(os: seq<StartupOption>): (r: seq<(string, string)>)
    ensures |r| == |os|
    ensures forall i :: 0 <= i < |os| ==> r[i] == (os[i].daemon, os[i].name)
  {
    seq(|os|, i requires 0 <= i < |os| => (os[i].daemon, os[i].name))
  }

  /** Every dependency of a daemon is listed before it. */
  ghost predicate Ordered(ds: seq<Daemon>) {
    forall i, d :: 0 <= i < |ds| && d in ds[i].deps ==> d in Names(ds)[..i]
  }

  ghost predicate ValidIntent(ds: seq<Daemon>, os: seq<StartupOption>) {
    ds != [] && Distinct(Names(ds)) && Ordered(ds) && Distinct(OptionKeys(os)) &&
    forall i :: 0 <= i < |os| ==> os[i].daemon in Names(Filter(IsEnabled, ds))
  }

  method ValidateIntent(ds: seq<Daemon>, os: seq<StartupOption>) returns (ok: bool)
    ensures ok <==> ValidIntent(ds, os)
  {
    if ds == [] || !Distinct(Names(ds)) { return false; }
    var seen: set<string> := {};
    for i := 0 to |ds|
      invariant forall x :: x in seen <==> x in Names(ds)[..i]
      invariant forall k, d :: 0 <= k < i && d in ds[k].deps ==> d in Names(ds)[..k]
    {
      if exists d :: d in ds[i].deps && d !in seen { return false; }
      assert Names(ds)[..i + 1] == Names(ds)[..i] + [ds[i].name];
      seen := seen + {ds[i].name};
    }
    if !Distinct(OptionKeys(os)) { return false; }
    var enabled := Names(Filter(IsEnabled, ds));
    return !exists i :: 0 <= i < |os| && os[i].daemon !in enabled;
  }

  // ---------- the emitted steps and their effect ----------

  datatype Step =
    Snapshot | Disable(name: string) | Configure(flags: seq<StartupOption>) | Enable(name: string) | Acknowledge

  datatype Device = Device(running: set<string>, flags: seq<StartupOption>)

  function Exec(s: Device, step: Step): (r: Device) {
    match step
    case Disable(name) => s.(running := s.running - {name})
    case Enable(name) => s.(running := s.running + {name})
    case Configure(flags) => s.(flags := flags)
    case _ => s
  }

  /** The device after the first `n` steps. */
  function Run(s: Device, steps: seq<Step>, n: nat): (r: Device)
    requires n <= |steps|
  {
    if n == 0 then s else Exec(Run(s, steps, n - 1), steps[n - 1])
  }

  function Disables(ds: seq<Daemon>): (r: seq<Step>)
    ensures |r| == |ds|
    ensures forall i :: 0 <= i < |ds| ==> r[i] == Disable(ds[|ds| - 1 - i].name)
  {
    seq(|ds|, i requires 0 <= i < |ds| => Disable(ds[|ds| - 1 - i].name))
  }

  function Enables(ds: seq<Daemon>): (r: seq<Step>)
    ensures |r| == |Filter(IsEnabled, ds)|
    ensures forall i :: 0 <= i < |r| ==> r[i] == Enable(Filter(IsEnabled, ds)[i].name)
  {
    var e := Filter(IsEnabled, ds);
    seq(|e|, i requires 0 <= i < |e| => Enable(e[i].name))
  }

  function Materialize(ds: seq<Daemon>, os: seq<StartupOption>): (r: seq<Step>) {
    [Snapshot] + Disables(ds) + (if os == [] then [] else [Configure(os)]) + Enables(ds) + [Acknowledge]
  }

  lemma StoppingSteps(ds: seq<Daemon>, conf: seq<Step>, rest: seq<Step>)
    ensures var steps := [Snapshot] + Disables(ds) + conf + rest;
            steps[0] == Snapshot && (forall i :: 0 <= i < |ds| ==> steps[|ds| - i] == Disable(ds[i].name)) &&
            steps[|ds| + 1..] == conf + rest
  {
    var disables := Disables(ds);
    var steps := [Snapshot] + disables + conf + rest;
    forall i | 0 <= i < |ds| ensures steps[|ds| - i] == Disable(ds[i].name) {
      assert steps[|ds| - i] == disables[|ds| - 1 - i];
    }
    assert steps == ([Snapshot] + disables) + (conf + rest);
  }

  /** The steps one by one: a snapshot, every daemon disabled in reverse order, the startup options if any, the
      enabled daemons in order, and the acknowledgement. */
  lemma StepsAre(ds: seq<Daemon>, os: seq<StartupOption>)
    ensures var steps, enabled := Materialize(ds, os), Filter(IsEnabled, ds);
            |steps| > |ds| && steps[0] == Snapshot &&
            (forall i :: 0 <= i < |ds| ==> steps[|ds| - i] == Disable(ds[i].name)) &&
            steps[|ds| + 1..] ==
            (if os == [] then [] else [Configure(os)]) +
            seq(|enabled|, i requires 0 <= i < |enabled| => Enable(enabled[i].name)) + [Acknowledge]
  {
    var conf: seq<Step> := if os == [] then [] else [Configure(os)];
    StoppingSteps(ds, conf, Enables(ds) + [Acknowledge]);
    StepsSplit([Snapshot], Disables(ds), conf, Enables(ds), [Acknowledge]);
  }

  lemma StepsSplit(a: seq<Step>, b: seq<Step>, c: seq<Step>, d: seq<Step>, e: seq<Step>)
    ensures a + b + c + d + e == a + b + c + (d + e) && c + (d + e) == c + d + e
  {
  }

  /** A running managed daemon has all its dependencies running. */
  ghost predicate DependencyClosed(ds: seq<Daemon>, running: set<string>) {
    forall i, d :: 0 <= i < |ds| && ds[i].name in running && d in ds[i].deps ==> d in running
  }

  /** Enabled daemons depend on enabled daemons only. */
  ghost predicate EnabledClosed(ds: seq<Daemon>) {
    forall i, d :: 0 <= i < |ds| && ds[i].enabled && d in ds[i].deps ==> d in Names(Filter(IsEnabled, ds))
  }

  /** The names of the first `n` daemons of a list. */
  ghost function NameSet(ds: seq<Daemon>, n: nat): (r: set<string>)
    requires n <= |ds|
    ensures forall x :: x in r <==> exists i :: 0 <= i < n && ds[i].name == x
  {
    set i | 0 <= i < n :: ds[i].name
  }

  /** The names from position `n` on. */
  ghost function NamesFrom(ds: seq<Daemon>, n: nat): (r: set<string>)
    requires n <= |ds|
    ensures forall x :: x in r <==> exists i :: n <= i < |ds| && ds[i].name == x
  {
    set i | n <= i < |ds| :: ds[i].name
  }

  lemma {:induction false} RunAppend(s: Device, a: seq<Step>, b: seq<Step>, n: nat)
    requires n <= |b|
    ensures Run(s, a + b, |a| + n) == Run(Run(s, a, |a|), b, n)
  {
    if n == 0 {
      RunPrefix(s, a, b, |a|);
    } else {
      RunAppend(s, a, b, n - 1);
      assert (a + b)[|a| + n - 1] == b[n - 1];
    }
  }

  lemma {:induction false} RunPrefix(s: Device, a: seq<Step>, b: seq<Step>, n: nat)
    requires n <= |a|
    ensures Run(s, a + b, n) == Run(s, a, n)
  {
    if n > 0 { RunPrefix(s, a, b, n - 1); }
  }

  lemma {:induction false} AfterDisables(s: Device, ds: seq<Daemon>, n: nat)
    requires n <= |ds|
    ensures Run(s, Disables(ds), n) == s.(running := s.running - NamesFrom(ds, |ds| - n))
  {
    if n > 0 {
      AfterDisables(s, ds, n - 1);
      var k := |ds| - n;
      assert NamesFrom(ds, k) == NamesFrom(ds, k + 1) + {ds[k].name};
    } else {
      assert NamesFrom(ds, |ds|) == {};
    }
  }

  lemma {:induction false} AfterEnables(s: Device, ds: seq<Daemon>, n: nat)
    requires n <= |Filter(IsEnabled, ds)|
    ensures Run(s, Enables(ds), n) == s.(running := s.running + NameSet(Filter(IsEnabled, ds), n))
  {
    var e := Filter(IsEnabled, ds);
    if n > 0 {
      AfterEnables(s, ds, n - 1);
      assert NameSet(e, n) == NameSet(e, n - 1) + {e[n - 1].name};
    } else {
      assert NameSet(e, 0) == {};
    }
  }

  /** Stopping from the end never strands a running daemon. */
  lemma DisablingKeepsClosed(ds: seq<Daemon>, running: set<string>, k: nat)
    requires Ordered(ds) && Distinct(Names(ds)) && DependencyClosed(ds, running) && k <= |ds|
    ensures DependencyClosed(ds, running - NamesFrom(ds, k))
  {
    var after := running - NamesFrom(ds, k);
    forall i, d | 0 <= i < |ds| && ds[i].name in after && d in ds[i].deps ensures d in after {
      assert i < k;
      var j :| 0 <= j < i && Names(ds)[j] == d;
      forall m | k <= m < |ds| ensures ds[m].name != d { assert Names(ds)[m] != Names(ds)[j]; }
    }
  }

  lemma SameNameSameDaemon(ds: seq<Daemon>, x: Daemon, y: Daemon)
    requires Distinct(Names(ds)) && x in ds && y in ds && x.name == y.name
    ensures x == y
  {
    var i :| 0 <= i < |ds| && ds[i] == x;
    var j :| 0 <= j < |ds| && ds[j] == y;
    assert Names(ds)[i] == Names(ds)[j];
  }

  lemma DaemonsDistinct(ds: seq<Daemon>)
    requires Distinct(Names(ds))
    ensures Distinct(ds)
  {
    forall i, j | 0 <= i < j < |ds| ensures ds[i] != ds[j] { assert Names(ds)[i] != Names(ds)[j]; }
  }

  /** An enabled dependency is started before its dependant. */
  lemma EnabledDepStartsFirst(ds: seq<Daemon>, t: nat, d: string) returns (a: nat)
    requires Ordered(ds) && Distinct(Names(ds)) && EnabledClosed(ds)
    requires t < |Filter(IsEnabled, ds)| && d in Filter(IsEnabled, ds)[t].deps
    ensures a < t && Filter(IsEnabled, ds)[a].name == d
  {
    var e := Filter(IsEnabled, ds);
    assert e[t] in ds && d in Names(e);
    var i :| 0 <= i < |ds| && ds[i] == e[t];
    var j :| 0 <= j < i && Names(ds)[j] == d;
    var u :| 0 <= u < |e| && Names(e)[u] == d;
    SameNameSameDaemon(ds, ds[j], e[u]);
    assert Before(ds, ds[j], ds[i]);
    FilterKeepsBefore(IsEnabled, ds, ds[j], ds[i]);
    DaemonsDistinct(ds);
    FilterDistinct(IsEnabled, ds);
    var b;
    a, b :| 0 <= a < b < |e| && e[a] == ds[j] && e[b] == ds[i];
  }

  /** Starting in order never starts a daemon before its dependencies. */
  lemma EnablingKeepsClosed(ds: seq<Daemon>, base: set<string>, n: nat)
    requires Ordered(ds) && Distinct(Names(ds)) && EnabledClosed(ds) && n <= |Filter(IsEnabled, ds)|
    requires forall i :: 0 <= i < |ds| ==> ds[i].name !in base
    ensures DependencyClosed(ds, base + NameSet(Filter(IsEnabled, ds), n))
  {
    var e := Filter(IsEnabled, ds);
    forall i, d | 0 <= i < |ds| && ds[i].name in base + NameSet(e, n) && d in ds[i].deps ensures d in NameSet(e, n) {
      var t :| 0 <= t < n && e[t].name == ds[i].name;
      SameNameSameDaemon(ds, ds[i], e[t]);
      var a := EnabledDepStartsFirst(ds, t, d);
    }
  }

  // ---------- every prefix of a reconcile run ----------

  lemma RunMiddle(s: Device, p: seq<Step>, q: seq<Step>, r: seq<Step>, k: nat)
    requires k <= |q|
    ensures Run(s, p + q + r, |p| + k) == Run(Run(s, p, |p|), q, k)
  {
    RunPrefix(s, p + q, r, |p| + k);
    RunAppend(s, p, q, k);
  }

  function ConfigureSteps(os: seq<StartupOption>): (r: seq<Step>) {
    if os == [] then [] else [Configure(os)]
  }

  /** The device once everything managed is stopped and the flags are set. */
  ghost function Stopped(s: Device, ds: seq<Daemon>, os: seq<StartupOption>): (r: Device) {
    Device(s.running - NamesFrom(ds, 0), if os == [] then s.flags else os)
  }

  lemma WhileStopping(s: Device, ds: seq<Daemon>, os: seq<StartupOption>, k: nat)
    requires k <= |ds|
    ensures Run(s, Materialize(ds, os), 1 + k) == s.(running := s.running - NamesFrom(ds, |ds| - k))
  {
    var rest := ConfigureSteps(os) + Enables(ds) + [Acknowledge];
    assert Materialize(ds, os) == [Snapshot] + Disables(ds) + rest;
    RunMiddle(s, [Snapshot], Disables(ds), rest, k);
    assert Run(s, [Snapshot], 1) == Exec(Run(s, [Snapshot], 0), [Snapshot][0]) == s;
    AfterDisables(s, ds, k);
  }

  lemma OnceStopped(s: Device, ds: seq<Daemon>, os: seq<StartupOption>)
    ensures Run(s, [Snapshot] + Disables(ds) + ConfigureSteps(os), 1 + |ds| + |ConfigureSteps(os)|) ==
            Stopped(s, ds, os)
  {
    var p, conf := [Snapshot] + Disables(ds), ConfigureSteps(os);
    RunAppend(s, [Snapshot], Disables(ds), |ds|);
    assert Run(s, [Snapshot], 1) == Exec(Run(s, [Snapshot], 0), [Snapshot][0]) == s;
    AfterDisables(s, ds, |ds|);
    RunAppend(s, p, conf, |conf|);
    if os != [] { assert Run(Run(s, p, |p|), conf, 1) == Exec(Run(Run(s, p, |p|), conf, 0), conf[0]); }
  }

  lemma {:induction false} WhileStarting(s: Device, ds: seq<Daemon>, os: seq<StartupOption>, k: nat)
    requires k <= |Filter(IsEnabled, ds)|
    ensures 1 + |ds| + |ConfigureSteps(os)| + k <= |Materialize(ds, os)|
    ensures Run(s, Materialize(ds, os), 1 + |ds| + |ConfigureSteps(os)| + k) ==
            Stopped(s, ds, os).(running := s.running - NamesFrom(ds, 0) + NameSet(Filter(IsEnabled, ds), k))
  {
    var p := [Snapshot] + Disables(ds) + ConfigureSteps(os);
    assert Materialize(ds, os) == p + Enables(ds) + [Acknowledge];
    OnceStopped(s, ds, os);
    StartingFrom(s, p, ds, Stopped(s, ds, os), k);
  }

  lemma StartingFrom(s: Device, p: seq<Step>, ds: seq<Daemon>, stopped: Device, k: nat)
    requires k <= |Filter(IsEnabled, ds)| && Run(s, p, |p|) == stopped
    ensures Run(s, p + Enables(ds) + [Acknowledge], |p| + k) ==
            stopped.(running := stopped.running + NameSet(Filter(IsEnabled, ds), k))
  {
    RunMiddle(s, p, Enables(ds), [Acknowledge], k);
    AfterEnables(stopped, ds, k);
  }

  lemma MaterializeLength(ds: seq<Daemon>, os: seq<StartupOption>)
    ensures |Materialize(ds, os)| == 2 + |ds| + |ConfigureSteps(os)| + |Filter(IsEnabled, ds)|
    ensures Materialize(ds, os)[|Materialize(ds, os)| - 1] == Acknowledge
  {
  }

  /** The run ends with exactly the enabled daemons running among the managed ones; all others are untouched. */
  lemma ReconcileResult(s: Device, ds: seq<Daemon>, os: seq<StartupOption>)
    ensures var final := Run(s, Materialize(ds, os), |Materialize(ds, os)|);
            && final.running == s.running - NamesFrom(ds, 0) + NameSet(Filter(IsEnabled, ds), |Filter(IsEnabled, ds)|)
            && final.flags == if os == [] then s.flags else os
  {
    MaterializeLength(ds, os);
    WhileStarting(s, ds, os, |Filter(IsEnabled, ds)|);
  }

  /** Startup flags change only while no managed daemon runs. */
  lemma FlagsChangeOnlyWhenStopped(s: Device, ds: seq<Daemon>, os: seq<StartupOption>, n: nat)
    requires n < |Materialize(ds, os)|
    requires Run(s, Materialize(ds, os), n).flags != Run(s, Materialize(ds, os), n + 1).flags
    ensures forall i :: 0 <= i < |ds| ==> ds[i].name !in Run(s, Materialize(ds, os), n).running
  {
    var steps := Materialize(ds, os);
    assert steps[n].Configure?;
    assert n == 1 + |ds|;
    WhileStopping(s, ds, os, |ds|);
  }

  /** Every intermediate state is dependency-closed exactly when enabled daemons depend on enabled daemons only. */
  lemma ReconcileSafeIff(s: Device, ds: seq<Daemon>, os: seq<StartupOption>)
    requires ValidIntent(ds, os) && DependencyClosed(ds, s.running)
    ensures EnabledClosed(ds) <==>
            forall n :: 0 <= n <= |Materialize(ds, os)| ==> DependencyClosed(ds, Run(s, Materialize(ds, os), n).running)
  {
    if EnabledClosed(ds) {
      forall n | 0 <= n <= |Materialize(ds, os)| ensures DependencyClosed(ds, Run(s, Materialize(ds, os), n).running) {
        ReconcileKeepsClosed(s, ds, os, n);
      }
    } else {
      UnmetDependencyShows(s, ds, os);
    }
  }

  lemma StoppingKeepsClosed(s: Device, ds: seq<Daemon>, os: seq<StartupOption>, k: nat)
    requires ValidIntent(ds, os) && DependencyClosed(ds, s.running) && k <= |ds|
    ensures 1 + k <= |Materialize(ds, os)|
    ensures DependencyClosed(ds, Run(s, Materialize(ds, os), 1 + k).running)
  {
    MaterializeLength(ds, os);
    WhileStopping(s, ds, os, k);
    DisablingKeepsClosed(ds, s.running, |ds| - k);
  }

  lemma DoneKeepsClosed(s: Device, ds: seq<Daemon>, os: seq<StartupOption>)
    requires ValidIntent(ds, os) && EnabledClosed(ds)
    ensures DependencyClosed(ds, Run(s, Materialize(ds, os), |Materialize(ds, os)|).running)
  {
    var e := |Filter(IsEnabled, ds)|;
    StartingKeepsClosed(s, ds, os, e);
    ReconcileResult(s, ds, os);
    WhileStarting(s, ds, os, e);
  }

  lemma ReconcileKeepsClosed(s: Device, ds: seq<Daemon>, os: seq<StartupOption>, n: nat)
    requires ValidIntent(ds, os) && DependencyClosed(ds, s.running) && EnabledClosed(ds) && n <= |Materialize(ds, os)|
    ensures DependencyClosed(ds, Run(s, Materialize(ds, os), n).running)
  {
    var from, e := 1 + |ds| + |ConfigureSteps(os)|, |Filter(IsEnabled, ds)|;
    MaterializeLength(ds, os);
    if 1 <= n <= 1 + |ds| {
      StoppingKeepsClosed(s, ds, os, n - 1);
    } else if from <= n <= from + e {
      StartingKeepsClosed(s, ds, os, n - from);
    } else if n == from + e + 1 {
      DoneKeepsClosed(s, ds, os);
    }
  }

  lemma StartingKeepsClosed(s: Device, ds: seq<Daemon>, os: seq<StartupOption>, k: nat)
    requires Ordered(ds) && Distinct(Names(ds)) && EnabledClosed(ds) && k <= |Filter(IsEnabled, ds)|
    ensures 1 + |ds| + |ConfigureSteps(os)| + k <= |Materialize(ds, os)|
    ensures DependencyClosed(ds, Run(s, Materialize(ds, os), 1 + |ds| + |ConfigureSteps(os)| + k).running)
  {
    WhileStarting(s, ds, os, k);
    EnablingKeepsClosed(ds, s.running - NamesFrom(ds, 0), k);
  }

  /** After the run a managed daemon is up exactly when its name is enabled. */
  lemma RunningIffEnabled(s: Device, ds: seq<Daemon>, os: seq<StartupOption>, j: nat)
    requires j < |ds|
    ensures ds[j].name in Run(s, Materialize(ds, os), |Materialize(ds, os)|).running <==>
            ds[j].name in Names(Filter(IsEnabled, ds))
  {
    var e := Filter(IsEnabled, ds);
    ReconcileResult(s, ds, os);
    assert ds[j].name in NamesFrom(ds, 0);
    NameSetIsNames(e, ds[j].name);
  }

  lemma NameSetIsNames(ds: seq<Daemon>, x: string)
    ensures x in NameSet(ds, |ds|) <==> x in Names(ds)
  {
    if x in NameSet(ds, |ds|) {
      var i :| 0 <= i < |ds| && ds[i].name == x;
      assert Names(ds)[i] == x;
    }
  }

  lemma UnmetDependencyShows(s: Device, ds: seq<Daemon>, os: seq<StartupOption>)
    requires ValidIntent(ds, os) && !EnabledClosed(ds)
    ensures !DependencyClosed(ds, Run(s, Materialize(ds, os), |Materialize(ds, os)|).running)
  {
    var i, d :| 0 <= i < |ds| && ds[i].enabled && d in ds[i].deps && d !in Names(Filter(IsEnabled, ds));
    UnmetAt(ds, i, d);
    var j :| 0 <= j < |ds| && ds[j].name == d;
    RunningIffEnabled(s, ds, os, i);
    RunningIffEnabled(s, ds, os, j);
  }

  lemma UnmetAt(ds: seq<Daemon>, i: nat, d: string)
    requires Ordered(ds) && i < |ds| && ds[i].enabled && d in ds[i].deps
    ensures exists j :: 0 <= j < |ds| && ds[j].name == d
    ensures ds[i].name in Names(Filter(IsEnabled, ds))
  {
    var j :| 0 <= j < i && Names(ds)[j] == d;
    assert ds[j].name == d;
    EnabledListed(ds, i);
  }

  // ---------- the shipped daemon list ----------

  const FIB_GRPC := "FibGrpc"
  const FIB_BGP_GRPC := "FibBgpGrpc"
  const FIB_AGENT := "FibAgent"
  const FIB_AGENT_BGP := "FibAgentBgp"
  const OPENR := "Openr"
  const BGPCPP := "Bgpcpp"

  function RoutingDaemons(): (r: seq<Daemon>) {
    DaemonList(FIB_GRPC, FIB_BGP_GRPC, FIB_AGENT, FIB_AGENT_BGP, OPENR, BGPCPP)
  }

  function DaemonList(grpc: string, bgpGrpc: string, agent: string, agentBgp: string, openr: string,
                      bgp: string): (r: seq<Daemon>) {
    [Daemon(grpc, true, []), Daemon(bgpGrpc, true, []), Daemon(agent, true, [grpc]), Daemon(agentBgp, true, [bgpGrpc]),
     Daemon(openr, false, []), Daemon(bgp, true, [agent, agentBgp])]
  }

  lemma DependencyMet(ds: seq<Daemon>, i: nat, j: nat)
    requires j < i < |ds| && ds[j].enabled
    ensures ds[j].name in Names(ds)[..i] && ds[j].name in Names(Filter(IsEnabled, ds))
  {
    assert Names(ds)[..i][j] == ds[j].name;
    EnabledListed(ds, j);
  }

  lemma MetEverywhere(ds: seq<Daemon>)
    requires forall i, d :: 0 <= i < |ds| && d in ds[i].deps ==>
               exists j :: 0 <= j < i && ds[j].enabled && ds[j].name == d
    ensures Ordered(ds) && EnabledClosed(ds)
  {
    forall i, d | 0 <= i < |ds| && d in ds[i].deps ensures d in Names(ds)[..i] && d in Names(Filter(IsEnabled, ds)) {
      var j :| 0 <= j < i && ds[j].enabled && ds[j].name == d;
      DependencyMet(ds, i, j);
    }
  }

  /** With these dependencies, each on an earlier enabled daemon, any names will do. */
  lemma DaemonListOrdered(a: string, b: string, c: string, d: string, e: string, f: string)
    ensures Ordered(DaemonList(a, b, c, d, e, f)) && EnabledClosed(DaemonList(a, b, c, d, e, f))
  {
    var ds := DaemonList(a, b, c, d, e, f);
    assert ds[0].name == a && ds[1].name == b && ds[2].name == c && ds[3].name == d;
    assert ds[2].deps == [a] && ds[3].deps == [b] && ds[5].deps == [c, d];
    forall i, x | 0 <= i < |ds| && x in ds[i].deps ensures exists j :: 0 <= j < i && ds[j].enabled && ds[j].name == x {
      if i == 2 { assert ds[0].name == x; }
      if i == 3 { assert ds[1].name == x; }
      if i == 5 && x == c { assert ds[2].name == x; }
      if i == 5 && x == d { assert ds[3].name == x; }
    }
    MetEverywhere(ds);
  }

  const RESOLVE_NEXTHOPS := "bgp_resolve_nexthops_from_interface_state"

  function StartupOptions(): (r: seq<StartupOption>) { [StartupOption(BGPCPP, RESOLVE_NEXTHOPS, "true")] }

  lemma DistinctByLength(ds: seq<Daemon>)
    requires forall i, j :: 0 <= i < j < |ds| ==> |ds[i].name| != |ds[j].name|
    ensures Distinct(Names(ds))
  {
    forall i, j | 0 <= i < j < |ds| ensures Names(ds)[i] != Names(ds)[j] { assert |ds[i].name| != |ds[j].name|; }
  }

  lemma ShippedNamesDiffer()
    ensures Distinct(Names(RoutingDaemons()))
  {
    assert |FIB_GRPC| == 7 && |FIB_BGP_GRPC| == 10 && |FIB_AGENT| == 8 && |FIB_AGENT_BGP| == 11 && |OPENR| == 5 &&
           |BGPCPP| == 6;
    DistinctByLength(RoutingDaemons());
  }

  lemma EnabledListed(ds: seq<Daemon>, i: nat)
    requires i < |ds| && ds[i].enabled
    ensures ds[i].name in Names(Filter(IsEnabled, ds))
  {
    var e := Filter(IsEnabled, ds);
    assert ds[i] in e;
    var k :| 0 <= k < |e| && e[k] == ds[i];
    assert Names(e)[k] == ds[i].name;
  }

  /** The shipped daemons and options validate and meet the condition for safe runs. */
  lemma ShippedIntentIsValid()
    ensures ValidIntent(RoutingDaemons(), StartupOptions()) && EnabledClosed(RoutingDaemons())
  {
    var ds := RoutingDaemons();
    DaemonListOrdered(FIB_GRPC, FIB_BGP_GRPC, FIB_AGENT, FIB_AGENT_BGP, OPENR, BGPCPP);
    ShippedNamesDiffer();
    EnabledListed(ds, 5);
    OneOptionIsValid(ds, BGPCPP, RESOLVE_NEXTHOPS);
  }

  lemma OneOptionIsValid(ds: seq<Daemon>, daemon: string, name: string)
    requires ds != [] && Distinct(Names(ds)) && Ordered(ds) && daemon in Names(Filter(IsEnabled, ds))
    ensures ValidIntent(ds, [StartupOption(daemon, name, "true")])
  {
  }

  /** So every reconcile run that ships is safe from any dependency-closed state, and leaves everything but Openr
      running. */
  lemma RoutingDaemonsAreSafe(s: Device, n: nat)
    requires DependencyClosed(RoutingDaemons(), s.running) && n <= |Materialize(RoutingDaemons(), StartupOptions())|
    ensures DependencyClosed(RoutingDaemons(), Run(s, Materialize(RoutingDaemons(), StartupOptions()), n).running)
    ensures var steps := Materialize(RoutingDaemons(), StartupOptions());
            (forall i :: 0 <= i < |RoutingDaemons()| ==>
               (RoutingDaemons()[i].name in Run(s, steps, |steps|).running <==> RoutingDaemons()[i].name != OPENR)) &&
            Run(s, steps, |steps|).flags == [StartupOption(BGPCPP, RESOLVE_NEXTHOPS, "true")]
  {
    var ds, os := RoutingDaemons(), StartupOptions();
    ShippedIntentIsValid();
    ReconcileKeepsClosed(s, ds, os, n);
    forall i | 0 <= i < |ds|
      ensures ds[i].name in Run(s, Materialize(ds, os), |Materialize(ds, os)|).running <==> ds[i].enabled
    {
      RunningIffEnabled(s, ds, os, i);
      if ds[i].enabled { EnabledListed(ds, i); } else { DisabledUnlisted(ds, i); }
    }
    ReconcileResult(s, ds, os);
    OnlyOpenrDisabled();
  }

  lemma OnlyOpenrDisabled()
    ensures forall i :: 0 <= i < |RoutingDaemons()| ==>
              (RoutingDaemons()[i].enabled <==> RoutingDaemons()[i].name != OPENR)
  {
    ShippedNamesDiffer();
    assert RoutingDaemons()[4].name == OPENR;
    forall i | 0 <= i < |RoutingDaemons()| && i != 4 ensures RoutingDaemons()[i].name != OPENR {
      assert Names(RoutingDaemons())[i] != Names(RoutingDaemons())[4];
    }
  }

  lemma DisabledUnlisted(ds: seq<Daemon>, i: nat)
    requires i < |ds| && !ds[i].enabled && Distinct(Names(ds))
    ensures ds[i].name !in Names(Filter(IsEnabled, ds))
  {
    var e := Filter(IsEnabled, ds);
    forall k | 0 <= k < |e| ensures e[k].name != ds[i].name {
      assert e[k] in e;
      if e[k].name == ds[i].name { SameNameSameDaemon(ds, ds[i], e[k]); }
    }
  }

  /** Validation alone does not give the condition: an enabled daemon may depend on a disabled one. */
  lemma ValidButUnsafe(a: string, b: string)
    requires a != b
    ensures var ds := [Daemon(a, false, []), Daemon(b, true, [a])]; ValidIntent(ds, []) && !EnabledClosed(ds)
  {
    var ds := [Daemon(a, false, []), Daemon(b, true, [a])];
    assert Names(ds) == [a, b] && Names(ds)[..1] == [a];
    assert ds[1..] == [ds[1]];
    assert Filter(IsEnabled, [ds[1]]) == [ds[1]];
    assert Filter(IsEnabled, ds) == [ds[1]];
    assert Names(Filter(IsEnabled, ds)) == [b];
    assert a in ds[1].deps && ds[1].enabled && a !in Names(Filter(IsEnabled, ds));
  }
}
