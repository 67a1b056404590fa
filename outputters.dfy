/** The outputter bookkeeping: the registry of sinks, the activation filter
    that turns the configured sink names into the active set, the
    enumeration of a set in Go's unspecified map order, and the
    specification of the dispatch loop as a function of the events it
    receives. */
module Outputters {
  import opened Telemetry

  /** The sinks embedded in the program's configuration struct, in field
      order. */
  datatype Sink = Stdout | Mqtt | Prometheus

  /** A sink's registry key: its type name in lower case. */
  function SinkName(s: Sink): string {
    match s
    case Stdout => "stdout"
    case Mqtt => "mqtt"
    case Prometheus => "prometheus"
  }

  /** The outputter fields, in declaration order. */
  const Fields: seq<Sink> := [Stdout, Mqtt, Prometheus]

  /** The names `registerOutputters` reports on its first call. */
  function FieldNames(): (names: seq<string>)
    ensures |names| == |Fields|
  {
    seq(|Fields|, i requires 0 <= i < |Fields| => SinkName(Fields[i]))
  }

  /** The registry built from a list of fields: each under its name, a
      later field replacing an earlier one of the same name. */
  function RegistryOf(fields: seq<Sink>): map<string, Sink> {
    if fields == [] then map[]
    else
      var last := fields[|fields| - 1];
      RegistryOf(fields[..|fields| - 1])[SinkName(last) := last]
  }

  /** The registry `registerOutputters` builds. */
  function Registry(): map<string, Sink> {
    RegistryOf(Fields)
  }

  /** Every sink is registered, under its own name, and nothing else is. */
  lemma RegistryKeys()
    ensures Registry().Keys == {"stdout", "mqtt", "prometheus"}
    ensures forall s: Sink :: SinkName(s) in Registry() && Registry()[SinkName(s)] == s
  {
    assert Fields[..2] == [Stdout, Mqtt];
    assert [Stdout, Mqtt][..1] == [Stdout];
    assert [Stdout][..0] == [];
    assert RegistryOf([Stdout]) == map["stdout" := Stdout];
    assert RegistryOf([Stdout, Mqtt]) == map["stdout" := Stdout, "mqtt" := Mqtt];
    assert Registry() == map["stdout" := Stdout, "mqtt" := Mqtt, "prometheus" := Prometheus];
  }

  /** The names reported on the first call are the registry's keys, each
      exactly once. */
  lemma FieldNamesEnumerate()
    ensures Enumerates(FieldNames(), Registry().Keys)
  {
    RegistryKeys();
    assert FieldNames() == ["stdout", "mqtt", "prometheus"];
  }

  /** `ns` lists every element of `names` exactly once, in some order: what
      a `range` over a Go map with these keys visits. */
  predicate Enumerates(ns: seq<string>, names: set<string>) {
    && (forall n :: n in ns ==> n in names)
    && (forall n :: n in names ==> n in ns)
    && (forall i, j :: 0 <= i < j < |ns| ==> ns[i] != ns[j])
  }

  /** Visit the keys of a map in an unspecified order. */
  method Enumerate(names: set<string>) returns (ns: seq<string>)
    ensures Enumerates(ns, names)
  {
    ns := [];
    var left := names;
    while left != {}
      invariant left <= names
      invariant forall n :: n in ns <==> n in names - left
      invariant forall i, j :: 0 <= i < j < |ns| ==> ns[i] != ns[j]
      decreases left
    {
      var n :| n in left;
      assert forall m :: m in ns + [n] <==> m in ns || m == n;
      ns := ns + [n];
      left := left - {n};
    }
  }

  /** The configured names `Initialize` is called on, in order: those the
      registry holds; unknown names are skipped without a call. */
  function InitCalls(configured: seq<string>, available: set<string>): (calls: seq<string>)
    ensures |calls| <= |configured|
  {
    if configured == [] then []
    else
      var last := configured[|configured| - 1];
      InitCalls(configured[..|configured| - 1], available) + (if last in available then [last] else [])
  }

  /** The names that become active: configured, available, and whose
      `Initialize` call succeeded (`ok[i]` is the outcome of the call for
      `configured[i]`). */
  function ActiveNames(configured: seq<string>, ok: seq<bool>, available: set<string>): set<string>
    requires |ok| == |configured|
  {
    if configured == [] then {}
    else
      var k := |configured| - 1;
      ActiveNames(configured[..k], ok[..k], available)
        + (if configured[k] in available && ok[k] then {configured[k]} else {})
  }

  /** A name is active exactly when some configured entry names it, the
      registry has it, and that entry's `Initialize` succeeded; in
      particular unknown names are ignored. */
  lemma {:induction false} ActiveNamesMembers(configured: seq<string>, ok: seq<bool>, available: set<string>, n: string)
    requires |ok| == |configured|
    ensures n in ActiveNames(configured, ok, available)
        <==> exists i :: 0 <= i < |configured| && configured[i] == n && n in available && ok[i]
    decreases |configured|
  {
    if configured != [] {
      var k := |configured| - 1;
      ActiveNamesMembers(configured[..k], ok[..k], available, n);
      if exists i :: 0 <= i < k && configured[..k][i] == n && n in available && ok[..k][i] {
        var i :| 0 <= i < k && configured[..k][i] == n && n in available && ok[..k][i];
        assert configured[i] == n && ok[i];
      }
      if exists i :: 0 <= i < |configured| && configured[i] == n && n in available && ok[i] {
        var i :| 0 <= i < |configured| && configured[i] == n && n in available && ok[i];
        if i < k {
          assert configured[..k][i] == n && ok[..k][i];
        }
      }
    }
  }

  /** Every active name is available. */
  lemma {:induction false} ActiveNamesAvailable(configured: seq<string>, ok: seq<bool>, available: set<string>)
    requires |ok| == |configured|
    ensures ActiveNames(configured, ok, available) <= available
    decreases |configured|
  {
    if configured != [] {
      var k := |configured| - 1;
      ActiveNamesAvailable(configured[..k], ok[..k], available);
    }
  }

  /** The activation loop: call `Initialize` on every configured sink the
      registry holds, in order, and keep those whose call succeeded. */
  method Activate(configured: seq<string>, ok: seq<bool>, registry: map<string, Sink>)
    returns (active: map<string, Sink>, calls: seq<string>)
    requires |ok| == |configured|
    ensures active.Keys == ActiveNames(configured, ok, registry.Keys)
    ensures forall n :: n in active ==> n in registry && active[n] == registry[n]
    ensures calls == InitCalls(configured, registry.Keys)
  {
    active := map[];
    calls := [];
    var i := 0;
    while i < |configured|
      invariant 0 <= i <= |configured|
      invariant active.Keys == ActiveNames(configured[..i], ok[..i], registry.Keys)
      invariant forall n :: n in active ==> n in registry && active[n] == registry[n]
      invariant calls == InitCalls(configured[..i], registry.Keys)
    {
      var name := configured[i];
      assert configured[..i + 1][..i] == configured[..i];
      assert ok[..i + 1][..i] == ok[..i];
      if name in registry {
        calls := calls + [name];
        if ok[i] {
          active := active[name := registry[name]];
        }
      }
      i := i + 1;
    }
    assert configured[..i] == configured;
    assert ok[..i] == ok;
  }

  /** What the dispatch loop receives: a deactivation notice naming a sink,
      a sample, or the closing of the sample channel. */
  datatype Event = Deactivate(name: string) | Deliver(sample: Sample) | Closed

  /** Why the dispatch loop returned: every sink was deactivated, the
      sample channel was closed, or the events ran out (the loop would
      block waiting for more). */
  datatype Stop = AllGone | ChannelClosed | Waiting

  /** Where the dispatch loop stands: how many events it consumed, the
      names still active, and why it stopped. */
  datatype DispatchEnd = DispatchEnd(consumed: nat, names: set<string>, stop: Stop)

  /** The dispatch loop from event `k` on, with `names` active. */
  function Drive(names: set<string>, events: seq<Event>, k: nat): DispatchEnd
    decreases |events| - k
  {
    if k >= |events| then DispatchEnd(k, names, Waiting)
    else
      match events[k]
      case Closed => DispatchEnd(k + 1, names, ChannelClosed)
      case Deliver(_) => Drive(names, events, k + 1)
      case Deactivate(n) =>
        if names - {n} == {} then DispatchEnd(k + 1, {}, AllGone)
        else Drive(names - {n}, events, k + 1)
  }

  /** The names the deactivation notices among `events[k..m]` carry. */
  function Deactivated(events: seq<Event>, k: nat, m: nat): set<string>
    requires k <= m <= |events|
    decreases m - k
  {
    if k == m then {}
    else (if events[k].Deactivate? then {events[k].name} else {}) + Deactivated(events, k + 1, m)
  }

  /** The dispatch loop consumes events up to the one that stops it; the
      active set only shrinks, by exactly the names deactivated on the
      way; it stops at the first closing of the channel or at the first
      deactivation that empties the set (before it the set is never
      empty), and otherwise consumes everything. */
  lemma {:induction false} DriveShape(names: set<string>, events: seq<Event>, k: nat)
    requires k <= |events|
    ensures var r := Drive(names, events, k);
      && k <= r.consumed <= |events|
      && r.names == names - Deactivated(events, k, r.consumed)
      && (forall j :: k <= j < r.consumed - 1 ==> !events[j].Closed?)
      && (r.stop == ChannelClosed <==> r.consumed > k && events[r.consumed - 1].Closed?)
      && (r.stop == AllGone ==> r.consumed > k && events[r.consumed - 1].Deactivate? && r.names == {})
      && (r.stop == Waiting ==> r.consumed == |events|)
      && (names != {} && r.stop != AllGone ==> r.names != {})
      && (names != {} ==> forall m :: k < m < r.consumed ==> names - Deactivated(events, k, m) != {})
    decreases |events| - k
  {
    if k < |events| {
      match events[k]
      case Closed =>
        assert Deactivated(events, k + 1, k + 1) == {};
      case Deliver(_) =>
        DriveShape(names, events, k + 1);
        var r := Drive(names, events, k + 1);
        forall m | k < m < r.consumed && names != {} ensures names - Deactivated(events, k, m) != {} {
          assert Deactivated(events, k, m) == Deactivated(events, k + 1, m);
          if m == k + 1 {
            assert Deactivated(events, k + 1, k + 1) == {};
          }
        }
      case Deactivate(n) =>
        if names - {n} == {} {
          assert Deactivated(events, k, k + 1) == {n};
        } else {
          DriveShape(names - {n}, events, k + 1);
          var r := Drive(names - {n}, events, k + 1);
          forall m | k < m < r.consumed ensures names - Deactivated(events, k, m) != {} {
            assert Deactivated(events, k, m) == {n} + Deactivated(events, k + 1, m);
            if m == k + 1 {
              assert Deactivated(events, k + 1, k + 1) == {};
            } else {
              assert names - Deactivated(events, k, m) == (names - {n}) - Deactivated(events, k + 1, m);
            }
          }
        }
    }
  }

  /** With a non-empty active set, the loop stops for lack of sinks exactly
      when the set becomes empty. */
  lemma AllGoneExactly(names: set<string>, events: seq<Event>)
    requires names != {}
    ensures Drive(names, events, 0).stop == AllGone <==> Drive(names, events, 0).names == {}
  {
    DriveShape(names, events, 0);
  }
}
