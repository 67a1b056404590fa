/** The program object: the outputter registry, the active sinks shared by
    the reader, the dispatcher and the cleanup, the once-only cleanup
    latch, and the effects the program has on the outside world, recorded
    in order. */
module Engine {
  import opened Wire
  import opened Telemetry
  import opened Outputters

  /** What the program does to the outside world. */
  datatype Effect =
    | Initialize(name: string)
    | Cancel
    | Close(name: string)
    | Output(name: string, sample: Sample)
    | Write(frame: string)

  /** The effects of the cleanup, which must never happen twice. */
  predicate OnceOnly(e: Effect) {
    e.Cancel? || e.Close?
  }

  /** No once-only effect occurs twice in `t`. */
  predicate NoRepeats(t: seq<Effect>) {
    forall i, j :: 0 <= i < j < |t| && OnceOnly(t[i]) ==> t[i] != t[j]
  }

  /** `t` holds no once-only effect. */
  predicate Unmarked(t: seq<Effect>) {
    forall i :: 0 <= i < |t| ==> !OnceOnly(t[i])
  }

  function Closes(ns: seq<string>): (es: seq<Effect>)
    ensures |es| == |ns|
  {
    seq(|ns|, i requires 0 <= i < |ns| => Close(ns[i]))
  }

  function Outputs(ns: seq<string>, d: Sample): (es: seq<Effect>)
    ensures |es| == |ns|
  {
    seq(|ns|, i requires 0 <= i < |ns| => Output(ns[i], d))
  }

  function Inits(ns: seq<string>): (es: seq<Effect>)
    ensures |es| == |ns|
  {
    seq(|ns|, i requires 0 <= i < |ns| => Initialize(ns[i]))
  }

  /** The STP write the cleanup makes when the serial port has been opened. */
  function StopWrite(portOpen: bool): seq<Effect> {
    if portOpen then [Write(Frame(CommandSTP))] else []
  }

  /** What a call of the cleanup adds to the effects `before`: nothing if
      it already ran; otherwise a cancel, a close of every active sink
      exactly once, and the STP write if the port is open. */
  ghost predicate CleanupEffects(before: seq<Effect>, ran: bool, after: seq<Effect>, names: set<string>, portOpen: bool) {
    && (ran ==> after == before)
    && (!ran ==> exists ns :: Enumerates(ns, names) && after == before + [Cancel] + Closes(ns) + StopWrite(portOpen))
  }

  /** Effects that are not once-only keep a trace free of repeats. */
  lemma UnmarkedAppend(t: seq<Effect>, u: seq<Effect>)
    requires NoRepeats(t) && Unmarked(u)
    ensures NoRepeats(t + u)
  {
    forall i, j | 0 <= i < j < |t + u| && OnceOnly((t + u)[i]) ensures (t + u)[i] != (t + u)[j] {
      if j >= |t| {
        assert (t + u)[j] == u[j - |t|];
      }
    }
  }

  /** Closing distinct sinks after a cancel, on a trace with no once-only
      effect yet, leaves no repeats. */
  lemma CleanupNoRepeats(t: seq<Effect>, ns: seq<string>, portOpen: bool)
    requires Unmarked(t)
    requires forall i, j :: 0 <= i < j < |ns| ==> ns[i] != ns[j]
    ensures NoRepeats(t + [Cancel] + Closes(ns) + StopWrite(portOpen))
  {
    var r := [Cancel] + Closes(ns) + StopWrite(portOpen);
    assert t + [Cancel] + Closes(ns) + StopWrite(portOpen) == t + r;
    forall i, j | 0 <= i < j < |t + r| && OnceOnly((t + r)[i]) ensures (t + r)[i] != (t + r)[j] {
      assert i >= |t|;
      var a, b := i - |t|, j - |t|;
      assert (t + r)[i] == r[a] && (t + r)[j] == r[b];
      if b > |ns| {
        assert r[b] == Write(Frame(CommandSTP));
      } else if a > 0 {
        assert r[a] == Close(ns[a - 1]) && r[b] == Close(ns[b - 1]);
      }
    }
  }

  /** With no active sink, the cleanup closes nothing: it cancels and, if
      the port is open, sends STP. */
  lemma CleanupOfNothing(before: seq<Effect>, after: seq<Effect>, portOpen: bool)
    requires CleanupEffects(before, false, after, {}, portOpen)
    ensures after == before + [Cancel] + StopWrite(portOpen)
  {
    var ns :| Enumerates(ns, {}) && after == before + [Cancel] + Closes(ns) + StopWrite(portOpen);
    HeadIn(ns);
    assert Closes(ns) == [];
  }

  /** A cleanup closes only sinks that are still active: a sink removed
      by a deactivation notice before the cleanup runs is never closed. */
  lemma DeactivatedNeverClosed(before: seq<Effect>, ran: bool, after: seq<Effect>, names: set<string>, portOpen: bool, n: string)
    requires CleanupEffects(before, ran, after, names, portOpen)
    requires n !in names && Close(n) !in before
    ensures Close(n) !in after
  {
    if !ran {
      var ns :| Enumerates(ns, names) && after == before + [Cancel] + Closes(ns) + StopWrite(portOpen);
      forall i | 0 <= i < |Closes(ns)| ensures Closes(ns)[i] != Close(n) {
        assert ns[i] in ns;
      }
      assert Close(n) !in Closes(ns);
    }
  }

  /** A non-empty sequence holds its first element; called outside any
      branch, so that the empty case needs no dead branch. */
  lemma HeadIn(ns: seq<string>)
    ensures ns == [] || ns[0] in ns
  {
  }

  class Chissoku {
    /** The registry of available sinks; empty until registered. */
    var outputters: map<string, Sink>
    var registered: bool
    /** The active sinks, shared by the dispatcher and the cleanup. */
    var active: map<string, Sink>
    /** Whether the activation hook has installed the cleanup. */
    var armed: bool
    /** Whether the serial port has been opened. */
    var portOpen: bool
    /** Whether the once-only cleanup has run. */
    var ran: bool
    /** Every effect so far, in order. */
    var trace: seq<Effect>

    ghost predicate Valid()
      reads this
    {
      && outputters == (if registered then Registry() else map[])
      && (forall n :: n in active ==> n in outputters && active[n] == outputters[n])
      && (ran <==> Cancel in trace)
      && NoRepeats(trace)
      && (!ran ==> Unmarked(trace))
    }

    /** The zero value of the program object. */
    constructor ()
      ensures Valid()
      ensures !registered && active == map[] && !armed && !portOpen && !ran && trace == []
    {
      outputters := map[];
      registered := false;
      active := map[];
      armed := false;
      portOpen := false;
      ran := false;
      trace := [];
    }

    /** Register every sink field under its name and report the names: on
        the first call in field order, afterwards the registry's keys in
        map order. */
    method RegisterOutputters() returns (names: seq<string>)
      requires Valid()
      modifies this
      ensures Valid() && registered && outputters == Registry()
      ensures Enumerates(names, outputters.Keys)
      ensures !old(registered) ==> names == FieldNames()
      ensures active == old(active) && armed == old(armed) && portOpen == old(portOpen)
      ensures ran == old(ran) && trace == old(trace)
    {
      if registered {
        names := Enumerate(outputters.Keys);
        return;
      }
      outputters := map[];
      names := [];
      var i := 0;
      while i < |Fields|
        invariant i <= |Fields|
        invariant outputters == RegistryOf(Fields[..i])
        invariant names == FieldNames()[..i]
        invariant active == old(active) && ran == old(ran) && trace == old(trace)
        invariant armed == old(armed) && portOpen == old(portOpen) && !registered
      {
        var f := Fields[i];
        assert Fields[..i + 1][..i] == Fields[..i];
        names := names + [SinkName(f)];
        outputters := outputters[SinkName(f) := f];
        i := i + 1;
      }
      assert Fields[..i] == Fields;
      assert FieldNames()[..i] == FieldNames();
      registered := true;
      FieldNamesEnumerate();
    }

    /** The activation hook: initialize every configured sink the registry
        holds, keep those whose initialization succeeded (`ok[i]` is the
        outcome for `configured[i]`), fail when none is left, and
        otherwise store them as the active set and install the cleanup. */
    method AfterApply(configured: seq<string>, ok: seq<bool>) returns (err: bool)
      requires Valid() && |ok| == |configured|
      modifies this
      ensures Valid()
      ensures err <==> ActiveNames(configured, ok, outputters.Keys) == {}
      ensures err ==> active == old(active) && armed == old(armed)
      ensures !err ==> armed && active.Keys == ActiveNames(configured, ok, outputters.Keys)
      ensures forall n :: n in active ==> n in outputters && active[n] == outputters[n]
      ensures trace == old(trace) + Inits(InitCalls(configured, outputters.Keys))
      ensures outputters == old(outputters) && registered == old(registered)
      ensures portOpen == old(portOpen) && ran == old(ran)
    {
      var a, calls := Activate(configured, ok, outputters);
      trace := trace + Inits(calls);
      assert Unmarked(Inits(calls));
      UnmarkedAppend(old(trace), Inits(calls));
      if a == map[] {
        return true;
      }
      active := a;
      armed := true;
      err := false;
    }

    /** The serial port has been opened. */
    method OpenPort()
      requires Valid()
      modifies this
      ensures Valid() && portOpen
      ensures outputters == old(outputters) && registered == old(registered) && active == old(active)
      ensures armed == old(armed) && ran == old(ran) && trace == old(trace)
    {
      portOpen := true;
    }

    /** The cleanup, guarded so that it runs at most once: cancel the
        context, close every active sink, and send STP if the port is
        open. */
    method Cleanup()
      requires Valid() && armed
      modifies this
      ensures Valid() && ran
      ensures CleanupEffects(old(trace), old(ran), trace, active.Keys, portOpen)
      ensures outputters == old(outputters) && registered == old(registered) && active == old(active)
      ensures armed == old(armed) && portOpen == old(portOpen)
    {
      if ran {
        return;
      }
      ran := true;
      trace := trace + [Cancel];
      var ns := Enumerate(active.Keys);
      var i := 0;
      while i < |ns|
        invariant i <= |ns|
        invariant trace == old(trace) + [Cancel] + Closes(ns[..i])
        invariant ran && active == old(active) && portOpen == old(portOpen)
        invariant outputters == old(outputters) && registered == old(registered) && armed == old(armed)
      {
        assert Closes(ns[..i + 1]) == Closes(ns[..i]) + [Close(ns[i])];
        trace := trace + [Close(ns[i])];
        i := i + 1;
      }
      assert ns[..i] == ns;
      if portOpen {
        trace := trace + [Write(Frame(CommandSTP))];
      }
      CleanupNoRepeats(old(trace), ns, portOpen);
    }

    /** One turn of the dispatch loop: a deactivation notice, a sample, or
        the closing of the sample channel, which ends the loop. `done` says
        the loop returns. */
    method Handle(e: Event) returns (done: bool)
      requires Valid() && armed
      modifies this
      ensures Valid() && armed
      ensures outputters == old(outputters) && registered == old(registered) && portOpen == old(portOpen)
      ensures e.Closed? ==> done && active == old(active) && ran == old(ran) && trace == old(trace)
      ensures e.Deliver? ==> (&& !done && active == old(active) && ran == old(ran)
                              && exists ns :: Enumerates(ns, active.Keys) && trace == old(trace) + Outputs(ns, e.sample))
      ensures e.Deactivate? ==> (&& active == old(active) - {e.name}
                                 && (done <==> active == map[])
                                 && (!done ==> ran == old(ran) && trace == old(trace))
                                 && (done ==> ran && trace == old(trace) + (if old(ran) then [] else [Cancel] + StopWrite(portOpen))))
    {
      match e
      case Closed =>
        done := true;
      case Deactivate(name) =>
        done := Deactivate(name);
      case Deliver(d) =>
        Deliver(d);
        done := false;
    }

    /** A deactivation notice: delete the sink from the shared active map
        in place; when none is left, run the cleanup, which then finds
        nothing to close, and end the loop. */
    method Deactivate(name: string) returns (done: bool)
      requires Valid() && armed
      modifies this
      ensures Valid() && armed
      ensures outputters == old(outputters) && registered == old(registered) && portOpen == old(portOpen)
      ensures active == old(active) - {name}
      ensures done <==> active == map[]
      ensures !done ==> ran == old(ran) && trace == old(trace)
      ensures done ==> ran && trace == old(trace) + (if old(ran) then [] else [Cancel] + StopWrite(portOpen))
    {
      active := active - {name};
      if active == map[] {
        Cleanup();
        if !old(ran) {
          CleanupOfNothing(old(trace), trace, portOpen);
        }
        done := true;
      } else {
        done := false;
      }
    }

    /** A sample: hand it to every active sink, in map order. */
    method Deliver(d: Sample)
      requires Valid()
      modifies this
      ensures Valid()
      ensures outputters == old(outputters) && registered == old(registered) && portOpen == old(portOpen)
      ensures active == old(active) && armed == old(armed) && ran == old(ran)
      ensures exists ns :: Enumerates(ns, active.Keys) && trace == old(trace) + Outputs(ns, d)
    {
      var ns := Enumerate(active.Keys);
      var i := 0;
      while i < |ns|
        invariant i <= |ns|
        invariant trace == old(trace) + Outputs(ns[..i], d)
        invariant active == old(active) && ran == old(ran) && portOpen == old(portOpen)
        invariant outputters == old(outputters) && registered == old(registered) && armed == old(armed)
      {
        assert Outputs(ns[..i + 1], d) == Outputs(ns[..i], d) + [Output(ns[i], d)];
        trace := trace + [Output(ns[i], d)];
        i := i + 1;
      }
      assert ns[..i] == ns;
      assert Unmarked(Outputs(ns, d));
      UnmarkedAppend(old(trace), Outputs(ns, d));
    }

    /** The dispatch loop over the events it receives, in order: it stops
        at the closing of the sample channel or when the last active sink
        is deactivated, where it has run the cleanup. */
    method Dispatch(events: seq<Event>) returns (consumed: nat)
      requires Valid() && armed
      modifies this
      ensures Valid() && armed
      ensures outputters == old(outputters) && registered == old(registered) && portOpen == old(portOpen)
      ensures var r := Drive(old(active).Keys, events, 0);
        && consumed == r.consumed && active.Keys == r.names
        && (r.stop == AllGone ==> ran)
        && (r.stop != AllGone ==> ran == old(ran))
      ensures forall n :: n in active ==> n in old(active) && active[n] == old(active)[n]
    {
      consumed := 0;
      while consumed < |events|
        invariant consumed <= |events|
        invariant Valid() && armed && ran == old(ran)
        invariant outputters == old(outputters) && registered == old(registered) && portOpen == old(portOpen)
        invariant Drive(old(active).Keys, events, 0) == Drive(active.Keys, events, consumed)
        invariant forall n :: n in active ==> n in old(active) && active[n] == old(active)[n]
      {
        var e := events[consumed];
        var done := Handle(e);
        consumed := consumed + 1;
        if done {
          return;
        }
      }
    }

    /** The reader: classify the scanner's lines from `from` on, as the
        telemetry reader does, and when the scanner stops on an error run
        the cleanup. The samples are what the reader sends on to the
        dispatcher, in order. */
    method ReadDevice(lines: seq<string>, from: nat, scanErr: bool, tags: seq<string>)
      returns (samples: seq<Sample>, end: ReadEnd, stop: nat)
      requires Valid() && armed && from <= |lines|
      modifies this
      ensures Valid() && armed
      ensures ReadResult(samples, end, stop) == ReadFrom(Kinds(lines, tags), from, scanErr)
      ensures outputters == old(outputters) && registered == old(registered)
      ensures active == old(active) && portOpen == old(portOpen)
      ensures end == ScanFailed ==> ran && CleanupEffects(old(trace), old(ran), trace, active.Keys, portOpen)
      ensures end != ScanFailed ==> ran == old(ran) && trace == old(trace)
    {
      samples, end, stop := ReadLoop(lines, from, scanErr, tags);
      if end == ScanFailed {
        Cleanup();
      }
    }
  }
}
