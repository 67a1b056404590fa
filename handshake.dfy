/** The start-up handshake (`prepareDevice`): write STP, ID? and STA in
    turn; after each write, read response lines until one starts with "OK"
    (next command) or "NG" (abort); other lines are device chatter and are
    skipped. The line source is the scanner the telemetry reader goes on
    using, so the handshake reports how far into it it has read. */
module Handshake {
  import opened Wire

  /** How a handshake ends. A failed write returns the port's own error,
      which does not name the command; an NG response returns an error
      naming it. `Panic` is the run-time panic of slicing the first two
      bytes of a line shorter than two bytes. */
  datatype Outcome =
    | Ready
    | WriteFailed
    | CommandFailed(cmd: string)
    | Panic

  /** The outcome, how many commands were attempted (the length of the
      `do` slice), how many of them were written to the port, and the
      position of the first line the handshake did not consume. */
  datatype Handshake = Handshake(outcome: Outcome, sent: nat, written: nat, next: nat)

  /** How the wait for one response ends: on an OK line, on an NG line, on
      a line too short to slice, or because the line source ran out;
      `next` is the position after the line that ended it. */
  datatype Reply =
    | Acked(next: nat)
    | Rejected(next: nat)
    | ShortLine(next: nat)
    | Exhausted

  predicate IsAck(line: string) { |line| >= 2 && line[..2] == ResponseOK }
  predicate IsNak(line: string) { |line| >= 2 && line[..2] == ResponseNG }
  /** A line the wait skips: long enough to slice, neither OK nor NG. */
  predicate IsChatter(line: string) { |line| >= 2 && !IsAck(line) && !IsNak(line) }

  /** Every line in `lines[from..to]` is chatter. */
  predicate ChatterBetween(lines: seq<string>, from: nat, to: nat)
    requires from <= to <= |lines|
  {
    forall i :: from <= i < to ==> IsChatter(lines[i])
  }

  /** The wait for one response, reading lines from position `pos`. */
  function AwaitReply(lines: seq<string>, pos: nat): Reply
    decreases |lines| - pos
  {
    if pos >= |lines| then Exhausted
    else if |lines[pos]| < 2 then ShortLine(pos + 1)
    else if lines[pos][..2] == ResponseOK then Acked(pos + 1)
    else if lines[pos][..2] == ResponseNG then Rejected(pos + 1)
    else AwaitReply(lines, pos + 1)
  }

  /** The handshake from command `k` on, reading lines from `pos`.
      `failAt` is the index of the command whose write to the port fails,
      if any. When the line source runs out while waiting, the next command
      is sent regardless. */
  function Run(cmds: seq<string>, lines: seq<string>, k: nat, pos: nat, failAt: Option<nat>): Handshake
    decreases |cmds| - k
  {
    if k >= |cmds| then Handshake(Ready, k, k, pos)
    else if failAt == Some(k) then Handshake(WriteFailed, k + 1, k, pos)
    else
      match AwaitReply(lines, pos)
      case Acked(next) => Run(cmds, lines, k + 1, next, failAt)
      case Exhausted => Run(cmds, lines, k + 1, |lines|, failAt)
      case Rejected(next) => Handshake(CommandFailed(cmds[k]), k + 1, k + 1, next)
      case ShortLine(next) => Handshake(Panic, k + 1, k + 1, next)
  }

  /** The whole handshake on the scanner's lines. */
  function Prepare(lines: seq<string>, failAt: Option<nat>): Handshake {
    Run(Commands, lines, 0, 0, failAt)
  }

  /** `prepareDevice`: send STP, ID? and STA, waiting for the response to
      each, on the lines the scanner yields. Returns the outcome, the `do`
      slice, the frames written to the port and the scanner position. */
  method PrepareDevice(lines: seq<string>, failAt: Option<nat>)
    returns (outcome: Outcome, attempted: seq<string>, written: seq<string>, pos: nat)
    ensures var h := Prepare(lines, failAt);
      && h.written <= h.sent <= |Commands|
      && outcome == h.outcome && pos == h.next
      && attempted == Commands[..h.sent] && written == Frames(Commands[..h.written])
  {
    outcome, attempted, written, pos := SendCommands(Commands, lines, failAt);
  }

  /** The command loop of `prepareDevice`: append the command to `do`,
      write it, then wait for its response. */
  method SendCommands(cmds: seq<string>, lines: seq<string>, failAt: Option<nat>)
    returns (outcome: Outcome, attempted: seq<string>, written: seq<string>, pos: nat)
    ensures var h := Run(cmds, lines, 0, 0, failAt);
      && h.written <= h.sent <= |cmds|
      && outcome == h.outcome && pos == h.next
      && attempted == cmds[..h.sent] && written == Frames(cmds[..h.written])
  {
    attempted, written, pos := [], [], 0;
    var k := 0;
    while k < |cmds|
      invariant k <= |cmds| && pos <= |lines|
      invariant attempted == cmds[..k] && written == Frames(cmds[..k])
      invariant Run(cmds, lines, 0, 0, failAt) == Run(cmds, lines, k, pos, failAt)
    {
      var cmd := cmds[k];
      attempted := attempted + [cmd];
      assert attempted == cmds[..k + 1];
      if failAt == Some(k) {
        outcome := WriteFailed;
        return;
      }
      written := written + [Frame(cmd)];
      assert written == Frames(cmds[..k + 1]);
      var reply;
      reply, pos := AwaitResponse(lines, pos);
      if reply.ShortLine? {
        outcome := Panic;
        return;
      } else if reply.Rejected? {
        outcome := CommandFailed(cmd);
        return;
      }
      k := k + 1;
    }
    outcome := Ready;
  }

  /** The response-waiting loop nested in `prepareDevice`: read lines until
      one starts with OK or NG (or is too short to slice), or the line
      source runs out. */
  method AwaitResponse(lines: seq<string>, from: nat) returns (reply: Reply, pos: nat)
    requires from <= |lines|
    ensures from <= pos <= |lines|
    ensures reply == AwaitReply(lines, from)
    ensures reply.Exhausted? ==> pos == |lines|
    ensures !reply.Exhausted? ==> pos == reply.next
  {
    pos := from;
    while pos < |lines|
      invariant from <= pos <= |lines|
      invariant AwaitReply(lines, from) == AwaitReply(lines, pos)
    {
      var t := lines[pos];
      pos := pos + 1;
      if |t| < 2 {
        return ShortLine(pos), pos;
      } else if t[..2] == ResponseOK {
        return Acked(pos), pos;
      } else if t[..2] == ResponseNG {
        return Rejected(pos), pos;
      }
    }
    reply := Exhausted;
  }

  /** Every handshake from command `k` attempts at least that command
      (when there is one) and at most all of them; only a failed write
      leaves its command unwritten; success means every command was
      attempted; the NG error names the last command attempted; a failed
      write stops right after the command whose write failed; and the
      scanner never moves backwards or past the end. */
  lemma {:induction false} RunShape(cmds: seq<string>, lines: seq<string>, k: nat, pos: nat, failAt: Option<nat>)
    requires k <= |cmds| && pos <= |lines|
    ensures var h := Run(cmds, lines, k, pos, failAt);
      && k <= h.sent <= |cmds| && pos <= h.next <= |lines|
      && (k < |cmds| ==> k < h.sent)
      && (h.outcome.WriteFailed? <==> h.written + 1 == h.sent)
      && (!h.outcome.WriteFailed? <==> h.written == h.sent)
      && (h.outcome.Ready? ==> h.sent == |cmds|)
      && (h.outcome.CommandFailed? ==> h.outcome.cmd == cmds[h.sent - 1])
      && (failAt.Some? && k <= failAt.value < h.sent ==> h.outcome == WriteFailed && h.sent == failAt.value + 1)
    decreases |cmds| - k
  {
    if k < |cmds| && failAt != Some(k) {
      match AwaitReply(lines, pos)
      case Acked(next) =>
        AwaitBounds(lines, pos);
        RunShape(cmds, lines, k + 1, next, failAt);
      case Exhausted =>
        RunShape(cmds, lines, k + 1, |lines|, failAt);
      case Rejected(next) =>
        AwaitBounds(lines, pos);
      case ShortLine(next) =>
        AwaitBounds(lines, pos);
    }
  }

  /** A wait ends within the line source, after the line it started at. */
  lemma {:induction false} AwaitBounds(lines: seq<string>, pos: nat)
    ensures var r := AwaitReply(lines, pos);
      !r.Exhausted? ==> pos < r.next <= |lines|
    decreases |lines| - pos
  {
    if pos < |lines| {
      AwaitBounds(lines, pos + 1);
    }
  }

  /** The general shape of the whole handshake: `do` is [STP], [STP, ID?]
      or [STP, ID?, STA]; success means all three were attempted and
      written; the NG error names the last command in `do`; only a failed
      write leaves its command off the port. */
  lemma PrepareShape(lines: seq<string>, failAt: Option<nat>)
    ensures var h := Prepare(lines, failAt);
      && 1 <= h.sent <= 3 && h.next <= |lines|
      && (h.outcome.Ready? ==> h.sent == h.written == 3)
      && (h.outcome.CommandFailed? ==> h.outcome.cmd == Commands[h.sent - 1])
      && (h.outcome.WriteFailed? <==> h.written + 1 == h.sent)
      && (!h.outcome.WriteFailed? <==> h.written == h.sent)
  {
    RunShape(Commands, lines, 0, 0, failAt);
  }

  /** The wait that starts at `from` skips chatter up to `to` and ends on
      the OK line at `to`. */
  predicate AckedAt(lines: seq<string>, from: nat, to: nat) {
    from <= to < |lines| && ChatterBetween(lines, from, to) && IsAck(lines[to])
  }

  /** A wait over chatter ends on the first OK, NG or too-short line. */
  lemma {:induction false} AwaitSkips(lines: seq<string>, from: nat, to: nat)
    requires from <= to < |lines| && ChatterBetween(lines, from, to)
    requires !IsChatter(lines[to])
    ensures AwaitReply(lines, from) == AwaitReply(lines, to)
    decreases |lines| - from
  {
    if from < to {
      AwaitSkips(lines, from + 1, to);
    }
  }

  /** A wait over nothing but chatter runs out of lines. */
  lemma {:induction false} AwaitChatter(lines: seq<string>, from: nat)
    requires from <= |lines| && ChatterBetween(lines, from, |lines|)
    ensures AwaitReply(lines, from) == Exhausted
    decreases |lines| - from
  {
    if from < |lines| {
      AwaitChatter(lines, from + 1);
    }
  }

  /** The waits for the first `|ends|` commands each end on an OK line:
      the i-th at `ends[i]`, starting just after the previous one. */
  predicate AckedChain(lines: seq<string>, ends: seq<nat>) {
    forall i {:trigger WaitStart(ends, i)} :: 0 <= i < |ends| ==> AckedAt(lines, WaitStart(ends, i), ends[i])
  }

  /** Where the wait for command `i` starts reading. */
  function WaitStart(ends: seq<nat>, i: nat): nat
    requires i <= |ends|
  {
    if i == 0 then 0 else ends[i - 1] + 1
  }

  /** The position just after the last acknowledged response. */
  function After(ends: seq<nat>): nat {
    if ends == [] then 0 else ends[|ends| - 1] + 1
  }

  /** Acknowledged commands move the handshake on to the next command,
      reading from just after the OK line. */
  lemma {:induction false} AckedChainRuns(cmds: seq<string>, lines: seq<string>, ends: seq<nat>, failAt: Option<nat>)
    requires |ends| <= |cmds| && AckedChain(lines, ends)
    requires failAt.Some? ==> |ends| <= failAt.value
    ensures After(ends) <= |lines|
    ensures Run(cmds, lines, 0, 0, failAt) == Run(cmds, lines, |ends|, After(ends), failAt)
    decreases |ends|
  {
    if ends != [] {
      var k := |ends| - 1;
      var prefix := ends[..k];
      assert AckedChain(lines, prefix) by {
        forall i | 0 <= i < |prefix| ensures AckedAt(lines, WaitStart(prefix, i), prefix[i]) {
          assert prefix[i] == ends[i];
          assert WaitStart(prefix, i) == WaitStart(ends, i);
        }
      }
      AckedChainRuns(cmds, lines, prefix, failAt);
      assert AckedAt(lines, WaitStart(ends, k), ends[k]);
      assert After(prefix) == WaitStart(ends, k);
      AwaitSkips(lines, After(prefix), ends[k]);
    }
  }

  /** When every wait ends on an OK line and no write fails, the handshake
      is ready, `do` is [STP, ID?, STA], exactly those three frames are
      written in that order, and the scanner is left just after the third
      OK line. */
  lemma AllAcknowledged(lines: seq<string>, ends: seq<nat>)
    requires |ends| == 3 && AckedChain(lines, ends)
    ensures var h := Prepare(lines, None);
      && h == Handshake(Ready, 3, 3, ends[2] + 1)
      && Commands[..h.sent] == [CommandSTP, CommandID, CommandSTA]
      && Frames(Commands[..h.written]) == ["STP\r\n", "ID?\r\n", "STA\r\n"]
  {
    AckedChainRuns(Commands, lines, ends, None);
    var h := Prepare(lines, None);
    assert h == Handshake(Ready, 3, 3, ends[2] + 1);
    assert Commands[..3] == Commands;
    assert Frame(CommandSTP) == "STP\r\n";
    assert Frame(CommandID) == "ID?\r\n";
    assert Frame(CommandSTA) == "STA\r\n";
    assert Frames(Commands) == [Frame(CommandSTP), Frame(CommandID), Frame(CommandSTA)];
  }

  /** If the first `k` commands are acknowledged and the response to
      command `k` starts with NG, the handshake fails naming command `k`,
      `do` ends with it, and nothing is written after it. */
  lemma RejectedAt(lines: seq<string>, ends: seq<nat>, ng: nat)
    requires |ends| < 3 && AckedChain(lines, ends)
    requires After(ends) <= ng < |lines| && ChatterBetween(lines, After(ends), ng) && IsNak(lines[ng])
    ensures var k := |ends|;
      Prepare(lines, None) == Handshake(CommandFailed(Commands[k]), k + 1, k + 1, ng + 1)
  {
    AckedChainRuns(Commands, lines, ends, None);
    AwaitSkips(lines, After(ends), ng);
  }

  /** If the write of command `k` fails after the first `k` were
      acknowledged, the handshake returns that write error at once: `do`
      ends with that command and only the `k` earlier frames were written. */
  lemma WriteFailsAt(lines: seq<string>, ends: seq<nat>)
    requires |ends| < 3 && AckedChain(lines, ends)
    ensures var k := |ends|;
      Prepare(lines, Some(k)) == Handshake(WriteFailed, k + 1, k, After(ends))
  {
    AckedChainRuns(Commands, lines, ends, Some(|ends|));
  }

  /** If the line source runs out while the handshake waits (nothing but
      chatter after the acknowledged commands), the remaining commands are
      still written, each without waiting, and the handshake reports
      success. */
  lemma SilentEnd(lines: seq<string>, ends: seq<nat>)
    requires |ends| < 3 && AckedChain(lines, ends)
    requires After(ends) <= |lines| && ChatterBetween(lines, After(ends), |lines|)
    ensures Prepare(lines, None) == Handshake(Ready, 3, 3, |lines|)
  {
    AckedChainRuns(Commands, lines, ends, None);
    AwaitChatter(lines, After(ends));
    RunsOut(Commands, lines, |ends| + 1);
  }

  /** With the line source used up, every remaining command is written
      without waiting and the handshake succeeds. */
  lemma {:induction false} RunsOut(cmds: seq<string>, lines: seq<string>, k: nat)
    requires k <= |cmds|
    ensures Run(cmds, lines, k, |lines|, None) == Handshake(Ready, |cmds|, |cmds|, |lines|)
    decreases |cmds| - k
  {
    if k < |cmds| {
      RunsOut(cmds, lines, k + 1);
    }
  }

  /** A response line shorter than two bytes is sliced out of range: the
      handshake panics after writing the command it was waiting on. */
  lemma ShortLinePanics(lines: seq<string>, ends: seq<nat>, short: nat)
    requires |ends| < 3 && AckedChain(lines, ends)
    requires After(ends) <= short < |lines| && ChatterBetween(lines, After(ends), short) && |lines[short]| < 2
    ensures var k := |ends|;
      Prepare(lines, None) == Handshake(Panic, k + 1, k + 1, short + 1)
  {
    AckedChainRuns(Commands, lines, ends, None);
    AwaitSkips(lines, After(ends), short);
  }
}
