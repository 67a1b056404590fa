/** The UD-CO2S wire protocol: the three handshake commands, the two
    acknowledgement prefixes and the CRLF framing of every command the
    driver writes to the serial port. Lines are byte strings, one `char`
    per byte. */
module Wire {

  datatype Option<+T> = None | Some(value: T)

  const CommandSTP: string := "STP"
  const CommandID: string := "ID?"
  const CommandSTA: string := "STA"
  const ResponseOK: string := "OK"
  const ResponseNG: string := "NG"

  /** The handshake sends these, in this order. */
  const Commands: seq<string> := [CommandSTP, CommandID, CommandSTA]

  /** What goes on the wire for a command: the command and "\r\n". */
  function Frame(cmd: string): string {
    cmd + "\r\n"
  }

  /** The frames of a sequence of commands, one per command, in order. */
  function Frames(cmds: seq<string>): (fs: seq<string>)
    ensures |fs| == |cmds|
  {
    seq(|cmds|, i requires 0 <= i < |cmds| => Frame(cmds[i]))
  }

  /** Framing is injective: distinct commands never look alike on the wire,
      so a write trace determines the commands that were sent. */
  lemma FrameInjective(a: string, b: string)
    requires Frame(a) == Frame(b)
    ensures a == b
  {
    assert |a| == |b|;
    assert a == Frame(a)[..|a|];
    assert b == Frame(b)[..|b|];
  }

  /** A sequence of written frames determines the commands that were
      written, in order. */
  lemma FramesInjective(a: seq<string>, b: seq<string>)
    requires Frames(a) == Frames(b)
    ensures a == b
  {
    assert |a| == |b|;
    forall i | 0 <= i < |a| ensures a[i] == b[i] {
      assert Frames(a)[i] == Frame(a[i]) && Frames(b)[i] == Frame(b[i]);
      FrameInjective(a[i], b[i]);
    }
  }
}
