/**
 The shell's line assembler (kernel/src/core/shell.c) at the end of the input
 pipeline. What is observed is the sequence of lines handed to execute_command.
 */
module Shell {
  import opened Common
  import opened Rings
  import opened Pty
  import opened LineEditor
  import opened Tty
  import Keyboard

  /** SHELL_LINE_MAX leaves room for 127 characters and the terminator. */
  const COMMAND_MAX := 127

  // ---------------------------------------------------------------------
  // The assembler as a function of the bytes it reads
  // ---------------------------------------------------------------------

  datatype Assembler = Assembler(line: seq<Byte>, commands: seq<seq<Byte>>)

  function Take(a: Assembler, c: Byte): Assembler {
    if c == 0x03 then a.(line := [])
    else if c == 0x0C then a
    else if c == NEWLINE then Assembler([], a.commands + [a.line])
    else if c == 0x04 then a
    else if (c < 0x20 || c == 0x7F) && c != 0x09 then a
    else if |a.line| < COMMAND_MAX then a.(line := a.line + [c])
    else a
  }

  function TakeAll(a: Assembler, bytes: seq<Byte>): Assembler
    decreases |bytes|
  {
    if bytes == [] then a else TakeAll(Take(a, bytes[0]), bytes[1..])
  }

  lemma {:induction false} TakeSplit(a: Assembler, xs: seq<Byte>, ys: seq<Byte>)
    ensures TakeAll(a, xs + ys) == TakeAll(TakeAll(a, xs), ys)
    decreases |xs|
  {
    if xs == [] {
      assert xs + ys == ys;
    } else {
      assert (xs + ys)[0] == xs[0] && (xs + ys)[1..] == xs[1..] + ys;
      TakeSplit(Take(a, xs[0]), xs[1..], ys);
    }
  }

  // ---------------------------------------------------------------------
  // Polls
  // ---------------------------------------------------------------------

  /** The pipeline between two polls: discipline and queue on one side, assembler on the other. */
  datatype Pipeline = Pipeline(tty: TtyState, shell: Assembler)

  /** One shell_poll that finds these keyboard bytes: discipline them, then drain the queue. */
  function Poll(p: Pipeline, input: seq<Byte>): (r: Pipeline)
    requires |p.tty.queue| <= CAPACITY
    ensures |r.tty.queue| <= CAPACITY
  {
    var t := ReceiveAll(p.tty, input);
    Pipeline(t.(queue := []), TakeAll(p.shell, t.queue))
  }

  function PollAll(p: Pipeline, inputs: seq<seq<Byte>>): (r: Pipeline)
    requires |p.tty.queue| <= CAPACITY
    ensures |r.tty.queue| <= CAPACITY
    decreases |inputs|
  {
    if inputs == [] then p else PollAll(Poll(p, inputs[0]), inputs[1..])
  }

  function Concat(inputs: seq<seq<Byte>>): seq<Byte> {
    if inputs == [] then [] else inputs[0] + Concat(inputs[1..])
  }

  /** Every poll's deliveries fit the queue, which each poll leaves empty. */
  predicate NoOverflow(l: Line, inputs: seq<seq<Byte>>)
    decreases |inputs|
  {
    inputs != [] ==>
      && |CanonicalAll(l, inputs[0]).1| <= CAPACITY
      && NoOverflow(CanonicalAll(l, inputs[0]).0, inputs[1..])
  }

  /**
   However the keyboard stream is cut into polls, the commands executed are the
   assembler run over the discipline run over the whole stream.
   */
  lemma {:induction false} CommandsAreAFunctionOfTheStream(p: Pipeline, inputs: seq<seq<Byte>>)
    requires p.tty.queue == [] && NoOverflow(p.tty.line, inputs)
    ensures
      var (line, sent) := CanonicalAll(p.tty.line, Concat(inputs));
      var r := PollAll(p, inputs);
      && r.shell == TakeAll(p.shell, sent)
      && r.tty.line == line
      && r.tty.queue == []
      && r.tty.rejected == p.tty.rejected
    decreases |inputs|
  {
    if inputs != [] {
      var first, rest := inputs[0], inputs[1..];
      var (l1, s1) := CanonicalAll(p.tty.line, first);
      ReceiveRefinesDiscipline(p.tty, first);
      assert [] + s1[..|s1|] == s1;
      var q := Poll(p, first);
      CommandsAreAFunctionOfTheStream(q, rest);
      CanonicalSplit(p.tty.line, first, Concat(rest));
      TakeSplit(p.shell, s1, CanonicalAll(l1, Concat(rest)).1);
    }
  }

  lemma {:induction false} ShortPollsDoNotOverflow(l: Line, inputs: seq<seq<Byte>>)
    requires LineOk(l)
    requires forall i :: 0 <= i < |inputs| ==> |inputs[i]| <= 1537
    ensures NoOverflow(l, inputs)
    decreases |inputs|
  {
    if inputs != [] {
      DeliveryIsBounded(l, inputs[0]);
      DeliveryIsSafe(l, inputs[0]);
      ShortPollsDoNotOverflow(CanonicalAll(l, inputs[0]).0, inputs[1..]);
    }
  }

  /** With polls of at most 1537 bytes, two ways of cutting one stream execute the same commands. */
  lemma CuttingDoesNotMatter(p: Pipeline, inputs: seq<seq<Byte>>, inputs': seq<seq<Byte>>)
    requires p.tty.queue == [] && LineOk(p.tty.line)
    requires forall i :: 0 <= i < |inputs| ==> |inputs[i]| <= 1537
    requires forall i :: 0 <= i < |inputs'| ==> |inputs'[i]| <= 1537
    requires Concat(inputs) == Concat(inputs')
    ensures PollAll(p, inputs).shell == PollAll(p, inputs').shell
  {
    ShortPollsDoNotOverflow(p.tty.line, inputs);
    ShortPollsDoNotOverflow(p.tty.line, inputs');
    CommandsAreAFunctionOfTheStream(p, inputs);
    CommandsAreAFunctionOfTheStream(p, inputs');
  }

  /**
   From the interrupts to the commands: for any interleaving of interrupts and
   pops, if the polls consume what was popped in pieces of at most 1537 bytes,
   the commands are those of an initial part of the accepted key bytes.
   */
  lemma KeystrokesToCommands(actions: seq<Keyboard.Action>, p: Pipeline, inputs: seq<seq<Byte>>)
    requires p.tty.queue == [] && LineOk(p.tty.line)
    requires Concat(inputs) == Keyboard.Run(Keyboard.Start(), actions).popped
    requires forall i :: 0 <= i < |inputs| ==> |inputs[i]| <= 1537
    ensures
      var s := Keyboard.Run(Keyboard.Start(), actions);
      && |s.popped| <= |s.accepted|
      && PollAll(p, inputs).shell == TakeAll(p.shell, CanonicalAll(p.tty.line, s.accepted[..|s.popped|]).1)
  {
    Keyboard.EveryInterleavingIsFifo(actions);
    ShortPollsDoNotOverflow(p.tty.line, inputs);
    CommandsAreAFunctionOfTheStream(p, inputs);
  }

  // ---------------------------------------------------------------------
  // What a command is
  // ---------------------------------------------------------------------

  predicate CommandOk(c: seq<Byte>) {
    |c| <= COMMAND_MAX && forall i :: 0 <= i < |c| ==> Text(c[i])
  }

  predicate AssemblerOk(a: Assembler) {
    CommandOk(a.line) && forall i :: 0 <= i < |a.commands| ==> CommandOk(a.commands[i])
  }

  /** Whatever is read, a command is at most 127 bytes of text: no control byte, no terminator inside. */
  lemma {:induction false} CommandsAreText(a: Assembler, bytes: seq<Byte>)
    requires AssemblerOk(a)
    ensures AssemblerOk(TakeAll(a, bytes))
    ensures a.commands <= TakeAll(a, bytes).commands
    decreases |bytes|
  {
    if bytes != [] {
      CommandsAreText(Take(a, bytes[0]), bytes[1..]);
    }
  }

  lemma {:induction false} TakingText(a: Assembler, text: seq<Byte>)
    requires |a.line| <= COMMAND_MAX
    requires forall i :: 0 <= i < |text| ==> Text(text[i])
    ensures TakeAll(a, text) == a.(line := a.line + text[..Min(|text|, COMMAND_MAX - |a.line|)])
    decreases |text|
  {
    if text == [] {
      assert a.line + text == a.line;
    } else {
      var next := Take(a, text[0]);
      TakingText(next, text[1..]);
      assert next.line + text[1..][..Min(|text| - 1, COMMAND_MAX - |next.line|)]
          == a.line + text[..Min(|text|, COMMAND_MAX - |a.line|)];
    }
  }

  /** The bytes that mean anything to the shell: text, Ctrl-C and newline. */
  function Meant(bytes: seq<Byte>): seq<Byte> {
    if bytes == [] then []
    else (if Text(bytes[0]) || bytes[0] == 0x03 || bytes[0] == NEWLINE then [bytes[0]] else []) + Meant(bytes[1..])
  }

  /** All others, Ctrl-D and Ctrl-L among them, change neither the line nor the commands. */
  lemma {:induction false} OtherBytesDoNotMatter(a: Assembler, bytes: seq<Byte>)
    ensures TakeAll(a, bytes) == TakeAll(a, Meant(bytes))
    decreases |bytes|
  {
    if bytes != [] {
      var b, rest := bytes[0], bytes[1..];
      OtherBytesDoNotMatter(Take(a, b), rest);
      if Text(b) || b == 0x03 || b == NEWLINE {
        assert Meant(bytes)[0] == b && Meant(bytes)[1..] == Meant(rest);
      } else {
        assert Meant(bytes) == Meant(rest);
      }
    }
  }

  /** What is typed on one line: text, Ctrl-D and Ctrl-L. */
  predicate OnLine(b: Byte) {
    Text(b) || b == 0x04 || b == 0x0C
  }

  function TextOf(bytes: seq<Byte>): seq<Byte> {
    if bytes == [] then [] else (if Text(bytes[0]) then [bytes[0]] else []) + TextOf(bytes[1..])
  }

  lemma {:induction false} TextOfIsText(bytes: seq<Byte>)
    ensures forall i :: 0 <= i < |TextOf(bytes)| ==> Text(TextOf(bytes)[i])
    ensures |TextOf(bytes)| <= |bytes|
  {
    if bytes != [] {
      TextOfIsText(bytes[1..]);
    }
  }

  lemma TakeOne(a: Assembler, b: Byte, rest: seq<Byte>)
    ensures TakeAll(a, [b] + rest) == TakeAll(Take(a, b), rest)
  {
    assert ([b] + rest)[1..] == rest;
  }

  /** What the shell has after a stretch of the line, with what the TTY still holds of it. */
  lemma {:induction false} ControlsOnlyDeliver(a: Assembler, held: seq<Byte>, bytes: seq<Byte>)
    requires |held| + |bytes| < LINE_MAX && forall i :: 0 <= i < |bytes| ==> OnLine(bytes[i])
    ensures
      var (l, sent) := CanonicalAll(Line(0, held), bytes);
      && l.esc == 0 && |l.text| <= |held| + |bytes|
      && TakeAll(TakeAll(a, sent), l.text) == TakeAll(TakeAll(a, held), TextOf(bytes))
    decreases |bytes|
  {
    if bytes != [] {
      var b, rest := bytes[0], bytes[1..];
      var (l1, s1) := Canonical(Line(0, held), b);
      var a1 := TakeAll(a, s1);
      ControlsOnlyDeliver(a1, l1.text, rest);
      TakeSplit(a, s1, CanonicalAll(l1, rest).1);
      TakeOne(TakeAll(a, held), b, TextOf(rest));
      if Text(b) {
        TakeSplit(a, held, [b]);
        assert TakeAll(TakeAll(a, held), [b]) == Take(TakeAll(a, held), b);
      } else {
        assert [] + TextOf(rest) == TextOf(rest);
        assert TakeAll(a, [b]) == a;
      }
    }
  }

  /**
   A line typed with any number of Ctrl-D and Ctrl-L in between still becomes
   one command: its text, cut to 127 characters.
   */
  lemma LineWithControlsIsOneCommand(typed: seq<Byte>, done: seq<seq<Byte>>)
    requires |typed| < LINE_MAX && forall i :: 0 <= i < |typed| ==> OnLine(typed[i])
    ensures
      var sent := CanonicalAll(Line(0, []), typed + [NEWLINE]).1;
      TakeAll(Assembler([], done), sent) ==
      Assembler([], done + [TextOf(typed)[..Min(|TextOf(typed)|, COMMAND_MAX)]])
  {
    var a := Assembler([], done);
    var (l, sent) := CanonicalAll(Line(0, []), typed);
    ControlsOnlyDeliver(a, [], typed);
    CanonicalSplit(Line(0, []), typed, [NEWLINE]);
    var last := CanonicalAll(l, [NEWLINE]).1;
    assert last == (l.text + [NEWLINE]) + [];
    assert last == l.text + [NEWLINE];
    TakeSplit(a, sent, last);
    TakeSplit(TakeAll(a, sent), l.text, [NEWLINE]);
    TextOfIsText(typed);
    AssembledLine(TextOf(typed), done);
    TakeSplit(a, TextOf(typed), [NEWLINE]);
  }

  lemma TypedLineIsDelivered(typed: seq<Byte>)
    requires |typed| < LINE_MAX && forall i :: 0 <= i < |typed| ==> Text(typed[i])
    ensures CanonicalAll(Line(0, []), typed + [NEWLINE]).1 == typed + [NEWLINE]
  {
    var bytes := typed + [NEWLINE];
    assert EditAll([], bytes).sent == bytes by {
      assert typed[..Min(|typed|, LINE_MAX)] == typed;
      LineIsDeliveredTruncated(typed);
    }
    assert Strip(0, bytes) == bytes by {
      forall i | 0 <= i < |bytes| ensures bytes[i] != ESC {
        assert i < |typed| ==> bytes[i] == typed[i];
      }
      NoEscapeNoStrip(bytes);
    }
    FilterThenEdit(Line(0, []), bytes);
  }

  lemma AssembledLine(text: seq<Byte>, done: seq<seq<Byte>>)
    requires forall i :: 0 <= i < |text| ==> Text(text[i])
    ensures TakeAll(Assembler([], done), text + [NEWLINE]) ==
            Assembler([], done + [text[..Min(|text|, COMMAND_MAX)]])
  {
    var start := Assembler([], done);
    TakingText(start, text);
    TakeSplit(start, text, [NEWLINE]);
    var held := TakeAll(start, text);
    assert held.line == text[..Min(|text|, COMMAND_MAX)];
    assert TakeAll(held, [NEWLINE]) == Take(held, NEWLINE);
  }

  /** A delivered Ctrl-C makes the shell forget the part of a line it has already read. */
  lemma InterruptForgetsTheLine(part: seq<Byte>, text: seq<Byte>, done: seq<seq<Byte>>)
    requires forall i :: 0 <= i < |part| ==> Text(part[i])
    requires forall i :: 0 <= i < |text| ==> Text(text[i])
    ensures TakeAll(Assembler([], done), (part + [0x03]) + (text + [NEWLINE])) ==
            Assembler([], done + [text[..Min(|text|, COMMAND_MAX)]])
  {
    var start := Assembler([], done);
    TakeSplit(start, part + [0x03], text + [NEWLINE]);
    TakeSplit(start, part, [0x03]);
    TakingText(start, part);
    var held := TakeAll(start, part);
    assert TakeAll(held, [0x03]) == Take(held, 0x03);
    AssembledLine(text, done);
  }

  /** A typed line of fewer than 511 characters becomes one command: its first 127 characters. */
  lemma TypedLineIsOneCommand(typed: seq<Byte>, done: seq<seq<Byte>>)
    requires |typed| < LINE_MAX && forall i :: 0 <= i < |typed| ==> Text(typed[i])
    ensures
      var sent := CanonicalAll(Line(0, []), typed + [NEWLINE]).1;
      TakeAll(Assembler([], done), sent) == Assembler([], done + [typed[..Min(|typed|, COMMAND_MAX)]])
  {
    TypedLineIsDelivered(typed);
    AssembledLine(typed, done);
  }

  lemma {:induction false} NoEscapeNoStrip(bytes: seq<Byte>)
    requires forall i :: 0 <= i < |bytes| ==> bytes[i] != ESC
    ensures Strip(0, bytes) == bytes && EscAfter(0, bytes) == 0
  {
    if bytes != [] {
      NoEscapeNoStrip(bytes[1..]);
    }
  }

  // ---------------------------------------------------------------------
  // The shell as it runs
  // ---------------------------------------------------------------------

  /** Taking a chunk off the front. */
  lemma TakeChunk(a: Assembler, queue: seq<Byte>, n: nat)
    requires n <= |queue|
    ensures TakeAll(a, queue) == TakeAll(TakeAll(a, queue[..n]), queue[n..])
  {
    assert queue == queue[..n] + queue[n..];
    TakeSplit(a, queue[..n], queue[n..]);
  }

  class ShellLoop {
    const line: array<Byte>
    var len: nat
    /** The lines handed to execute_command so far. */
    var commands: seq<seq<Byte>>
    /** session_active_pty, negative without a session. */
    const activePty: int
    const tty: TtyDevice

    /** The shell reads where the TTY delivers: the attached PTY, or the TTY's own ring without one. */
    ghost predicate Valid()
      reads this, tty, tty.ptys
    {
      && line.Length == 128 && len <= COMMAND_MAX
      && line != tty.lineBuffer && line != tty.readQueue
      && tty.Valid() && tty.escapeState <= 2 && tty.canonical
      && if activePty >= 0 then activePty == tty.sessionPty && tty.Attached() else !tty.Attached()
    }

    ghost function Assembled(): Assembler
      requires line.Length == 128 && len <= COMMAND_MAX
      reads this, line
    {
      Assembler(line[..len], commands)
    }

    ghost function View(): (p: Pipeline)
      requires Valid()
      reads this, line, tty, tty.ptys, tty.readQueue, tty.lineBuffer
      ensures |p.tty.queue| <= CAPACITY
    {
      Pipeline(tty.View(), Assembled())
    }

    constructor (tty: TtyDevice, activePty: int)
      requires tty.Valid() && tty.escapeState <= 2 && tty.canonical
      requires if activePty >= 0 then activePty == tty.sessionPty && tty.Attached() else !tty.Attached()
      ensures Valid() && this.tty == tty && this.activePty == activePty && fresh(line)
      ensures Assembled() == Assembler([], [])
    {
      line := new Byte[128](_ => 0);
      len := 0;
      commands := [];
      this.tty := tty;
      this.activePty := activePty;
    }

    /** The body both loops of shell_poll share. */
    method Feed(c: Byte)
      requires line.Length == 128 && len <= COMMAND_MAX
      modifies this`len, this`commands, line
      ensures len <= COMMAND_MAX
      ensures Assembled() == Take(old(Assembled()), c)
    {
      if c == 0x03 {
        len := 0;
        return;
      }
      if c == 0x0C {
        return;
      }
      if c == NEWLINE {
        ghost var text := line[..len];
        line[len] := 0;
        assert line[..len] == text;
        commands := commands + [line[..len]];
        len := 0;
        return;
      }
      if c == 0x04 {
        return;
      }
      if (c < 0x20 || c == 0x7F) && c != 0x09 {
        return;
      }
      if len + 1 < 128 {
        ghost var text := line[..len];
        line[len] := c;
        len := len + 1;
        assert line[..len] == text + [c];
      }
    }

    method FeedAll(bytes: seq<Byte>)
      requires line.Length == 128 && len <= COMMAND_MAX
      modifies this`len, this`commands, line
      ensures len <= COMMAND_MAX
      ensures Assembled() == TakeAll(old(Assembled()), bytes)
    {
      for i := 0 to |bytes|
        invariant len <= COMMAND_MAX
        invariant TakeAll(Assembled(), bytes[i..]) == TakeAll(old(Assembled()), bytes)
      {
        assert bytes[i..][0] == bytes[i] && bytes[i..][1..] == bytes[i + 1..];
        Feed(bytes[i]);
      }
      assert bytes[|bytes|..] == [];
    }

    /** One `pty_slave_read` of up to 128 bytes from the active PTY. */
    method ReadChunk() returns (r: seq<Byte>)
      requires Valid() && activePty >= 0
      modifies tty.ptys
      ensures Valid()
      ensures r == old(tty.Queue())[..Min(128, |old(tty.Queue())|)]
      ensures tty.Queue() == old(tty.Queue())[|r|..]
    {
      r := tty.ptys.Read(ToSlave, activePty, Some(128));
      assert tty.ptys.IsValidId(activePty);
    }

    /** First loop of shell_poll: read the PTY until it is empty. */
    method DrainPty()
      requires Valid() && activePty >= 0
      modifies this`len, this`commands, line, tty.ptys
      ensures Valid()
      ensures View() == Pipeline(old(View()).tty.(queue := []), TakeAll(old(Assembled()), old(View()).tty.queue))
    {
      ghost var end := TakeAll(Assembled(), tty.Queue());
      while true
        invariant Valid() && TakeAll(Assembled(), tty.Queue()) == end
        decreases |tty.Queue()|
      {
        TakeChunk(Assembled(), tty.Queue(), Min(128, |tty.Queue()|));
        var r := ReadChunk();
        if |r| == 0 {
          break;
        }
        FeedAll(r);
      }
    }

    /** One `tty_pop_char` when the own ring is the queue. */
    method PopByte() returns (c: Option<Byte>)
      requires Valid() && activePty < 0
      modifies tty`readTail
      ensures Valid()
      ensures old(tty.Queue()) == [] ==> c == None && tty.Queue() == []
      ensures old(tty.Queue()) != [] ==> c == Some(old(tty.Queue())[0]) && tty.Queue() == old(tty.Queue())[1..]
    {
      c := tty.PopChar();
    }

    /** One turn of the second loop: what is still to assemble stays the same. */
    method PopAndFeed() returns (more: bool)
      requires Valid() && activePty < 0
      modifies this`len, this`commands, line, tty`readTail
      ensures Valid()
      ensures TakeAll(Assembled(), tty.Queue()) == old(TakeAll(Assembled(), tty.Queue()))
      ensures if more then |tty.Queue()| < |old(tty.Queue())| else tty.Queue() == []
    {
      var c := PopByte();
      if c.None? {
        return false;
      }
      Feed(c.value);
      return true;
    }

    /** Second loop of shell_poll: without a session, pop the TTY's own ring until it is empty. */
    method DrainTty()
      requires Valid() && activePty < 0
      modifies this`len, this`commands, line, tty`readTail
      ensures Valid()
      ensures View() == Pipeline(old(View()).tty.(queue := []), TakeAll(old(Assembled()), old(View()).tty.queue))
    {
      var more := true;
      while more
        invariant Valid() && TakeAll(Assembled(), tty.Queue()) == old(TakeAll(Assembled(), tty.Queue()))
        invariant !more ==> tty.Queue() == []
        decreases |tty.Queue()|, more
      {
        more := PopAndFeed();
      }
    }

    /** shell_poll, the same function of the input whichever queue is in use. */
    method PollOnce(input: seq<Byte>)
      requires Valid()
      modifies this`len, this`commands, line, tty, tty.lineBuffer, tty.readQueue, tty.ptys
      ensures Valid()
      ensures View() == Poll(old(View()), input)
    {
      CanonicalModeReceives(tty.View(), input);
      tty.PollInput(input);
      if activePty >= 0 {
        DrainPty();
      } else {
        DrainTty();
      }
    }
  }
}
