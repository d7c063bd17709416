/**
 The whole input pipeline, from the scancodes that the keyboard sends to the
 lines that the shell executes.
 */
module Keystrokes {
  import opened Common
  import opened LineEditor
  import opened Tty
  import opened Shell
  import S = Scancodes
  import K = Keyboard

  /**
   Strokes send the bytes of a line of fewer than 511 characters and Enter:
   modifiers, locks and auto-repeat included, keys going down and up in any
   order. The interrupts fall anywhere between the accesses of the consumer,
   the polls find the bytes in any pieces. Once everything has been popped,
   the shell has executed one more command: the first 127 characters of the
   line.
   */
  lemma TypedKeysBecomeACommand(tb: S.Tables, s: S.Scanner, strokes: seq<S.Stroke>, typed: seq<Byte>,
                                actions: seq<K.Action>, p: Pipeline, inputs: seq<seq<Byte>>)
    requires tb.Valid() && s.Valid() && S.Between(s) && forall i :: 0 <= i < |strokes| ==> strokes[i].Valid()
    requires |typed| < LINE_MAX && forall i :: 0 <= i < |typed| ==> Text(typed[i])
    requires S.StrokeAll(tb, s, strokes).1 == typed + [NEWLINE]
    requires K.Pushes(actions) == S.Bytes(S.ScanAll(tb, s, S.CodesOf(strokes)).1)
    requires K.Run(K.Start(), actions).ring.Contents() == []
    requires Concat(inputs) == K.Run(K.Start(), actions).popped
    requires p.tty.line == Line(0, []) && p.tty.queue == [] && p.shell.line == []
    ensures K.Run(K.Start(), actions).dropped == 0
    ensures PollAll(p, inputs).shell ==
            Assembler([], p.shell.commands + [typed[..Min(|typed|, 127)]])
  {
    S.StrokesDecideBytes(tb, s, strokes);
    EverythingIsPopped(actions, typed + [NEWLINE]);
    PiecesAreShort(inputs);
    KeystrokesToCommands(actions, p, inputs);
    TypedLineIsOneCommand(typed, p.shell.commands);
    var r := K.Run(K.Start(), actions);
    assert r.accepted[..|r.popped|] == typed + [NEWLINE];
  }

  lemma {:induction false} PiecesAreShort(inputs: seq<seq<Byte>>)
    ensures forall i :: 0 <= i < |inputs| ==> |inputs[i]| <= |Concat(inputs)|
  {
    if inputs != [] {
      PiecesAreShort(inputs[1..]);
      assert forall i :: 1 <= i < |inputs| ==> inputs[i] == inputs[1..][i - 1];
    }
  }

  lemma EverythingIsPopped(actions: seq<K.Action>, bytes: seq<Byte>)
    requires K.Pushes(actions) == bytes && |bytes| <= 1023
    requires K.Run(K.Start(), actions).ring.Contents() == []
    ensures
      var r := K.Run(K.Start(), actions);
      r.dropped == 0 && r.accepted == bytes && r.popped == bytes
  {
    var r := K.Run(K.Start(), actions);
    K.EveryInterleavingIsFifo(actions);
    K.FewPushesDropNothing(K.Start(), actions);
    K.NothingElseIsAccepted(K.Start(), actions);
    assert r.popped + [] == r.popped;
  }
}
