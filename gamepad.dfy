/**
 * Gamepad: the D-pad tick that turns the four direction buttons
 * (standard-mapping buttons 12 up, 13 down, 14 left, 15 right) into drive
 * commands, sending a command only when it changes and one stop when the
 * pad is released.  The console carries two copies of the tick, which
 * differ only in the wheel speeds of the left and right turns.
 */
module Gamepad {
  import opened Common

  /** The pressed state of buttons 12..15 in one animation frame. */
  datatype Buttons = Buttons(up: bool, down: bool, left: bool, right: bool)

  /** The command each direction sends. */
  datatype PayloadTable = PayloadTable(up: string, down: string, left: string, right: string)

  const StopCommand := "robot/stop"

  /** The payloads of the stand-alone gamepad module. */
  const ModulePayloads := PayloadTable("75;75;75;75", "-75;-75;-75;-75", "-25;25;-25;25", "25;-25;25;-25")

  /** The payloads of the renderer's own copy: faster turns. */
  const RendererPayloads := PayloadTable("75;75;75;75", "-75;-75;-75;-75", "-75;75;-75;75", "75;-75;75;-75")

  /** Every payload is a non-empty command other than the stop command. */
  predicate WellFormed(t: PayloadTable)
  {
    && t.up != "" && t.down != "" && t.left != "" && t.right != ""
    && StopCommand !in {t.up, t.down, t.left, t.right}
  }

  predicate Idle(b: Buttons)
  {
    !b.up && !b.down && !b.left && !b.right
  }

  /** The payload of one frame: the first pressed direction in the order
      up, down, left, right, or "" when none is pressed. */
  function DpadPayload(t: PayloadTable, b: Buttons): (p: string)
    requires WellFormed(t)
    ensures p == "" <==> Idle(b)
    ensures p in {"", t.up, t.down, t.left, t.right}
  {
    if b.up then t.up
    else if b.down then t.down
    else if b.left then t.left
    else if b.right then t.right
    else ""
  }

  /** Both copies give each button its own command, and agree on forward
      and backward while turning at different speeds. */
  lemma PayloadTables()
    ensures WellFormed(ModulePayloads) && WellFormed(RendererPayloads)
    ensures forall b: Buttons :: (b.up || b.down) ==> DpadPayload(ModulePayloads, b) == DpadPayload(RendererPayloads, b)
    ensures forall b: Buttons :: !Idle(b) && !b.up && !b.down ==> DpadPayload(ModulePayloads, b) != DpadPayload(RendererPayloads, b)
  {
  }

  /** One tick with a pad present: the new lastDpadState and the commands
      sent, in order. */
  function Tick(t: PayloadTable, last: string, b: Buttons): (string, seq<string>)
    requires WellFormed(t)
  {
    var p := DpadPayload(t, b);
    var (last1, sent1) := if p != "" && p != last then (p, [p]) else (last, []);
    if Idle(b) && last1 != "" then ("", sent1 + [StopCommand]) else (last1, sent1)
  }

  /** After a tick, lastDpadState is that tick's payload, and at most one
      command went out: the payload when it changed, or one stop when the
      pad was released after a command. */
  lemma TickSendsAtMostOnce(t: PayloadTable, last: string, b: Buttons)
    requires WellFormed(t)
    ensures var (last', sent) := Tick(t, last, b);
      && last' == DpadPayload(t, b)
      && |sent| <= 1
      && (!Idle(b) ==> (sent == [] <==> last == last'))
      && (!Idle(b) && last != last' ==> sent == [last'])
      && (Idle(b) ==> (sent == [] <==> last == "") && (sent != [] ==> sent == [StopCommand]))
  {
  }

  /** Several ticks, from a given lastDpadState. */
  function Ticks(t: PayloadTable, last: string, bs: seq<Buttons>): (string, seq<string>)
    requires WellFormed(t)
    decreases |bs|
  {
    if bs == [] then (last, [])
    else
      var (last1, sent1) := Tick(t, last, bs[0]);
      var (last2, sent2) := Ticks(t, last1, bs[1..]);
      (last2, sent1 + sent2)
  }

  /** Holding one direction for k >= 1 ticks sends its payload exactly
      once (not at all if it was already the last command). */
  lemma {:induction false} HoldSendsOnce(t: PayloadTable, last: string, b: Buttons, k: nat)
    requires WellFormed(t) && !Idle(b) && k >= 1
    ensures var (last', sent) := Ticks(t, last, seq(k, _ => b));
      && last' == DpadPayload(t, b)
      && sent == (if last == DpadPayload(t, b) then [] else [DpadPayload(t, b)])
    decreases k
  {
    var p := DpadPayload(t, b);
    TickSendsAtMostOnce(t, last, b);
    var bs := seq(k, _ => b);
    assert bs[0] == b && bs[1..] == seq(k - 1, _ => b);
    TicksUnfold(t, last, bs);
    var first := Tick(t, last, b);
    assert first.0 == p && first.1 == (if last == p then [] else [p]);
    if k > 1 {
      HoldSendsOnce(t, p, b, k - 1);
      TickSendsAtMostOnce(t, p, b);
    } else {
      assert bs[1..] == [];
    }
  }

  lemma TicksUnfold(t: PayloadTable, last: string, bs: seq<Buttons>)
    requires WellFormed(t) && bs != []
    ensures var first := Tick(t, last, bs[0]);
      var rest := Ticks(t, first.0, bs[1..]);
      Ticks(t, last, bs) == (rest.0, first.1 + rest.1)
  {
  }

  /** Idle ticks send one stop if a command was last, then nothing. */
  lemma {:induction false} IdleSendsAtMostOneStop(t: PayloadTable, last: string, k: nat)
    requires WellFormed(t) && k >= 1
    ensures var (last', sent) := Ticks(t, last, seq(k, _ => Buttons(false, false, false, false)));
      && last' == ""
      && sent == (if last == "" then [] else [StopCommand])
    decreases k
  {
    var idle := Buttons(false, false, false, false);
    TickSendsAtMostOnce(t, last, idle);
    var bs := seq(k, _ => idle);
    assert bs[0] == idle && bs[1..] == seq(k - 1, _ => idle);
    TicksUnfold(t, last, bs);
    if k > 1 {
      IdleSendsAtMostOneStop(t, "", k - 1);
    } else {
      assert bs[1..] == [];
    }
  }

  /** The controller's state: gamepadIndex, lastDpadState, the animation
      frames requested and not yet run, and the commands sent. */
  class DpadController {
    const table: PayloadTable
    var gamepadIndex: Option<nat>
    var lastDpadState: string
    var frames: nat
    var sent: seq<string>

    constructor (table: PayloadTable)
      requires WellFormed(table)
      ensures this.table == table
      ensures gamepadIndex == None && lastDpadState == "" && frames == 0 && sent == []
    {
      this.table := table;
      gamepadIndex, lastDpadState, frames, sent := None, "", 0, [];
    }

    /** gamepadconnected: remember the pad and request a frame. */
    method Connected(index: nat)
      modifies this
      ensures gamepadIndex == Some(index) && frames == old(frames) + 1
      ensures lastDpadState == old(lastDpadState) && sent == old(sent)
    {
      gamepadIndex := Some(index);
      frames := frames + 1;
    }

    /** gamepaddisconnected. */
    method Disconnected()
      modifies this
      ensures gamepadIndex == None
      ensures lastDpadState == old(lastDpadState) && frames == old(frames) && sent == old(sent)
    {
      gamepadIndex := None;
    }

    /** updateGamepad in a requested frame.  `pad` is the pad found at
        gamepadIndex, of which there is none when the index is null.  With
        a pad the tick runs and requests the next frame; without one it
        sends nothing and the loop ends. */
    method Update(pad: Option<Buttons>)
      requires WellFormed(table) && frames > 0
      requires gamepadIndex.None? ==> pad.None?
      modifies this
      ensures pad.None? ==> lastDpadState == old(lastDpadState) && sent == old(sent) && frames == old(frames) - 1
      ensures pad.Some? ==>
        && lastDpadState == Tick(table, old(lastDpadState), pad.value).0
        && sent == old(sent) + Tick(table, old(lastDpadState), pad.value).1
        && frames == old(frames)
      ensures gamepadIndex == old(gamepadIndex)
    {
      frames := frames - 1;
      if pad.Some? {
        var b := pad.value;
        var payload := "";
        if b.up {
          payload := table.up;
        } else if b.down {
          payload := table.down;
        } else if b.left {
          payload := table.left;
        } else if b.right {
          payload := table.right;
        }
        assert payload == DpadPayload(table, b);
        if payload != "" && payload != lastDpadState {
          lastDpadState := payload;
          sent := sent + [payload];
        }
        if !b.up && !b.down && !b.left && !b.right {
          if lastDpadState != "" {
            lastDpadState := "";
            sent := sent + [StopCommand];
          }
        }
        frames := frames + 1;
      }
    }
  }
}
