/**
 * ArduinoSerial: newline-framed text commands over a serial port.
 *
 * The port is modelled by an open flag, the characters written to it and
 * the characters waiting to be read.  Opening may fail (the outcome is a
 * parameter); a read with nothing left to read is the read error that
 * ends `receive` early.
 */
module ArduinoSerial {

  /** The characters of `s` before its first newline. */
  function Line(s: string): (line: string)
    ensures '\n' !in line
    ensures |line| <= |s| && line == s[..|line|]
    ensures |line| < |s| ==> s[|line|] == '\n'
  {
    if s == [] || s[0] == '\n' then [] else [s[0]] + Line(s[1..])
  }

  /** The characters of `s` after its first newline; none without one. */
  function Rest(s: string): string
  {
    if s == [] then [] else if s[0] == '\n' then s[1..] else Rest(s[1..])
  }

  /** A string splits into its line, the newline, and the rest; a string
      with no newline is all line and no rest. */
  lemma {:induction false} LineAndRest(s: string)
    ensures '\n' in s ==> s == Line(s) + "\n" + Rest(s)
    ensures '\n' !in s ==> Line(s) == s && Rest(s) == []
  {
    if s != [] && s[0] != '\n' {
      LineAndRest(s[1..]);
      assert s == [s[0]] + s[1..];
    }
  }

  /** Reading back one framed message gives the message and leaves what
      followed it. */
  lemma {:induction false} FrameRoundTrip(data: string, more: string)
    requires '\n' !in data
    ensures Line(data + "\n" + more) == data
    ensures Rest(data + "\n" + more) == more
  {
    if data != [] {
      assert (data + "\n" + more)[1..] == data[1..] + "\n" + more;
      FrameRoundTrip(data[1..], more);
      assert data == [data[0]] + data[1..];
    } else {
      assert (data + "\n" + more) == "\n" + more;
    }
  }

  /** The bytes a sequence of sends writes. */
  function Frames(msgs: seq<string>): string
  {
    if msgs == [] then [] else msgs[0] + "\n" + Frames(msgs[1..])
  }

  /** Successive reads of what successive sends wrote return the messages
      in order. */
  lemma FramesRoundTrip(msgs: seq<string>)
    requires msgs != [] && forall m :: m in msgs ==> '\n' !in m
    ensures Line(Frames(msgs)) == msgs[0]
    ensures Rest(Frames(msgs)) == Frames(msgs[1..])
  {
    FrameRoundTrip(msgs[0], Frames(msgs[1..]));
  }

  class Port {
    const portName: string
    const baudrate: nat
    var isOpen: bool
    /** Everything written to the port. */
    var output: string
    /** What the device has sent and is not read yet. */
    var input: string

    constructor (portName: string, baudrate: nat, input: string)
      ensures this.portName == portName && this.baudrate == baudrate
      ensures !isOpen && output == [] && this.input == input
    {
      this.portName, this.baudrate := portName, baudrate;
      isOpen, output, this.input := false, [], input;
    }

    /** connect: open the port; false when opening fails, including when
        the port is already open. */
    method Connect(openSucceeds: bool) returns (ok: bool)
      modifies this
      ensures ok <==> !old(isOpen) && openSucceeds
      ensures isOpen == (old(isOpen) || openSucceeds)
      ensures output == old(output) && input == old(input)
    {
      if isOpen {
        return false;
      }
      isOpen := openSucceeds;
      ok := openSucceeds;
    }

    /** send: write the data followed by a newline; false and nothing
        written when the port is closed. */
    method Send(data: string) returns (ok: bool)
      modifies this
      ensures ok == old(isOpen)
      ensures output == if old(isOpen) then old(output) + data + "\n" else old(output)
      ensures isOpen == old(isOpen) && input == old(input)
    {
      if !isOpen {
        return false;
      }
      var msg := data + "\n";
      output := output + msg;
      ok := true;
    }

    /** receive: read one character at a time until a newline (consumed,
        not returned) or a read error; "" when the port is closed. */
    method Receive() returns (response: string)
      modifies this
      ensures old(isOpen) ==> response == Line(old(input)) && input == Rest(old(input))
      ensures !old(isOpen) ==> response == [] && input == old(input)
      ensures isOpen == old(isOpen) && output == old(output)
    {
      if !isOpen {
        return [];
      }
      response := [];
      while true
        invariant response + Line(input) == Line(old(input))
        invariant Rest(input) == Rest(old(input))
        invariant isOpen && output == old(output)
        decreases |input|
      {
        if input == [] {
          break;
        }
        var c := input[0];
        input := input[1..];
        if c == '\n' {
          break;
        }
        response := response + [c];
      }
    }

    /** disconnect: close the port if it is open. */
    method Disconnect()
      modifies this
      ensures !isOpen && output == old(output) && input == old(input)
    {
      if isOpen {
        isOpen := false;
      }
    }

    method Forward() returns (ok: bool)
      modifies this
      ensures ok == old(isOpen) && isOpen == old(isOpen) && input == old(input)
      ensures output == if old(isOpen) then old(output) + "forward\n" else old(output)
    {
      ok := Send("forward");
    }

    method Backward() returns (ok: bool)
      modifies this
      ensures ok == old(isOpen) && isOpen == old(isOpen) && input == old(input)
      ensures output == if old(isOpen) then old(output) + "backward\n" else old(output)
    {
      ok := Send("backward");
    }

    method Stop() returns (ok: bool)
      modifies this
      ensures ok == old(isOpen) && isOpen == old(isOpen) && input == old(input)
      ensures output == if old(isOpen) then old(output) + "stop\n" else old(output)
    {
      ok := Send("stop");
    }

    method TurnLeft() returns (ok: bool)
      modifies this
      ensures ok == old(isOpen) && isOpen == old(isOpen) && input == old(input)
      ensures output == if old(isOpen) then old(output) + "turn_left\n" else old(output)
    {
      ok := Send("turn_left");
    }

    method TurnRight() returns (ok: bool)
      modifies this
      ensures ok == old(isOpen) && isOpen == old(isOpen) && input == old(input)
      ensures output == if old(isOpen) then old(output) + "turn_right\n" else old(output)
    {
      ok := Send("turn_right");
    }
  }
}
