/**
 * The SPI-slave endpoint of spi_slave.c as an object: the receive and
 * transmit buffers and the LED states it updates in place, the command
 * processing, and the transfer callbacks that always re-arm the next
 * exchange.
 */
module SpiSlave {

  import opened Protocol

  /** One HAL_GPIO_WritePin call on the LED port. */
  datatype PinWrite = PinWrite(pin: nat, high: bool)

  /** GPIO_PIN_12 .. GPIO_PIN_15 drive LEDs 0 .. 3. */
  function LedPin(index: nat): nat
  {
    12 + index
  }

  /** The level last written to `pin`, None when it was never written. */
  function LastLevel(log: seq<PinWrite>, pin: nat): Option<bool>
  {
    if log == [] then None
    else if log[|log| - 1].pin == pin then Some(log[|log| - 1].high)
    else LastLevel(log[..|log| - 1], pin)
  }

  lemma LastLevelAppend(log: seq<PinWrite>, w: PinWrite, pin: nat)
    ensures LastLevel(log + [w], pin) == if w.pin == pin then Some(w.high) else LastLevel(log, pin)
  {
    assert (log + [w])[..|log|] == log;
  }

  /** The pin writes of LED_SetAll: every LED in index order. */
  function SetAllWrites(on: bool, n: nat): seq<PinWrite>
  {
    seq(n, k requires 0 <= k < n => PinWrite(LedPin(k), on))
  }

  /** The pin writes a command makes. */
  function CommandWrites(c: Command): seq<PinWrite>
  {
    match c
    case SetOne(i, on) => if i < LedCount then [PinWrite(LedPin(i), on)] else []
    case SetEvery(on) => SetAllWrites(on, LedCount)
    case _ => []
  }

  /** memset / strcpy / strncpy: replace the bytes of a buffer. */
  method Store(a: array<Byte>, s: seq<Byte>)
    requires |s| == a.Length
    modifies a
    ensures a[..] == s
  {
    forall k | 0 <= k < a.Length {
      a[k] := s[k];
    }
  }

  /** The copy at the head of ProcessCommand: the bytes of `raw` up to the
      first newline or NUL, at most BUFFER_SIZE - 1 of them, go to the
      front of `cmd` and are NUL-terminated; `raw` is read only below index
      BUFFER_SIZE - 1 and `cmd` keeps its bytes past the terminator. */
  method CopyCommand(raw: array<Byte>, cmd: array<Byte>) returns (n: nat)
    requires raw.Length == FrameSize && cmd.Length == FrameSize && raw != cmd
    modifies cmd
    ensures n == |Token(raw[..])| && n < FrameSize
    ensures cmd[..n] == Token(raw[..]) && cmd[n] == NUL
    ensures cmd[n + 1..] == old(cmd[n + 1..])
  {
    n := 0;
    while n < FrameSize - 1 && raw[n] != LF && raw[n] != NUL
      invariant n <= FrameSize - 1
      invariant cmd[..n] == raw[..n]
      invariant forall k | 0 <= k < n :: !IsStop(raw[k])
      invariant cmd[n..] == old(cmd[n..])
    {
      cmd[n] := raw[n];
      n := n + 1;
    }
    cmd[n] := NUL;
    TokenUnique(raw[..], FrameSize - 1, raw[..n]);
  }

  class Endpoint {
    /** rxBuffer, txBuffer and ledStates. */
    const rx: array<Byte>
    const tx: array<Byte>
    const led: array<bool>
    /** The HAL_GPIO_WritePin calls made so far. */
    ghost var pins: seq<PinWrite>
    /** An exchange has been handed to HAL_SPI_TransmitReceive_IT. */
    ghost var armed: bool

    ghost predicate Valid()
    {
      rx.Length == FrameSize && tx.Length == FrameSize && led.Length == LedCount && rx != tx
    }

    /** Every LED pin was last driven to the level its ledStates entry records. */
    ghost predicate Mirrored()
      reads this, led
      requires Valid()
    {
      forall k | 0 <= k < LedCount :: LastLevel(pins, LedPin(k)) == Some(led[k])
    }

    /** The static storage before SPI_Slave_Init: everything zero, no pin
        written, no exchange armed. */
    constructor ()
      ensures Valid() && fresh(rx) && fresh(tx) && fresh(led)
      ensures rx[..] == Zeros(FrameSize) && tx[..] == Zeros(FrameSize)
      ensures led[..] == AllLeds(false)
      ensures pins == [] && !armed
    {
      rx := new Byte[FrameSize](_ => NUL);
      tx := new Byte[FrameSize](_ => NUL);
      led := new bool[LedCount](_ => false);
      pins := [];
      armed := false;
    }

    /** LED_SetState: an index of four or more changes nothing; otherwise
        exactly that LED takes the state (any non-zero value is on) and its
        pin is driven to match. */
    method LedSetState(index: Byte, state: Byte)
      requires Valid()
      modifies led, this`pins
      ensures led[..] == WithLed(old(led[..]), index as int, state != 0)
      ensures pins == old(pins) + CommandWrites(SetOne(index as nat, state != 0))
      ensures old(Mirrored()) ==> Mirrored()
    {
      if index as int >= LedCount {
        return;
      }
      led[index] := state != 0;
      var w := PinWrite(LedPin(index as nat), state != 0);
      forall k | 0 <= k < LedCount
        ensures LastLevel(pins + [w], LedPin(k)) ==
          if k == index as int then Some(state != 0) else LastLevel(pins, LedPin(k))
      {
        LastLevelAppend(pins, w, LedPin(k));
      }
      pins := pins + [w];
    }

    /** LED_SetAll: every LED takes the state, in index order; afterwards
        every pin matches its LED, whatever came before. */
    method LedSetAll(state: Byte)
      requires Valid()
      modifies led, this`pins
      ensures led[..] == AllLeds(state != 0)
      ensures pins == old(pins) + CommandWrites(SetEvery(state != 0))
      ensures Mirrored()
    {
      var on := state != 0;
      var i: nat := 0;
      while i < LedCount
        invariant i <= LedCount
        invariant pins == old(pins) + SetAllWrites(on, i)
        invariant forall k | 0 <= k < i :: led[k] == on && LastLevel(pins, LedPin(k)) == Some(on)
      {
        ghost var before := pins;
        LedSetState(i as Byte, state);
        assert SetAllWrites(on, i + 1) == SetAllWrites(on, i) + [PinWrite(LedPin(i), on)];
        forall k | 0 <= k <= i
          ensures LastLevel(pins, LedPin(k)) == Some(on)
        {
          LastLevelAppend(before, PinWrite(LedPin(i), on), LedPin(k));
        }
        i := i + 1;
      }
      assert led[..] == AllLeds(on);
    }

    /** SPI_Slave_SetLED. */
    method SetLed(index: Byte, state: Byte)
      requires Valid()
      modifies led, this`pins
      ensures led[..] == WithLed(old(led[..]), index as int, state != 0)
      ensures pins == old(pins) + CommandWrites(SetOne(index as nat, state != 0))
      ensures old(Mirrored()) ==> Mirrored()
    {
      LedSetState(index, state);
    }

    /** SPI_Slave_GetLED: 1 for an LED that is on, 0 for one that is off
        and for any index of four or more. */
    method GetLed(index: Byte) returns (v: Byte)
      requires Valid()
      ensures index as int >= LedCount ==> v == 0
      ensures index as int < LedCount ==> (v == 1 <==> led[index]) && (v == 0 <==> !led[index])
    {
      if index as int >= LedCount {
        return 0;
      }
      v := if led[index] then 1 else 0;
    }

    /** ProcessCommand: copy the command out of `raw` into a local buffer,
        NUL-terminate it, and act on it. `stale` is what the local buffer
        held before (uninitialised stack memory); the outcome does not
        depend on it. A recognised command updates the LEDs and writes its
        reply over the start of `response`; anything else leaves both alone. */
    method ProcessCommand(raw: array<Byte>, response: array<Byte>, stale: seq<Byte>)
      requires Valid() && raw.Length == FrameSize && response.Length == FrameSize
      requires raw != response && |stale| == FrameSize
      modifies led, response, this`pins
      ensures var c := Classify(Token(raw[..]));
        && led[..] == ApplyLeds(old(led[..]), c)
        && response[..] == Respond(old(response[..]), old(led[..]), c)
        && pins == old(pins) + CommandWrites(c)
      ensures old(Mirrored()) ==> Mirrored()
    {
      var cmd := new Byte[FrameSize](k => if 0 <= k < |stale| then stale[k] else NUL);
      var n := CopyCommand(raw, cmd);
      DecideIgnoresStale(Token(raw[..]), stale[n + 1..]);
      assert cmd[..] == Token(raw[..]) + [NUL] + stale[n + 1..];
      Dispatch(cmd, response);
    }

    /** The grammar match of ProcessCommand on its terminated local buffer
        `cmd`: the LEDs and `response` change as Decide says, reading the
        bytes exactly as the C code does. */
    method Dispatch(cmd: array<Byte>, response: array<Byte>)
      requires Valid() && cmd.Length == FrameSize && response.Length == FrameSize
      requires cmd != response
      modifies led, response, this`pins
      ensures var c := Decide(old(cmd[..]));
        && led[..] == ApplyLeds(old(led[..]), c)
        && response[..] == Respond(old(response[..]), old(led[..]), c)
        && pins == old(pins) + CommandWrites(c)
      ensures old(Mirrored()) ==> Mirrored()
    {
      if cmd[..4] == LedPrefix {
        var color, state := cmd[4], cmd[5];
        if state != Zero && state != One {
          return;
        }
        var stateVal: Byte := if state == One then 1 else 0;
        if color == 'G' as Byte {
          LedSetState(0, stateVal);
          Store(response, Overwrite(response[..], OkText));
        } else if color == 'O' as Byte {
          LedSetState(1, stateVal);
          Store(response, Overwrite(response[..], OkText));
        } else if color == 'R' as Byte {
          LedSetState(2, stateVal);
          Store(response, Overwrite(response[..], OkText));
        } else if color == 'B' as Byte {
          LedSetState(3, stateVal);
          Store(response, Overwrite(response[..], OkText));
        } else if color == 'A' as Byte {
          LedSetAll(stateVal);
          Store(response, Overwrite(response[..], OkText));
        }
      } else if cmd[..7] == GetPrefix {
        Store(response, Overwrite(response[..], Status(led[..])));
      }
    }

    /** SPI_Slave_Init: all LEDs off, receive buffer cleared, "RDY\n" queued
        for the first exchange, and that exchange armed. */
    method Init()
      requires Valid()
      modifies led, rx, tx, this`pins, this`armed
      ensures led[..] == AllLeds(false)
      ensures rx[..] == Zeros(FrameSize) && tx[..] == Padded(RdyText)
      ensures pins == old(pins) + CommandWrites(SetEvery(false))
      ensures Mirrored() && armed
    {
      LedSetAll(0);
      Store(rx, Zeros(FrameSize));
      Store(tx, Zeros(FrameSize));
      Store(tx, Overwrite(tx[..], RdyText));
      armed := true;
    }

    /** HAL_SPI_TxRxCpltCallback: answer the received frame (the seeded
        "ERR\n" unless it holds a command), clear the receive buffer and
        re-arm, whatever the frame held. */
    method TxRxComplete(stale: seq<Byte>)
      requires Valid() && |stale| == FrameSize
      modifies led, rx, tx, this`pins, this`armed
      ensures Outcome(led[..], tx[..]) == Exchange(old(led[..]), old(rx[..]))
      ensures rx[..] == Zeros(FrameSize)
      ensures pins == old(pins) + CommandWrites(Classify(Token(old(rx[..]))))
      ensures old(Mirrored()) ==> Mirrored()
      ensures armed
    {
      ghost var leds := led[..];
      ghost var c := Classify(Token(rx[..]));
      ghost var text := ResponseText(leds, c);
      RespondSeeded(leds, c);
      StrNCopyPadded(text);

      var response := new Byte[FrameSize](_ => NUL);
      assert response[..] == Zeros(FrameSize);
      Store(response, Overwrite(response[..], ErrText));
      ProcessCommand(rx, response, stale);
      assert response[..] == Padded(text);

      LoadTx(response);

      Store(rx, Zeros(FrameSize));
      armed := true;
    }

    /** The transmit step of the completion callback: txBuffer cleared,
        then the response copied in with strncpy over all but its last byte,
        which stays NUL. */
    method LoadTx(response: array<Byte>)
      requires Valid() && response.Length == FrameSize && response != tx
      modifies tx
      ensures tx[..] == StrNCopy(response[..], FrameSize - 1) + [NUL]
    {
      Store(tx, Zeros(FrameSize));
      assert tx[FrameSize - 1..] == [NUL];
      Store(tx, StrNCopy(response[..], FrameSize - 1) + tx[FrameSize - 1..]);
    }

    /** HAL_SPI_ErrorCallback: both buffers cleared, "ERR\n" queued, the
        LEDs left alone, and the next exchange re-armed. */
    method TxRxError()
      requires Valid()
      modifies rx, tx, this`armed
      ensures rx[..] == Zeros(FrameSize) && tx[..] == Padded(ErrText)
      ensures led[..] == old(led[..]) && pins == old(pins)
      ensures armed
    {
      Store(rx, Zeros(FrameSize));
      Store(tx, Zeros(FrameSize));
      Store(tx, Overwrite(tx[..], ErrText));
      armed := true;
    }
  }

  /** After a link fault the endpoint still obeys the next command: the
      frame "LED:G1\n" turns the green LED on and is answered "OK\n". */
  method RecoveryAfterFault(stale: seq<Byte>) returns (green: Byte, reply: seq<Byte>)
    requires |stale| == FrameSize
    ensures green == 1 && reply == Padded(OkText)
  {
    var e := new Endpoint();
    e.Init();
    e.TxRxError();
    ghost var leds := e.led[..];
    var frame := LedPrefix + ['G' as Byte, One] + ([LF] + Zeros(FrameSize - 7));
    ExchangeOfCommand(leds, SetOne(0, true), [LF] + Zeros(FrameSize - 7));
    Store(e.rx, frame);
    e.TxRxComplete(stale);
    green := e.GetLed(0);
    reply := e.tx[..];
  }

  /** The first query after start-up reports every LED off: "STA:0000\n". */
  method QueryAfterInit(stale: seq<Byte>) returns (reply: seq<Byte>)
    requires |stale| == FrameSize
    ensures reply == Padded(StaPrefix + [Zero, Zero, Zero, Zero, LF])
  {
    var e := new Endpoint();
    e.Init();
    var frame := GetPrefix + ([LF] + Zeros(FrameSize - 8));
    ExchangeOfCommand(AllLeds(false), Query, [LF] + Zeros(FrameSize - 8));
    Store(e.rx, frame);
    e.TxRxComplete(stale);
    reply := e.tx[..];
  }
}
