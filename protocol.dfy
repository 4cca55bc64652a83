/**
 * The SPI-slave LED protocol as pure functions over byte sequences:
 * the token ProcessCommand copies out of a received frame, the command
 * grammar, what a command does to the four LED states, the response texts,
 * and the frame the next exchange transmits.
 */
module Protocol {

  newtype Byte = b: int | 0 <= b < 256

  datatype Option<T> = None | Some(value: T)

  /** BUFFER_SIZE: each exchange moves exactly this many bytes in each direction. */
  const FrameSize: nat := 32
  /** The LEDs, in index order: Green, Orange, Red, Blue. */
  const LedCount: nat := 4

  const NUL: Byte := 0
  const LF: Byte := 10
  const Zero: Byte := '0' as Byte
  const One: Byte := '1' as Byte

  /** The bytes of an ASCII literal. */
  function Ascii(s: string): seq<Byte>
    requires forall i | 0 <= i < |s| :: s[i] as int < 256
  {
    seq(|s|, i requires 0 <= i < |s| => s[i] as Byte)
  }

  const LedPrefix: seq<Byte> := Ascii("LED:")
  const GetPrefix: seq<Byte> := Ascii("GET:LED")
  const StaPrefix: seq<Byte> := Ascii("STA:")
  const OkText: seq<Byte> := Ascii("OK\n")
  const ErrText: seq<Byte> := Ascii("ERR\n")
  const RdyText: seq<Byte> := Ascii("RDY\n")

  function Zeros(n: nat): seq<Byte>
  {
    seq(n, _ => NUL)
  }

  predicate NoNul(s: seq<Byte>)
  {
    forall k | 0 <= k < |s| :: s[k] != NUL
  }

  predicate HasPrefix(s: seq<Byte>, p: seq<Byte>)
  {
    |p| <= |s| && s[..|p|] == p
  }

  // ---------------------------------------------------------------------
  // C string primitives, by their effect on a buffer's bytes
  // ---------------------------------------------------------------------

  /** A buffer holding `text` followed by NUL bytes up to the frame size
      (what memset followed by strcpy leaves behind). */
  function Padded(text: seq<Byte>): seq<Byte>
    requires |text| <= FrameSize
  {
    text + Zeros(FrameSize - |text|)
  }

  /** strcpy(buf, text): the text and its terminating NUL over the first
      bytes of `buf`; the rest of `buf` keeps its bytes. */
  function Overwrite(buf: seq<Byte>, text: seq<Byte>): (r: seq<Byte>)
    requires |text| < |buf|
    ensures |r| == |buf| && r[..|text|] == text && r[|text|] == NUL
    ensures forall k | |text| < k < |buf| :: r[k] == buf[k]
  {
    text + [NUL] + buf[|text| + 1..]
  }

  /** The n bytes strncpy(dst, src, n) writes: the bytes of `src` before
      its first NUL, then NUL padding up to n. */
  function StrNCopy(src: seq<Byte>, n: nat): (r: seq<Byte>)
    requires n <= |src|
    ensures |r| == n
    decreases n
  {
    if n == 0 then []
    else if src[0] == NUL then Zeros(n)
    else [src[0]] + StrNCopy(src[1..], n - 1)
  }

  /** Byte k of what strncpy writes is src[k] while no NUL came before it,
      and NUL from the first NUL of `src` on. */
  lemma {:induction false} StrNCopyAt(src: seq<Byte>, n: nat)
    requires n <= |src|
    ensures forall k | 0 <= k < n :: StrNCopy(src, n)[k] == (if NoNul(src[..k]) then src[k] else NUL)
    decreases n
  {
    if n > 0 && src[0] != NUL {
      StrNCopyAt(src[1..], n - 1);
      forall k | 1 <= k < n
        ensures NoNul(src[..k]) == NoNul(src[1..][..k - 1])
      {
        assert src[..k] == [src[0]] + src[1..][..k - 1];
      }
    } else if n > 0 {
      forall k | 1 <= k < n
        ensures !NoNul(src[..k])
      {
        assert src[..k][0] == NUL;
      }
    }
  }

  /** Copying a NUL-free text that is followed by NUL bytes reproduces the
      text and pads with NUL: strncpy of a terminated string loses nothing. */
  lemma {:induction false} StrNCopyOfTerminated(text: seq<Byte>, pad: nat, n: nat)
    requires NoNul(text) && |text| <= n <= |text| + pad
    ensures StrNCopy(text + Zeros(pad), n) == text + Zeros(n - |text|)
    decreases n
  {
    if text == [] {
      assert text + Zeros(pad) == Zeros(pad);
    } else {
      var src := text + Zeros(pad);
      assert src[0] == text[0] && src[1..] == text[1..] + Zeros(pad);
      StrNCopyOfTerminated(text[1..], pad, n - 1);
      assert text == [text[0]] + text[1..];
    }
  }

  /** The transmit step of the completion callback: strncpy of a NUL-padded
      text over all but the last byte of a zeroed buffer leaves the padded
      text. */
  lemma StrNCopyPadded(text: seq<Byte>)
    requires NoNul(text) && |text| < FrameSize
    ensures StrNCopy(Padded(text), FrameSize - 1) + [NUL] == Padded(text)
  {
    StrNCopyOfTerminated(text, FrameSize - |text|, FrameSize - 1);
    assert Zeros(FrameSize - 1 - |text|) + [NUL] == Zeros(FrameSize - |text|);
  }

  // ---------------------------------------------------------------------
  // Token copy
  // ---------------------------------------------------------------------

  /** A byte that ends the copy of a command: newline or NUL. */
  predicate IsStop(b: Byte)
  {
    b == LF || b == NUL
  }

  /** The bytes of `f` before its first newline or NUL, at most `cap` of them. */
  function Scan(f: seq<Byte>, cap: nat): (t: seq<Byte>)
    ensures |t| <= cap && |t| <= |f| && t == f[..|t|]
    ensures forall k | 0 <= k < |t| :: !IsStop(t[k])
    ensures |t| == cap || |t| == |f| || IsStop(f[|t|])
    decreases cap
  {
    if cap == 0 || |f| == 0 || IsStop(f[0]) then []
    else [f[0]] + Scan(f[1..], cap - 1)
  }

  /** The token ProcessCommand copies out of a received frame: at most
      BUFFER_SIZE - 1 bytes, so that the terminator still fits. */
  function Token(frame: seq<Byte>): (t: seq<Byte>)
    ensures |t| < FrameSize && HasPrefix(frame, t)
    ensures forall k | 0 <= k < |t| :: !IsStop(t[k])
  {
    Scan(frame, FrameSize - 1)
  }

  /** The three facts Scan promises determine its result. */
  lemma TokenUnique(f: seq<Byte>, cap: nat, t: seq<Byte>)
    requires |t| <= cap && |t| <= |f| && t == f[..|t|]
    requires forall k | 0 <= k < |t| :: !IsStop(t[k])
    requires |t| == cap || |t| == |f| || IsStop(f[|t|])
    ensures Scan(f, cap) == t
  {
  }

  /** The token never depends on the last byte of a frame: the copy stops
      at index BUFFER_SIZE - 1 at the latest. */
  lemma TokenIgnoresLastByte(f: seq<Byte>, g: seq<Byte>)
    requires |f| == FrameSize && |g| == FrameSize
    requires f[..FrameSize - 1] == g[..FrameSize - 1]
    ensures Token(f) == Token(g)
  {
    var t := Token(f);
    assert t == g[..|t|];
    TokenUnique(g, FrameSize - 1, t);
  }

  /** A stop-free prefix that fits in the copy survives it intact. */
  lemma TokenKeepsPrefix(p: seq<Byte>, rest: seq<Byte>)
    requires |p| <= FrameSize - 1
    requires forall k | 0 <= k < |p| :: !IsStop(p[k])
    ensures HasPrefix(Token(p + rest), p)
  {
    var t := Token(p + rest);
    assert t[..|p|] == (p + rest)[..|p|];
  }

  // ---------------------------------------------------------------------
  // Commands
  // ---------------------------------------------------------------------

  datatype Command =
    | SetOne(index: nat, on: bool)
    | SetEvery(on: bool)
    | Query
    | Unrecognized

  /** The protocol letter of LED `index`. */
  function ColorLetter(index: nat): Byte
    requires index < LedCount
  {
    if index == 0 then 'G' as Byte
    else if index == 1 then 'O' as Byte
    else if index == 2 then 'R' as Byte
    else 'B' as Byte
  }

  /** The LED a colour letter names, if any; inverse of ColorLetter. */
  function LedOfColor(c: Byte): (r: Option<nat>)
    ensures r.Some? ==> r.value < LedCount && ColorLetter(r.value) == c
    ensures forall i | 0 <= i < LedCount :: ColorLetter(i) == c ==> r == Some(i)
  {
    if c == 'G' as Byte then Some(0)
    else if c == 'O' as Byte then Some(1)
    else if c == 'R' as Byte then Some(2)
    else if c == 'B' as Byte then Some(3)
    else None
  }

  /** The digit printed for one LED state. */
  function Bit(on: bool): Byte
  {
    if on then One else Zero
  }

  /** The command grammar on a copied token: "LED:" then a colour letter
      (G, O, R, B or A for all) and a state digit, or "GET:LED"; matching
      is by prefix, case-sensitive, and ignores any further bytes. */
  function Classify(t: seq<Byte>): (c: Command)
    ensures c.SetOne? ==> c.index < LedCount
  {
    if HasPrefix(t, LedPrefix) then
      if |t| < 6 || (t[5] != Zero && t[5] != One) then Unrecognized
      else if t[4] == 'A' as Byte then SetEvery(t[5] == One)
      else match LedOfColor(t[4])
        case Some(i) => SetOne(i, t[5] == One)
        case None => Unrecognized
    else if HasPrefix(t, GetPrefix) then Query
    else Unrecognized
  }

  /** A command the grammar can produce. */
  predicate Recognized(c: Command)
  {
    match c
    case SetOne(i, _) => i < LedCount
    case SetEvery(_) => true
    case Query => true
    case Unrecognized => false
  }

  /** The shortest text a peer sends for a recognised command. */
  function Encode(c: Command): (t: seq<Byte>)
    requires Recognized(c)
  {
    match c
    case SetOne(i, on) => LedPrefix + [ColorLetter(i), Bit(on)]
    case SetEvery(on) => LedPrefix + ['A' as Byte, Bit(on)]
    case Query => GetPrefix
  }

  /** Round trip: a token that starts with a command's text is classified
      as that command, whatever follows it. */
  lemma ClassifyEncode(c: Command, rest: seq<Byte>)
    requires Recognized(c)
    ensures Classify(Encode(c) + rest) == c
  {
    var t := Encode(c) + rest;
    assert t[..|Encode(c)|] == Encode(c);
    match c {
      case SetOne(i, on) =>
        assert t[..4] == LedPrefix && t[4] == ColorLetter(i) && t[5] == Bit(on);
      case SetEvery(on) =>
        assert t[..4] == LedPrefix && t[4] == 'A' as Byte && t[5] == Bit(on);
      case Query =>
        assert t[..4] != LedPrefix by { assert t[0] != LedPrefix[0]; }
    }
  }

  /** Conversely, every token the grammar accepts starts with the text of
      the command it is classified as. */
  lemma ClassifyRecognized(t: seq<Byte>)
    requires Classify(t) != Unrecognized
    ensures Recognized(Classify(t)) && HasPrefix(t, Encode(Classify(t)))
  {
    var c := Classify(t);
    if c.SetOne? || c.SetEvery? {
      assert t[..6] == t[..4] + [t[4], t[5]];
    }
  }

  /** The decision ProcessCommand takes, read off its whole local command
      buffer as spi_slave.c reads it: "LED:" compared over four bytes, then
      the colour byte cmd[4] and the state byte cmd[5], state checked first;
      otherwise "GET:LED" compared over seven bytes. A literal without NUL
      matches under strncmp exactly when those bytes are equal. */
  function Decide(cmd: seq<Byte>): (c: Command)
    requires |cmd| == FrameSize
    ensures c.SetOne? ==> c.index < LedCount
    ensures c != Unrecognized ==> cmd[..4] == LedPrefix || cmd[..7] == GetPrefix
  {
    if cmd[..4] == LedPrefix then
      var color, state := cmd[4], cmd[5];
      if state != Zero && state != One then Unrecognized
      else
        var on := state == One;
        if color == 'G' as Byte then SetOne(0, on)
        else if color == 'O' as Byte then SetOne(1, on)
        else if color == 'R' as Byte then SetOne(2, on)
        else if color == 'B' as Byte then SetOne(3, on)
        else if color == 'A' as Byte then SetEvery(on)
        else Unrecognized
    else if cmd[..7] == GetPrefix then Query
    else Unrecognized
  }

  /** The bytes past the terminator of the command buffer (uninitialised
      stack memory in spi_slave.c, read as cmd[5] when the token is shorter
      than six bytes) never change the decision: it is the grammar applied
      to the token alone. */
  lemma DecideIgnoresStale(t: seq<Byte>, stale: seq<Byte>)
    requires NoNul(t) && |t| + 1 + |stale| == FrameSize
    ensures Decide(t + [NUL] + stale) == Classify(t)
  {
    var cmd := t + [NUL] + stale;
    assert cmd[..|t|] == t;
    assert HasPrefix(t, LedPrefix) <==> cmd[..4] == LedPrefix by {
      if |t| >= 4 {
        assert cmd[..4] == t[..4];
      } else {
        assert cmd[|t|] == NUL != LedPrefix[|t|];
      }
    }
    assert HasPrefix(t, GetPrefix) <==> cmd[..7] == GetPrefix by {
      if |t| >= 7 {
        assert cmd[..7] == t[..7];
      } else {
        assert cmd[|t|] == NUL != GetPrefix[|t|];
      }
    }
    if |t| >= 4 && cmd[..4] == LedPrefix && |t| < 6 {
      // The terminator sits at cmd[4] or cmd[5]: either the state check
      // fails, or the colour byte is NUL and no case of the switch applies.
      assert cmd[|t|] == NUL;
    }
  }

  // ---------------------------------------------------------------------
  // LED states
  // ---------------------------------------------------------------------

  /** ledStates after LED_SetState(index, state): an index outside the
      four LEDs changes nothing, otherwise exactly that entry changes. */
  function WithLed(leds: seq<bool>, index: int, on: bool): (r: seq<bool>)
    ensures |r| == |leds|
    ensures index < 0 || index >= |leds| ==> r == leds
    ensures forall k | 0 <= k < |r| :: r[k] == (if k == index then on else leds[k])
  {
    if 0 <= index < |leds| then leds[index := on] else leds
  }

  /** ledStates after LED_SetAll. */
  function AllLeds(on: bool): (r: seq<bool>)
    ensures |r| == LedCount && forall k | 0 <= k < LedCount :: r[k] == on
  {
    seq(LedCount, _ => on)
  }

  /** What a command does to the LED states. */
  function ApplyLeds(leds: seq<bool>, c: Command): (r: seq<bool>)
    requires |leds| == LedCount
    ensures |r| == LedCount
    ensures c.Query? || c.Unrecognized? ==> r == leds
  {
    match c
    case SetOne(i, on) => WithLed(leds, i, on)
    case SetEvery(on) => AllLeds(on)
    case _ => leds
  }

  /** Applying a command a second time changes nothing more. */
  lemma ApplyIdempotent(leds: seq<bool>, c: Command)
    requires |leds| == LedCount
    ensures |ApplyLeds(leds, c)| == LedCount
    ensures ApplyLeds(ApplyLeds(leds, c), c) == ApplyLeds(leds, c)
  {
    if c.SetOne? && c.index < LedCount {
      var once := ApplyLeds(leds, c);
      assert once[c.index := c.on] == once;
    }
  }

  // ---------------------------------------------------------------------
  // Responses
  // ---------------------------------------------------------------------

  /** The status text "STA:dddd\n", one digit per LED in index order. */
  function Status(leds: seq<bool>): (r: seq<Byte>)
    requires |leds| == LedCount
    ensures |r| == 9 && r[..4] == StaPrefix && r[8] == LF
    ensures forall k | 0 <= k < LedCount :: r[4 + k] == Bit(leds[k])
  {
    StaPrefix + [Bit(leds[0]), Bit(leds[1]), Bit(leds[2]), Bit(leds[3])] + [LF]
  }

  /** The text ProcessCommand writes into its response buffer for a command,
      None when it leaves the buffer as it was. */
  function Reply(leds: seq<bool>, c: Command): Option<seq<Byte>>
    requires |leds| == LedCount
  {
    match c
    case SetOne(_, _) => Some(OkText)
    case SetEvery(_) => Some(OkText)
    case Query => Some(Status(leds))
    case Unrecognized => None
  }

  /** The response buffer after ProcessCommand, from the buffer before. */
  function Respond(buf: seq<Byte>, leds: seq<bool>, c: Command): (r: seq<Byte>)
    requires |buf| == FrameSize && |leds| == LedCount
    ensures |r| == FrameSize
    ensures c == Unrecognized ==> r == buf
    ensures c != Unrecognized ==> r[..|ResponseText(leds, c)|] == ResponseText(leds, c)
  {
    match Reply(leds, c)
    case None => buf
    case Some(text) => Overwrite(buf, text)
  }

  /** The text the completion callback sends back: the reply, or the
      "ERR\n" it seeded the response with. */
  function ResponseText(leds: seq<bool>, c: Command): (text: seq<Byte>)
    requires |leds| == LedCount
    ensures 3 <= |text| <= 9 && NoNul(text) && text[|text| - 1] == LF
    ensures text == ErrText <==> c == Unrecognized
  {
    match Reply(leds, c)
    case None => ErrText
    case Some(text) => text
  }

  /** Writing any reply over the seeded "ERR\n" buffer leaves a buffer that
      holds exactly the reply text, NUL padded. */
  lemma RespondSeeded(leds: seq<bool>, c: Command)
    requires |leds| == LedCount
    ensures Overwrite(Zeros(FrameSize), ErrText) == Padded(ErrText)
    ensures Respond(Padded(ErrText), leds, c) == Padded(ResponseText(leds, c))
  {
    assert Overwrite(Zeros(FrameSize), ErrText) == Padded(ErrText);
    var text := ResponseText(leds, c);
    if c != Unrecognized {
      var buf := Padded(ErrText);
      assert buf[|text| + 1..] == Zeros(FrameSize - |text| - 1);
      assert [NUL] + Zeros(FrameSize - |text| - 1) == Zeros(FrameSize - |text|);
    }
  }

  // ---------------------------------------------------------------------
  // One exchange, end to end
  // ---------------------------------------------------------------------

  /** The LED states and the next transmit frame after one exchange. */
  datatype Outcome = Outcome(leds: seq<bool>, tx: seq<Byte>)

  /** The completion callback on LED states `leds` and received `frame`. */
  function Exchange(leds: seq<bool>, frame: seq<Byte>): (o: Outcome)
    requires |leds| == LedCount
    ensures |o.leds| == LedCount && |o.tx| == FrameSize && o.tx[FrameSize - 1] == NUL
  {
    var c := Classify(Token(frame));
    Outcome(ApplyLeds(leds, c), Padded(ResponseText(leds, c)))
  }

  /** The transmit frame always holds one newline-terminated text and is
      NUL padded, so it is NUL-terminated within the frame. */
  lemma ExchangeFrameTerminated(leds: seq<bool>, frame: seq<Byte>)
    requires |leds| == LedCount
    ensures var o := Exchange(leds, frame);
      |o.leds| == LedCount && |o.tx| == FrameSize &&
      exists n | 3 <= n <= 9 ::
        NoNul(o.tx[..n]) && o.tx[n - 1] == LF &&
        forall k | n <= k < FrameSize :: o.tx[k] == NUL
  {
    var c := Classify(Token(frame));
    var text := ResponseText(leds, c);
    var tx := Padded(text);
    assert tx[..|text|] == text;
    assert forall k | |text| <= k < FrameSize :: tx[k] == NUL;
    ApplyIdempotent(leds, c);
  }

  /** The answer is "ERR\n" exactly when the frame holds no command. */
  lemma ExchangeErrIffUnrecognized(leds: seq<bool>, frame: seq<Byte>)
    requires |leds| == LedCount
    ensures Exchange(leds, frame).tx == Padded(ErrText) <==> Classify(Token(frame)) == Unrecognized
    ensures Classify(Token(frame)) == Unrecognized ==> Exchange(leds, frame).leds == leds
  {
    var text := ResponseText(leds, Classify(Token(frame)));
    if Padded(text) == Padded(ErrText) {
      assert text == Padded(text)[..|text|];
      assert text == ErrText;
    }
  }

  /** A frame that starts with a command's text, whatever follows it, gets
      the command's effect and answer: "OK\n" for a set, the status of the
      LEDs for a query. */
  lemma ExchangeOfCommand(leds: seq<bool>, c: Command, rest: seq<Byte>)
    requires |leds| == LedCount && Recognized(c)
    ensures Exchange(leds, Encode(c) + rest) ==
      Outcome(ApplyLeds(leds, c), Padded(if c == Query then Status(leds) else OkText))
  {
    var p := Encode(c);
    TokenKeepsPrefix(p, rest);
    var t := Token(p + rest);
    assert t == p + t[|p|..];
    ClassifyEncode(c, t[|p|..]);
  }

  /** Receiving the same frame twice has the same outcome as once: the
      second exchange changes no LED and sends the same answer. */
  lemma ExchangeIdempotent(leds: seq<bool>, frame: seq<Byte>)
    requires |leds| == LedCount
    ensures |Exchange(leds, frame).leds| == LedCount
    ensures Exchange(Exchange(leds, frame).leds, frame) == Exchange(leds, frame)
  {
    ApplyIdempotent(leds, Classify(Token(frame)));
  }
}
