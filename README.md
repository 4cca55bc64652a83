# SPI-slave LED command endpoint, modelled in Dafny

This project models `Core/Src/spi_slave.c`, the SPI-slave side of a
two-board link. The endpoint receives fixed 32-byte ASCII frames, switches
four LEDs (Green, Orange, Red, Blue), and answers in the next frame. It
handles two commands:

- `LED:<G|O|R|B|A><0|1>` sets one LED, or all four for `A`, and answers `OK\n`.
- `GET:LED` answers `STA:dddd\n`, one digit per LED in index order.

The answer is `ERR\n` for anything else. The first frame after start-up
carries `RDY\n`.

Two modules:

- `Protocol` (`protocol.dfy`) holds the pure specification:
  - `Scan`/`Token`: the copy of the command out of the received frame.
  - `Classify`: the grammar applied to the copied token.
  - `Decide`: the same decision read off the 32-byte local command buffer,
    exactly as the C code reads it.
  - `WithLed`/`AllLeds`/`ApplyLeds`: the LED state changes.
  - The response texts, the effects of `strcpy`/`strncpy` on buffers, and
    `Exchange`, one whole completion callback as a function.
- `SpiSlave` (`spi_slave.dfy`) holds class `Endpoint`, which has the source's
  three global arrays (`rxBuffer`, `txBuffer`, `ledStates`) as array fields
  that its methods update in place. It also has two ghost fields:
  - `pins` logs every `HAL_GPIO_WritePin` call.
  - `armed` records that `HAL_SPI_TransmitReceive_IT` queued the next exchange.

  Each method states the new buffers and LED states as functions of the old
  ones. `LED_SetAll` and the command copy keep their loops.

The local `cmd` buffer of `ProcessCommand` is not initialised in C. The model
passes what it held before as a parameter `stale`. When the token is shorter
than six bytes, `cmd[5]` is read from that stale memory. `ProcessCommand`'s
postcondition does not mention `stale`, and lemma `DecideIgnoresStale`
proves the same thing at the specification level. Together they show the
outcome never depends on those bytes. If the terminator sits at `cmd[4]`, the
colour byte is NUL and no `switch` case applies. If it sits at `cmd[5]`, the
state check fails.

Details of the matching, as the code does it:

- Matching is by prefix, and bytes after the sixth are ignored, so
  `LED:G1xyz` sets Green.
- The state byte is checked before the colour byte. An `LED:` command with
  a bad state byte is ignored whatever its colour byte is, and one with a
  good state byte and an unknown colour letter is ignored too.
- `ledStates` holds `uint8_t` values that are always 0 or 1. The model stores
  them as `bool`. `SPI_Slave_GetLED` returns the byte 0 or 1.

## Model

| member | source | states |
|---|---|---|
| `Protocol.Scan` | Core/Src/spi_slave.c:76-81 | The copied token is a prefix of the frame, has no newline or NUL, is at most 31 bytes long, and stops only at the cap, the frame's end, or a newline or NUL. |
| `Protocol.Token` | Core/Src/spi_slave.c:77-81 | The copied token is shorter than 32 bytes, is a prefix of the frame and holds no newline or NUL; `Scan` with cap 31 and `TokenUnique` pin it down. |
| `Protocol.TokenUnique` | Core/Src/spi_slave.c:76-81 | Those three facts determine the token uniquely. |
| `Protocol.TokenIgnoresLastByte` | Core/Src/spi_slave.c:77 | The copy never reads byte 31. Frames that agree on bytes 0-30 give the same token. |
| `Protocol.TokenKeepsPrefix` | Core/Src/spi_slave.c:77-81 | A command text of at most 31 bytes with no newline or NUL is copied intact, whatever follows it. |
| `SpiSlave.CopyCommand` | Core/Src/spi_slave.c:73-81 | The `while` loop writes exactly the token to the front of `cmd`, writes NUL right after it (index at most 31), and leaves the rest of `cmd` untouched. |
| `Protocol.LedOfColor` | Core/Src/spi_slave.c:93-97 | G, O, R, B name LEDs 0, 1, 2, 3. The map is the exact inverse of the colour letters, and every other byte names no LED. |
| `Protocol.Classify` | Core/Src/spi_slave.c:85-105 | A single-LED command always names one of the four LEDs. |
| `Protocol.ClassifyEncode` | Core/Src/spi_slave.c:85-105 | Round trip: a token starting with `LED:<c><v>`, `LED:A<v>` or `GET:LED` is classified as that command, whatever bytes follow. |
| `Protocol.ClassifyRecognized` | Core/Src/spi_slave.c:85-105 | Converse: every accepted token starts with the text of the command it is classified as. Any other token, such as a bad state byte, a bad colour letter or a foreign prefix, is unrecognised. |
| `Protocol.Decide` | Core/Src/spi_slave.c:85-105 | The decision read off the whole 32-byte `cmd` buffer, `strncmp` prefixes then `cmd[5]` before `cmd[4]`: a single-LED command names one of the four LEDs, and any recognised command had `LED:` or `GET:LED` at the front. `DecideIgnoresStale` ties it to `Classify`. |
| `Protocol.DecideIgnoresStale` | Core/Src/spi_slave.c:85-105 | The decision the C code takes from the whole `cmd` buffer (including `cmd[5]` past a short token's terminator) equals the grammar applied to the token alone, for any stale bytes. |
| `Protocol.WithLed` | Core/Src/spi_slave.c:48-52 | Index 4 or above changes nothing. Otherwise exactly that entry takes the new state and the other three stay the same. |
| `Protocol.AllLeds` | Core/Src/spi_slave.c:62-66 | All four entries equal the state. |
| `Protocol.ApplyLeds` | Core/Src/spi_slave.c:93-104 | ProcessCommand's effect on `ledStates`: four entries, unchanged by a query or an unrecognised command; `WithLed`, `AllLeds` and `ApplyIdempotent` give the rest. |
| `Protocol.ApplyIdempotent` | Core/Src/spi_slave.c:48-66 | Applying a command's LED change twice gives the same states as applying it once. |
| `Protocol.Status` | Core/Src/spi_slave.c:103-104 | The status is 9 bytes: `STA:`, then digit `'0'`/`'1'` for LED k at offset 4+k, then a newline. |
| `Protocol.ResponseText` | Core/Src/spi_slave.c:129-130 | The answer text is 3 to 9 bytes, NUL-free and newline-terminated. It is `ERR\n` exactly when the command is unrecognised. |
| `Protocol.Overwrite` | Core/Src/spi_slave.c:94-98 | The effect of `strcpy`/`snprintf` into a buffer: the text at the front, then a NUL, and every byte after that NUL as before. |
| `Protocol.Respond` | Core/Src/spi_slave.c:85-105 | ProcessCommand's effect on `response`: 32 bytes, unchanged for an unrecognised command, otherwise starting with the reply text; `RespondSeeded` gives the whole buffer in the callback. |
| `Protocol.RespondSeeded` | Core/Src/spi_slave.c:129-133 | Writing any reply over the zeroed, `ERR\n`-seeded response buffer leaves exactly the reply text, NUL padded. |
| `Protocol.StrNCopy` | Core/Src/spi_slave.c:137 | `strncpy` writes exactly n bytes; `StrNCopyAt` states their contents. |
| `Protocol.StrNCopyAt` | Core/Src/spi_slave.c:137 | Byte k that `strncpy` writes is `src[k]` while no NUL came before it, and NUL from the first NUL of `src` on. |
| `Protocol.StrNCopyPadded` | Core/Src/spi_slave.c:136-137 | Clearing txBuffer and `strncpy`-ing a NUL-padded text of under 32 bytes over its first 31 bytes leaves exactly the padded text. |
| `Protocol.StrNCopyOfTerminated` | Core/Src/spi_slave.c:136-137 | `strncpy` of a NUL-terminated, NUL-padded text reproduces the text and pads with NUL. |
| `Protocol.Exchange` | Core/Src/spi_slave.c:126-144 | One completion callback on (LED states, received frame): four LED states and a 32-byte transmit frame ending in NUL. `ExchangeFrameTerminated`, `ExchangeErrIffUnrecognized`, `ExchangeOfCommand` and `ExchangeIdempotent` state what it means. |
| `Protocol.ExchangeFrameTerminated` | Core/Src/spi_slave.c:136-137 | The next transmit frame holds one newline-terminated text of 3 to 9 bytes, followed only by NUL bytes up to byte 31. |
| `Protocol.ExchangeErrIffUnrecognized` | Core/Src/spi_slave.c:129-137 | The transmit frame is `ERR\n` exactly when the received frame holds no command. In that case the LEDs are unchanged. |
| `Protocol.ExchangeOfCommand` | Core/Src/spi_slave.c:85-105 | A frame starting with `LED:<c><v>` sets exactly LED c and answers `OK\n`. `LED:A<v>` sets all four and answers `OK\n`. `GET:LED` leaves the LEDs unchanged and answers with their status. |
| `Protocol.ExchangeIdempotent` | Core/Src/spi_slave.c:126-144 | Receiving the same frame twice changes nothing more and gives the same answer. |
| `SpiSlave.Store` | Core/Src/spi_slave.c:117-119 | Modelled `memset`/`strcpy`/`strncpy`: the buffer afterwards holds exactly the given bytes. |
| `SpiSlave.Endpoint.constructor` | Core/Src/spi_slave.c:37-42 | Static storage starts zeroed: both buffers are zero, all LEDs are off, no pin has been written and no exchange is armed. |
| `SpiSlave.Endpoint.LedSetState` | Core/Src/spi_slave.c:48-60 | The new LED states are `WithLed` of the old ones, with any non-zero state meaning on. A valid index appends one write of that LED's pin (12 + index) to the log. If every pin already matched its LED, it still does. |
| `SpiSlave.Endpoint.LedSetAll` | Core/Src/spi_slave.c:62-66 | After the loop all four LEDs hold the state, and the log gains pins 12..15 in index order. Afterwards every pin matches its LED. |
| `SpiSlave.Endpoint.SetLed` | Core/Src/spi_slave.c:186-188 | Same contract as `LED_SetState`. |
| `SpiSlave.Endpoint.GetLed` | Core/Src/spi_slave.c:190-193 | Returns 0 for an index of 4 or above. Otherwise returns 1 exactly when the LED is on and 0 exactly when it is off. |
| `SpiSlave.Endpoint.ProcessCommand` | Core/Src/spi_slave.c:72-106 | The LEDs become `ApplyLeds(old, Classify(Token(raw)))`. The response buffer gets the reply written over its start, or is left as it was for an unrecognised command. The pin log gains exactly the command's writes. None of this depends on the stale `cmd` bytes. |
| `SpiSlave.Endpoint.Dispatch` | Core/Src/spi_slave.c:84-105 | The `if`/`switch` of ProcessCommand on the terminated `cmd` buffer, written as the C code reads the bytes: LEDs, `response` and the pin log change exactly as `Decide` of the buffer says. |
| `SpiSlave.Endpoint.LoadTx` | Core/Src/spi_slave.c:136-137 | After `memset` and `strncpy`, txBuffer is `StrNCopy` of the response over 31 bytes, and its last byte is NUL. |
| `SpiSlave.Endpoint.Init` | Core/Src/spi_slave.c:112-123 | All LEDs are off and every pin matches its LED. `rxBuffer` is zero, `txBuffer` holds `RDY\n` NUL padded, and an exchange is armed. |
| `SpiSlave.Endpoint.TxRxComplete` | Core/Src/spi_slave.c:126-145 | The new LED states and `txBuffer` equal `Exchange(old LEDs, old rxBuffer)`. `rxBuffer` is all zeros, the pin log gains exactly the command's writes, and an exchange is armed whatever was received. |
| `SpiSlave.Endpoint.TxRxError` | Core/Src/spi_slave.c:148-156 | Both buffers are cleared and `txBuffer` holds `ERR\n` NUL padded. LEDs and pins are unchanged, and an exchange is armed. |
| `SpiSlave.RecoveryAfterFault` | Core/Src/spi_slave.c:112-156 | After init and a link fault, the frame `LED:G1\n` turns Green on (`SPI_Slave_GetLED(0)` is 1) and is answered `OK\n`, so there is no lock-up. |
| `SpiSlave.QueryAfterInit` | Core/Src/spi_slave.c:112-145 | The first `GET:LED` after init is answered `STA:0000\n`. |

## Left out

- `SPI_Slave_Poll` (Core/Src/spi_slave.c:163-180) is not modelled. It reads the chip-select pin and runs a blocking, timed HAL transfer. It shares `rxBuffer`/`txBuffer` with the interrupt path without mutual exclusion. It also passes an uninitialised `response` to `ProcessCommand` and then `strcpy`s it into `txBuffer`, so an unrecognised frame makes it send whatever that stack memory held, possibly unterminated. This is a defect of the source. It is not reproduced here.
- `HAL_GPIO_WritePin` and the `GPIOD` pin macros are foreign HAL calls. They are recorded only in the ghost `pins` log, as pin numbers 12..15 with a level.
- `HAL_SPI_TransmitReceive_IT` is a foreign HAL call. It is the ghost flag `armed`, and the transfer hardware itself is not modelled. The source ignores the `HAL_StatusTypeDef` this call returns (Core/Src/spi_slave.c:122, 143, 154), so `armed` means only that the arming call was made, not that the peripheral accepted it.
- The `hspi->Instance == hspi1.Instance` checks are peripheral-handle plumbing. The callbacks are modelled as called for the right instance.
- `spiReady` is never used. Interrupt context is not modelled: the callbacks are sequential, non-reentrant calls.
- `snprintf`, `strcpy`, `strncpy`, `strncmp` and `memset` are modelled by their effect on byte sequences (`Status`, `Overwrite`, `StrNCopy`, prefix comparison, `Zeros`), not as library calls.
- Core/Inc/spi_slave.h holds declarations only. Its index comments (0=Green … 3=Blue) agree with `LedOfColor`.
