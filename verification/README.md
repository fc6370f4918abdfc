# HiFive1 Rev B WiFi console: a Dafny model

This project models the core of a bare-metal RISC-V firmware that drives the
board's ESP32 WiFi co-processor over SPI with AT commands, together with the
serial console that feeds it:

- the **AT-over-SPI framing** of `spi.c`:
  - header frames (`0x02` to send a command, `0x01` to ask for a response);
  - 15-bit length frames and payload phases;
  - the handshake waits between them;
- **`spi_send`**:
  - the transparent-mode state machine (`TRANS_OFF` / `TRANS_ON` / `TRANS_ENDING`), driven by the sentinels `AT+CIPSEND\r\n` and `+++\r\n`;
  - the sentinel's shortened length;
  - the exact sequence of octets, chip-select releases and handshake waits on the link;
- **`spi_recv`**:
  - the do-while loop of receive cycles, each copying `min(data_len, len)` octets into the caller's buffer;
  - a short read is terminated, and when it holds at least four octets, the CR/LF below its last two octets become spaces;
  - the loop continues while the slave keeps its handshake line high;
- the serial clock divider formula of `spi_init`;
- **`tty_gets`** and the console loop of `main.c`:
  - the line is formatted as `line\r\n` and sent;
  - a response is received only when the link is back in framed mode;
- the LED register operations of `led.c`.

## Modelling choices

- **Octets.** Octets are `uint8` (an `int` subset type); `char` is unsigned on RV32, so a C string is a `seq<uint8>`. `StrLen`/`CStr` model `strlen` and reading a string out of a buffer.
- **Buffers.** Buffers the C code writes through a pointer are values: a method receives the buffer's old content and returns its new content. The loops run over a fresh array.
- **Hardware.** Register polling, delays and the handshake line are not executed.
  - The master's actions on the link are a trace of `Event`s: `Octet(b)` is one full-duplex transfer; `Deassert` is the chip-select settle delay; `HandshakeWait` is a blocking wait for the handshake line.
  - What the slave sends back is an input: one `Reply(frame, data)` per receive cycle.
  - The handshake level sampled after each cycle is an input too: a `seq<bool>`.
- **Liveness.** The busy-waits only terminate if the other side cooperates. That cooperation appears as a precondition:
  - `Recv.Supplied`: the handshake line eventually drops, and each cycle's reply holds the octets it reads;
  - `Console.Completes`: `tty_gets` gets enough codes to return.
- **Transparent mode.** The file-scope `transparent` variable is the `Mode` threaded through `Send.Send` and `Console.ConsoleStep`. `spi_transparent` is reading that value.
- **LED register.** The 32-bit register is modelled by the set of positions of its 1-bits: `|` is union, `&` is intersection, `& ~` is difference. `LED_GREEN = 1U<<19` is `{19}`, and so on.
- **Unsigned arithmetic.** The divider is computed in 32-bit unsigned arithmetic with explicit wrap-around.

## Model

| member | source | states |
|---|---|---|
| Bytes.StrLen | spi.c:201 | `strlen`: the index of the first NUL in the buffer; nothing before it is NUL |
| Frames.EncodeLength | spi.c:172-176 | the length frame `{len & 127, len >> 7, 0, 'A'}` is well formed and announces `len` modulo 2^15 |
| Frames.DecodeLength | spi.c:294 | `(b1 << 7) + b0` is at most 32895; when `b0 < 128` it splits back into `b1` and `b0` |
| Frames.LengthRoundTrip | spi.c:170-176 | every length up to 32767 survives encoding into a length frame and decoding back |
| Frames.DecodeEncode | spi.c:294 | `(b1 << 7) + b0` of a well-formed frame is at most 32767, and re-encoding that length gives the same frame |
| Frames.EncodeInjective | spi.c:175-176 | distinct lengths up to 32767 give distinct length frames |
| Frames.Transfer | spi.c:154-158 | the octet loop appends exactly one transfer per octet, in order |
| Frames.PhaseWritten | spi.c:154-163 | a frame phase writes exactly its octets and waits for the handshake once |
| Frames.SlaveRecoversPayload | spi.c:218-238 | a slave reading header, length frame and payload off the wire gets back exactly the payload the master framed |
| Transparent.Settle | spi.c:203-205 | an `Ending` mode becomes `Off`; other modes are kept |
| Transparent.NextMode | spi.c:203-216 | after a send the mode is `On` iff the string is `AT+CIPSEND\r\n` or it was `On` and the string is no sentinel; `Ending` iff it is `+++\r\n`; `Off` otherwise |
| Transparent.PayloadLength | spi.c:199-216 | the framed length is `strlen`, except 3 for `+++\r\n`, whose first three octets are `+++` |
| Transparent.SessionMode | spi.c:203-216 | from power-up, the mode is `Ending` iff the last send was `+++\r\n`, and `On` iff the last sentinel sent was `AT+CIPSEND\r\n` |
| Transparent.EndingLastsOneSend | spi.c:203-214 | `Ending` survives no send except another `+++\r\n`; an ordinary command after it runs in `Off` |
| Send.Transition | spi.c:199-216 | the C assignments compute the new mode and the framed length |
| Send.Send | spi.c:197-248 | the trace is header phase, length phase, payload of the framed length, chip-select release, and a final handshake wait only when the new mode is `Off`; the wire carries header ++ length frame ++ payload; two or three handshake waits |
| Send.TraceAccounting | spi.c:218-247 | the three phases of a send put header, length frame and payload on the wire in that order |
| Send.SlaveGetsCommand | spi.c:209-238 | for strings up to 32767 octets the slave receives the whole command, or just `+++` for the end sentinel |
| Recv.Scrub | spi.c:309-319 | in a short read of four octets or more, every CR and LF below the last two octets becomes a space and every other octet is kept; the last two octets are kept; shorter reads are unchanged |
| Recv.CycleRules | spi.c:303-319 | one cycle copies `min(data_len, len)` octets; a short read gets a NUL at `data_len` and its CR/LF scrubbed; a long read is copied verbatim with no terminator; nothing past the copy changes |
| Recv.CopyIn | spi.c:303-307 | the payload loop stores the first `k` octets read and leaves the rest of the buffer |
| Recv.BlankPrefix | spi.c:311-318 | the CR/LF loop blanks exactly the octets below index `data_len - 2` |
| Recv.Terminate | spi.c:310 | the NUL lands at `data_len` and nowhere else |
| Recv.FillBuffer | spi.c:303-319 | the array code of one cycle yields the buffer `CycleRules` describes |
| Recv.RecvCycle | spi.c:282-321 | one cycle: header phase, length phase clocking out four fillers, one filler per payload octet read, chip-select release; buffer as in `CycleRules` |
| Recv.ShortReadString | spi.c:309-319 | after a short read of a NUL-free response, the buffer holds that response, scrubbed, as a C string |
| Recv.FirstLow | spi.c:324 | the first sample at which the handshake line is low; all earlier samples are high |
| Recv.RecvTraceWaits | spi.c:285-300 | each receive cycle waits for the handshake exactly twice |
| Recv.LastCycleString | spi.c:282-324 | after a short final read of a NUL-free response, the caller's C string is that response, scrubbed |
| Recv.Recv | spi.c:277-325 | runs at least one cycle, one more for every high handshake sample, stops at the first low one; buffer and trace are those of the cycles run; waits twice per cycle; after a short final read of a NUL-free response, the caller's C string is that response, scrubbed |
| Clock.SckDiv | spi.c:98 | `cpu / (2 * spi) - 1` in 32-bit unsigned arithmetic: the divider plus one is the number of whole `2 * spi` periods in the core clock. So when `2 * spi` does not wrap, the resulting SCK, `cpu / (2 * (div + 1))`, is at least the requested clock, and the next larger divider would fall below it. When no whole period fits, the divider wraps to `0xFFFFFFFF` |
| Clock.DividerAt80k | spi.c:98 | with the 320 MHz core clock (`cpu.c` line 4) and 80 kHz SPI clock (`main.c` line 11) the divider is 1999 |
| Console.TtyGets | main.c:102-122 | reads at most `size` codes, exactly while they are plain and room is left; a CR or LF is replaced by NUL; a code above 0xFF returns NULL with earlier characters in place; a full buffer gets NUL at `size - 1`; nothing at or past the codes read changes; `size == 0` reads and writes nothing |
| Console.GetsString | main.c:107-121 | after a successful call the buffer holds a C string shorter than `size`. It is a prefix of the stored characters, and all of them when none is NUL. A shorter string stops at a typed code that is stored as NUL |
| Console.ReadLine | main.c:89 | retrying until `tty_gets` succeeds. Every call before the successful one failed on a code above 0xFF among its first `size` codes, and none met a CR or LF. The successful call read plain codes up to its last code, which is at most 0xFF and is a CR or LF unless the buffer filled. Its line, the stored characters of those codes, is NUL-terminated in the buffer |
| Console.FailedCall | main.c:89 | after one more failed call, plain codes ended by one above 0xFF, every call that starts before its end still fails |
| Console.LineCallUnique | main.c:89 | the outcome `ReadLine` states is unique: the codes fix where the successful call starts and ends |
| Console.Format | main.c:91 | `snprintf(at_cmd, 2048, "%s\r\n", line)` is a prefix of `line\r\n` shorter than the buffer: all of it for lines that fit, exactly 2047 octets for the others |
| Console.SentinelLines | main.c:91 | an entered line becomes a sentinel command iff it is `AT+CIPSEND` or `+++` |
| Console.ConsoleStep | main.c:90-95 | the command is `line\r\n`; the mode changes as in `NextMode`; `spi_recv` runs iff the new mode is `Off`, i.e. iff the old mode was not `On` and the line is neither sentinel; the response buffer and trace are those of `Recv` |
| Console.ConsoleScenario | main.c:91-95 | entering `AT+CIPSEND`, `+++`, then any other line gives modes `On`, `Ending`, `Off`: only the third step receives |
| Led.On | led.c:8 | `LED_on` sets all of the LED's bits and keeps every other bit |
| Led.Off | led.c:13 | `LED_off` clears all of the LED's bits and keeps every other bit |
| Led.OnIdempotent | led.c:8 | switching an LED on twice is switching it on once |
| Led.OffIdempotent | led.c:13 | switching an LED off twice is switching it off once |
| Led.StaysWord | led.c:6-25 | the LED operations never set a bit outside the 32-bit word |
| Led.ToggleChoice | led.c:18-24 | `LED_toggle` is `LED_off` when the LED shares a lit bit with `reg & LED_ALL`, `LED_on` otherwise |
| Led.Toggle | led.c:18-24 | toggling clears all of the LED's bits when any was lit, sets them all when none was, and keeps every other bit |
| Led.ToggleTwice | led.c:18-24 | toggling a single colour twice restores the register |
| Led.ToggleAllTwice | led.c:18-24 | toggling `LED_ALL` twice need not restore the register: with only red lit, the result is all three lit |

## Left out

- `spi_transparent` (spi.c lines 330-333) only returns the file-scope mode. In the model that mode is the explicit `Mode` value `Send.Send` returns, so there is no separate member for it.
- Logging: every `printf` and `fflush` in `spi.c` and `main.c` is diagnostic output and is not modelled.
- Register configuration in `spi_init` (IOF selection, chip-select mode, frame format) and `cs_deassert`'s delay: register writes and timing only. `Deassert` in the trace stands for the delay.
- The full-duplex discard reads during a send (`spi_rxdata_read()` results thrown away): their values never matter. Each `Octet` event stands for one write/read pair.
- Busy-waits on the transmit FIFO and the receive register: hardware flow control with no effect on the data.
- `uart.c`: register I/O. `uart_getchar`'s results are the `codes` input of `tty_gets`. `uart_getchar` only returns 0 to 0xFF (uart.c lines 60-61). So in this firmware `tty_gets` never returns NULL, and the retry at main.c line 89 never repeats. The model keeps both paths for general code inputs.
- `cpu.c`: the PLL set-up is hardware configuration. `cpu_freq` is the constant `Clock.CpuFreq`.
- The connect sequence at the top of `main` is not modelled:
  - the hard-coded AT commands, `get_ssid_pwd` and the `AT+CWJAP` formatting;
  - the LED colour choreography.
  
  `Console.ConsoleStep` models one round of the command loop. It calls `Send.Send` and `Recv.Recv`. `Console.ReadLine` and the LED operations are modelled as separate members; `ConsoleStep` takes the line as its input.
- Console.ReadLine: requires a CR or LF somewhere among the codes. Input with no terminator, where a full buffer ends the line, is covered by `Console.TtyGets` alone.
- Send.Send: requires the string to be shorter than 2^32 octets, the range of the `uint32_t` that `strlen`'s result is stored in.
- Clock.SckDiv: a zero `2 * spi_clock` (after wrap-around) is a division by zero in C. It is excluded by the precondition.
