# Unified Arduino + ESP32 console: command router and wave telemetry

`unified_control.py` is a console program that drives two boards at once. The
Arduino runs the linear actuators and motors. The ESP32 runs the LED strips.
The user types one command per line. `UnifiedController.parse_command` decides
what text goes to each board. The console loop then writes that text to the
boards, or shows help or an error. While this happens, a reader echoes what
the ESP32 prints. It shows `WAVE_SPAWN` telemetry lines in a compact form.

This Dafny project models three things:

- `parse_command` (module `CommandRouter`). It is an ordered chain of cases on
  the lower-cased, stripped line, and the first match wins:
  - `q`/`quit` stops both boards.
  - `h`/`help` asks for help.
  - `f,<v>` sends the same `f,<v>` to both boards.
  - `b,<v>` sends `b,<v>` to the Arduino and `f,<100-v>` to the ESP32.
  - `s` pauses both boards.
  - A line starting with `start`, or holding `group1`, `group2`, `stepper` or
    `servo`, goes to the Arduino alone, exactly as typed.
  - Anything else is unknown.
- One pass of the console loop (`CommandRouter.Step`): what it does with the
  router's answer.
- The `WAVE_SPAWN` field extractor (module `WaveTelemetry`). The source builds
  the `wave_info` dictionary with a `for` loop, and here it is a method with a
  `while` loop (`ExtractWaveInfo`). That method is proved against a left-fold
  specification (`WaveFields`), and the lemmas state what the fold computes.

Module `PyStr` gives the Python string built-ins that both rely on:
`str.lower`, `str.strip`, `str.split(',')`, `str.split()`, `startswith` and
`k in s`. Their round trips are proved: join after split, split after join,
and the words of `split()` keep every non-space character.

Python's `float()` and the rendering of a float inside an f-string are not
modelled. They are the two fields of a `FloatText` value, passed to the
router. Every routing property holds whatever those two functions are. The
one number the router renders itself is the int `0` from `max(0, 100 - v)`
when `v` is 100. Python's `max` returns its first argument on a tie, so
`b,100` sends `f,0` rendered as an int. `LedLevel` and `NumberText` model
this.

The router does not clamp an out-of-range value. It rejects such a line as
a format error and sends nothing to either board (`ErrorRouting`). The LED
firmware's own clamping is not part of this model.

## Model

| member | source | states |
|---|---|---|
| `PyStr.Lower` | unified_control.py:150 | `lower()` keeps the length, turns each upper-case ASCII letter into its lower-case form (code point + 32), keeps every other character, and keeps which characters are whitespace |
| `PyStr.LowerIdempotent` | unified_control.py:150 | lower-casing twice is lower-casing once |
| `PyStr.Strip` | unified_control.py:150 | `strip()` returns text that starts and ends with a non-space character, or is empty; it is empty exactly when the line is all whitespace |
| `PyStr.StripKeepsMiddle` | unified_control.py:150 | what `strip()` keeps is one contiguous slice of the line, and only whitespace lies outside it |
| `PyStr.StripIdempotent` | unified_control.py:281 | stripping the already stripped console input again changes nothing |
| `PyStr.Contains` | unified_control.py:198 | `k in s` can hold only if `k` is no longer than `s` |
| `PyStr.ContainsIffOccurs` | unified_control.py:198 | `k in s` holds exactly when `k` occurs at some index of `s` |
| `PyStr.Split` | unified_control.py:163 | `split(',')` gives one more part than there are commas, and no part holds a comma |
| `PyStr.JoinSplit` | unified_control.py:163 | joining the parts of a split with the separator gives back the text |
| `PyStr.SplitJoin` | unified_control.py:163 | splitting a join of separator-free parts gives back the parts |
| `PyStr.SplitWhitespace` | unified_control.py:128 | `split()` yields non-empty words without whitespace, and a line starting with a non-space character has a first word starting with it |
| `PyStr.SplitWhitespaceKeepsText` | unified_control.py:128 | the words hold exactly the non-whitespace characters of the line, in order |
| `PyStr.SplitWhitespaceJoinWords` | unified_control.py:128 | splitting the space-join of non-empty, space-free words gives back the words |
| `PyStr.SplitWhitespaceInterleave` | unified_control.py:128 | for non-empty, space-free words with whitespace separators that are non-empty between words (the ends may be empty), `split()` of the joined text gives back exactly the words, so each word is a maximal run of non-whitespace characters |
| `CommandRouter.PyMax` | unified_control.py:182 | `max(a, b)` returns one of its arguments, at least as large as both, and the first one on a tie |
| `CommandRouter.LedLevel` | unified_control.py:182 | for every accepted `v` in [0,100], `max(0, 100 - v)` equals `100 - v` and lies in [0,100], so it never clips; it is the int `0` exactly when `v` is 100 |
| `CommandRouter.ParseCommand` | unified_control.py:144-203 | never returns the ESP32-only mode; help, error and unknown address no board; Arduino-only forwards the line as typed and leaves the ESP32 alone; a linked command sends non-empty text to both boards; the ESP32 only ever gets `q`, `s` or `f,...` |
| `CommandRouter.LinkedSplit` | unified_control.py:163-164 | for `f,<rest>` or `b,<rest>`, the comma split has two parts exactly when `rest` has no comma, and the second part is then `rest` |
| `CommandRouter.QuitRouting` | unified_control.py:150-154 | `q` or `quit`, in any case and with any surrounding whitespace, gives `('s', 'q', both)`, and no other line does |
| `CommandRouter.HelpRouting` | unified_control.py:156-158 | `h` or `help`, and no other line, gives `(None, None, help)` |
| `CommandRouter.ForwardRouting` | unified_control.py:160-168 | `f,<v>` with exactly one argument that parses to `v` in [0,100] sends the same `f,<v>` to both boards |
| `CommandRouter.BackwardRouting` | unified_control.py:174-183 | `b,<v>` with one argument `v` in [0,100] sends `b,<v>` to the Arduino and `f,<max(0,100-v)>` to the ESP32, a level equal to `100 - v` and within [0,100] |
| `CommandRouter.ErrorRouting` | unified_control.py:161-187 | the mode is `error` exactly for `f,`/`b,` with one argument that does not parse or lies outside [0,100] |
| `CommandRouter.ArgumentCountFallThrough` | unified_control.py:161-203 | an `f,`/`b,` line with a second comma is not an error: it ends Arduino-only when it holds a device keyword, unknown otherwise |
| `CommandRouter.StopRouting` | unified_control.py:189-191 | exactly `s` gives `('s', 's', both)` |
| `CommandRouter.ArduinoOnlyRouting` | unified_control.py:193-199 | the mode is Arduino-only exactly when the line is not a one-argument linked command and starts with `start` or holds `group1`, `group2`, `stepper` or `servo` |
| `CommandRouter.UnknownRouting` | unified_control.py:201-203 | the mode is `unknown` exactly when no earlier case matches |
| `CommandRouter.CaseInsensitiveRouting` | unified_control.py:150 | two lines that agree once lower-cased get the same mode and the same ESP32 command, and the same whole answer unless Arduino-only (which forwards the line as typed) |
| `CommandRouter.LowerFirstRoutesAlike` | unified_control.py:150 | lower-casing a line before routing it changes neither the mode nor the ESP32 command |
| `CommandRouter.EffectsDispatch` | unified_control.py:291-327 | `Effects`, the dispatch on the mode, writes a device only in a mode that addresses it, only the non-empty text the router gave it, the Arduino before the ESP32, at most two effects; help, format error, unrecognised and each empty-command warning appear exactly in their own mode |
| `CommandRouter.StepEffects` | unified_control.py:278-332 | `StepAsWritten`, one pass of the loop as written, never leaves the loop; `Step`, the corrected pass, has the same effects, so the correction changes only when the loop ends; a pass does nothing exactly when the typed line is all whitespace |
| `CommandRouter.QuitKeepsLoopRunning` | unified_control.py:289-332 | as written, the line `q` writes `s` to the Arduino and `q` to the ESP32, and the loop then asks for the next command |
| `CommandRouter.QuitEndsLoop` | unified_control.py:285-313 | with the correction, the loop stops exactly on `q`/`quit`, after writing `s` to the Arduino and `q` to the ESP32 |
| `CommandRouter.StepNeverWarns` | unified_control.py:305-327 | in the pass as written and in the corrected one, no typed line triggers either "empty command" warning, and the ESP32 is only ever sent `q`, `s` or `f,...` |
| `WaveTelemetry.ClassifyToken` | unified_control.py:131-133 | a word without `=` is skipped; one with a single `=` is `key` + `=` + `value` with no `=` on either side; the unpacking raises exactly when the word has two or more `=` |
| `WaveTelemetry.ExtractWaveInfo` | unified_control.py:127-133 | the loop over the words after the first builds exactly the dictionary of the left fold `WaveFields`, or reports the error that ends the read |
| `WaveTelemetry.WaveFieldsFailsIff` | unified_control.py:130-133 | the extraction fails exactly when some word after the first holds two or more `=` |
| `WaveTelemetry.WaveFieldsKeys` | unified_control.py:130-133 | the dictionary's keys are exactly the keys of the `key=value` words |
| `WaveTelemetry.WaveFieldsLastWins` | unified_control.py:133 | a key maps to the value of its last word: a later duplicate overrides an earlier one |
| `WaveTelemetry.WaveFieldsLastKey` | unified_control.py:130-133 | every key of the dictionary comes from a `key=value` word, and its value is that of the last such word |
| `WaveTelemetry.WaveFieldsReports` | unified_control.py:130-136 | `get(key, '?')` on the dictionary gives `?` when no word carries the key, otherwise the value of the last word that does |
| `WaveTelemetry.ReportedValue` | unified_control.py:134-136 | a reported field is `?` when no word carries its key, otherwise the value of the last word that does |
| `WaveTelemetry.EspLineShown` | unified_control.py:126-139 | `DescribeEspLine`: a line not starting with `WAVE_SPAWN` is echoed unchanged, and only such a line is; a `WAVE_SPAWN` report shows for `n`, `speed` and `phase` each either `?` with no word carrying that key, or the value of the last word that does |
| `WaveTelemetry.ReadAbandonedIff` | unified_control.py:127-142 | a line abandons the read exactly when it starts with `WAVE_SPAWN` and a word after the first holds two or more `=` |
| `WaveTelemetry.WaveSpawnRoundTrip` | unified_control.py:127-137 | the line `WAVE_SPAWN n=<n> speed=<s> phase=<p>`, with values free of whitespace and `=`, is reported as exactly those three values |

## Findings

| source | as written | input that shows it | evidently intended | confidence | as-written member | corrected member |
|---|---|---|---|---|---|---|
| unified_control.py:289-332 | `q` is routed to `('s', 'q', both)`. The loop writes both stop commands and then prompts again. Only end of input or Ctrl+C leaves the loop. | the line `q` | `q` leaves the loop. The help text (line 234) and the comment at line 152 call it the exit command. The `finally` block then shuts both boards down and closes the ports. | not executed; high | `CommandRouter.QuitKeepsLoopRunning` (on `StepAsWritten`) | `CommandRouter.QuitEndsLoop` (on `Step`) |

## Left out

- Serial I/O is not modelled: listing ports, connecting, writing, reading and closing (`list_available_ports`, `connect_device`, `send_command`, the `finally` shutdown; unified_control.py:21-103, 337-365). A `Write` effect stands for one `send_command` call. Whether the port is open is not modelled.
- The rest of `read_responses` is serial I/O and is not modelled: the Arduino side, the `in_waiting` polling, `readline` and decoding, and the cap of ten messages per read. `DescribeEspLine` takes one stripped, non-empty message. `ReadAbandoned` stands for the bare `except` that ends the read.
- The reader thread, `queue.Queue` and the `running` flag are not modelled. They are concurrency and add no routing logic.
- The console loop is modelled one pass at a time (`Step`). The `input()` prompt is a parameter, the typed line. The same holds for the port-choice prompt in `connect_device`.
- `print_help` and every `print` call are not modelled: they are console output.
- Python's `float()` and f-string rendering of floats are abstract. The model does not cover `nan`, `inf`, signed zero, or the exact text a float renders to.
- `CommandRouter.LedLevel`: Python computes `100 - value` in double precision, and the model subtracts exact reals. For an accepted `v` in [0, 100] the bound and "the int `0` exactly at 100" hold in double arithmetic too. Any rounding of the text sent lies in the abstract `format`.
- `PyStr.Lower`: only the ASCII letters are mapped. Python also maps non-ASCII capitals, some to two characters. No command word or device keyword can come from a non-ASCII capital. Only the text handed to `float()` can differ, and that parse is abstract.
- `Machanic/control_test.py`, `Machanic/test_serial.py` and `灯带/control_led.py` are not part of this model. They are separate interactive serial drivers with no routing logic of their own.
- The LED rendering and actuator firmware are not part of this model. Their source is not among the files modelled.
