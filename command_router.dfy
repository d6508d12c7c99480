/**
 * The command router of the unified Arduino + ESP32 console controller
 * (`UnifiedController.parse_command`) and what the console loop does with
 * its answer. One typed line becomes the triple (Arduino command, ESP32
 * command, mode): the linked commands `f,<v>`, `b,<v>` and `s` go to both
 * devices, `START...` and the GROUP1/GROUP2/STEPPER/SERVO debug commands go
 * to the Arduino alone, `q` stops both, `h` asks for help.
 *
 * Python's `float()` and the rendering of a float inside an f-string are
 * left abstract: they are the two functions of a `FloatText` value, and
 * every property below holds whichever functions they are.
 */
module CommandRouter {
  import opened PyStr

  /** The `mode` string of the triple. `Esp32Only` is listed by the router's documentation. */
  datatype Mode = Both | ArduinoOnly | Esp32Only | Help | Error | Unknown

  /** The triple `(arduino_cmd, esp32_cmd, mode)`; `None` is a device left alone. */
  datatype Route = Route(arduino: Option<string>, esp32: Option<string>, mode: Mode)

  /**
   * `float(text)` (None where it raises ValueError) and `f'{x}'` for a float,
   * taken as given.
   */
  datatype FloatText = FloatText(parse: string -> Option<real>, format: real -> string)

  /** A Python number: `max(0, x)` hands back the int `0` itself, not a float. */
  datatype PyNumber = PyInt(i: int) | PyFloat(x: real)

  function NumValue(n: PyNumber): real {
    match n
    case PyInt(i) => i as real
    case PyFloat(x) => x
  }

  /** Python's `max(a, b)`: the first argument unless the second is strictly greater. */
  function PyMax(a: PyNumber, b: PyNumber): (m: PyNumber)
    ensures m == a || m == b
    ensures NumValue(m) >= NumValue(a) && NumValue(m) >= NumValue(b)
    ensures NumValue(b) <= NumValue(a) ==> m == a
  {
    if NumValue(b) > NumValue(a) then b else a
  }

  /**
   * The LED level sent to the ESP32 for `b,<v>`: `max(0, 100 - v)`. For
   * every accepted `v` it is exactly `100 - v`, inside [0, 100], so the
   * `max` never clips; it is the int `0` exactly when `v` is 100.
   */
  function LedLevel(v: real): (n: PyNumber)
    ensures 0.0 <= v <= 100.0 ==> NumValue(n) == 100.0 - v && 0.0 <= NumValue(n) <= 100.0
    ensures n == PyInt(0) <==> v >= 100.0
    ensures n != PyInt(0) ==> n == PyFloat(100.0 - v)
  {
    PyMax(PyInt(0), PyFloat(100.0 - v))
  }

  function DigitChar(d: int): char
    requires 0 <= d < 10
  {
    "0123456789"[d]
  }

  /** `str(n)` for a natural number. */
  function NatText(n: nat): string
    decreases n
  {
    if n < 10 then [DigitChar(n)] else NatText(n / 10) + [DigitChar(n % 10)]
  }

  /** `f'{n}'`: ints in decimal, floats through the abstract formatter. */
  function NumberText(n: PyNumber, ft: FloatText): string {
    match n
    case PyInt(i) => if i < 0 then "-" + NatText(-i) else NatText(i)
    case PyFloat(x) => ft.format(x)
  }

  /** `command.lower().strip()`. */
  function Normalize(command: string): string {
    Strip(Lower(command))
  }

  const DeviceKeywords: seq<string> := ["group1", "group2", "stepper", "servo"]

  /** `any(keyword in command_lower for keyword in [...])`. */
  predicate HasDeviceKeyword(cl: string) {
    exists k :: k in DeviceKeywords && Contains(cl, k)
  }

  /** `cl` is `f,<arg>` or `b,<arg>` with exactly one argument (its comma split has two parts). */
  predicate LinkedPair(cl: string) {
    (StartsWith(cl, "f,") || StartsWith(cl, "b,")) && ',' !in cl[2..]
  }

  /** The argument is a number in [0, 100]. */
  predicate InRange(value: Option<real>) {
    value.Some? && 0.0 <= value.value <= 100.0
  }

  /**
   * `parse_command`: an ordered chain of cases on the lower-cased, stripped
   * line; the first that matches decides. The router never picks the
   * ESP32-only mode; help, error and unknown leave both devices alone; an
   * Arduino-only command forwards the line exactly as typed; a linked
   * command sends non-empty text to both devices.
   */
  function ParseCommand(command: string, ft: FloatText): (r: Route)
    ensures r.mode != Esp32Only
    ensures r.mode in {Help, Error, Unknown} ==> r.arduino == None && r.esp32 == None
    ensures r.mode == ArduinoOnly ==> r.arduino == Some(command) && r.esp32 == None
    ensures r.mode == Both ==> r.arduino.Some? && r.arduino.value != [] && r.esp32.Some? && r.esp32.value != []
    ensures r.esp32.Some? ==> r.esp32.value in ["q", "s"] || StartsWith(r.esp32.value, "f,")
  {
    ClassifyShape(command, Normalize(command), ft);
    Classify(command, Normalize(command), ft)
  }

  /** The chain of cases, on the original line and its lowered, stripped form `cl`. */
  function Classify(command: string, cl: string, ft: FloatText): (r: Route)
  {
    if cl in ["q", "quit"] then
      Route(Some("s"), Some("q"), Both)
    else if cl in ["h", "help"] then
      Route(None, None, Help)
    else if StartsWith(cl, "f,") && |Split(cl, ',')| == 2 then
      var value := ft.parse(Split(cl, ',')[1]);
      if InRange(value) then
        var text := "f," + ft.format(value.value);
        Route(Some(text), Some(text), Both)
      else
        Route(None, None, Error)
    else if StartsWith(cl, "b,") && |Split(cl, ',')| == 2 then
      var value := ft.parse(Split(cl, ',')[1]);
      if InRange(value) then
        Route(Some("b," + ft.format(value.value)), Some("f," + NumberText(LedLevel(value.value), ft)), Both)
      else
        Route(None, None, Error)
    else if cl == "s" then
      Route(Some("s"), Some("s"), Both)
    else if StartsWith(cl, "start") then
      Route(Some(command), None, ArduinoOnly)
    else if HasDeviceKeyword(cl) then
      Route(Some(command), None, ArduinoOnly)
    else
      Route(None, None, Unknown)
  }

  /** The routing of `q`: stop the Arduino, switch the ESP32 off. */
  const StopAll := Route(Some("s"), Some("q"), Both)

  /** For `<c>,<rest>`: the comma split has two parts exactly when `rest` has no comma, and then the second is `rest`. */
  lemma LinkedSplit(cl: string, c: char)
    requires c != ',' && StartsWith(cl, [c, ','])
    ensures |Split(cl, ',')| == 2 <==> ',' !in cl[2..]
    ensures ',' !in cl[2..] ==> Split(cl, ',') == [[c], cl[2..]]
  {
    assert cl == [c] + [','] + cl[2..];
    SplitAfterPiece([c], ',', cl[2..]);
    if ',' !in cl[2..] {
      SplitWithoutSeparator(cl[2..], ',');
    }
  }

  /** Both linked prefixes at once. */
  lemma LinkedShape(cl: string)
    ensures StartsWith(cl, "f,") ==> (|Split(cl, ',')| == 2 <==> ',' !in cl[2..])
    ensures StartsWith(cl, "b,") ==> (|Split(cl, ',')| == 2 <==> ',' !in cl[2..])
    ensures LinkedPair(cl) ==> |Split(cl, ',')| == 2 && Split(cl, ',')[1] == cl[2..]
  {
    if StartsWith(cl, "f,") {
      LinkedSplit(cl, 'f');
    }
    if StartsWith(cl, "b,") {
      LinkedSplit(cl, 'b');
    }
  }

  /** The one- to four-letter commands hold no device keyword and do not start with `start`. */
  lemma ShortCommandsAreNotArduinoCommands(cl: string)
    requires |cl| <= 4
    ensures !StartsWith(cl, "start") && !HasDeviceKeyword(cl)
  {
    forall k | k in DeviceKeywords ensures !Contains(cl, k) {
      assert |k| >= 5;
    }
  }

  /** Which case of the chain a lowered, stripped line lands in. */
  lemma ClassifyCases(command: string, cl: string, ft: FloatText)
    ensures var r := Classify(command, cl, ft);
      && (cl in ["q", "quit"] <==> r == StopAll)
      && (cl in ["h", "help"] <==> r == Route(None, None, Help))
      && (cl == "s" <==> r == Route(Some("s"), Some("s"), Both))
      && (r.mode == Error <==> LinkedPair(cl) && !InRange(ft.parse(cl[2..])))
      && (r.mode == ArduinoOnly <==> !LinkedPair(cl) && (StartsWith(cl, "start") || HasDeviceKeyword(cl)))
      && (r.mode == Unknown <==> cl !in ["q", "quit", "h", "help", "s"] && !LinkedPair(cl)
                                 && !StartsWith(cl, "start") && !HasDeviceKeyword(cl))
  {
    LinkedShape(cl);
    if |cl| <= 4 {
      ShortCommandsAreNotArduinoCommands(cl);
    }
  }

  /** The shape of every answer of the chain. */
  lemma ClassifyShape(command: string, cl: string, ft: FloatText)
    ensures var r := Classify(command, cl, ft);
      && r.mode != Esp32Only
      && (r.mode in {Help, Error, Unknown} ==> r.arduino == None && r.esp32 == None)
      && (r.mode == ArduinoOnly ==> r.arduino == Some(command) && r.esp32 == None)
      && (r.mode == Both ==> r.arduino.Some? && r.arduino.value != [] && r.esp32.Some? && r.esp32.value != [])
      && (r.esp32.Some? ==> r.esp32.value in ["q", "s"] || StartsWith(r.esp32.value, "f,"))
  {
  }

  /** A linked command with one argument in [0, 100]. */
  lemma ClassifyLinked(command: string, cl: string, ft: FloatText, v: real)
    requires LinkedPair(cl) && ft.parse(cl[2..]) == Some(v) && 0.0 <= v <= 100.0
    ensures StartsWith(cl, "f,") ==> Classify(command, cl, ft) == Route(Some("f," + ft.format(v)), Some("f," + ft.format(v)), Both)
    ensures StartsWith(cl, "b,") ==> Classify(command, cl, ft) == Route(Some("b," + ft.format(v)), Some("f," + NumberText(LedLevel(v), ft)), Both)
  {
    LinkedShape(cl);
  }

  /** A linked prefix with more than one argument falls through the linked cases. */
  lemma ClassifyFallThrough(command: string, cl: string, ft: FloatText)
    requires StartsWith(cl, "f,") || StartsWith(cl, "b,")
    requires ',' in cl[2..]
    ensures Classify(command, cl, ft).mode == (if HasDeviceKeyword(cl) then ArduinoOnly else Unknown)
  {
    ClassifyCases(command, cl, ft);
    assert cl[0] == 'f' || cl[0] == 'b';
    assert !StartsWith(cl, "start");
    assert |cl| >= 3;
  }

  /** `q` or `quit`, in any case and with any surrounding whitespace, and nothing else, stops both devices. */
  lemma QuitRouting(command: string, ft: FloatText)
    ensures Normalize(command) in ["q", "quit"] <==> ParseCommand(command, ft) == StopAll
  {
    ClassifyCases(command, Normalize(command), ft);
  }

  /** `h` or `help`, and nothing else, asks for help; no device is addressed. */
  lemma HelpRouting(command: string, ft: FloatText)
    ensures Normalize(command) in ["h", "help"] <==> ParseCommand(command, ft) == Route(None, None, Help)
  {
    ClassifyCases(command, Normalize(command), ft);
  }

  /** `f,<v>` with one argument `v` in [0, 100] sends the same `f,<v>` to both devices. */
  lemma ForwardRouting(command: string, ft: FloatText, v: real)
    requires StartsWith(Normalize(command), "f,") && ',' !in Normalize(command)[2..]
    requires ft.parse(Normalize(command)[2..]) == Some(v) && 0.0 <= v <= 100.0
    ensures ParseCommand(command, ft) == Route(Some("f," + ft.format(v)), Some("f," + ft.format(v)), Both)
  {
    ClassifyLinked(command, Normalize(command), ft, v);
  }

  /**
   * `b,<v>` with one argument `v` in [0, 100] moves the Arduino back by `v`
   * and sets the ESP32 to `f,<100 - v>`, a level that always lies in [0, 100].
   */
  lemma BackwardRouting(command: string, ft: FloatText, v: real)
    requires StartsWith(Normalize(command), "b,") && ',' !in Normalize(command)[2..]
    requires ft.parse(Normalize(command)[2..]) == Some(v) && 0.0 <= v <= 100.0
    ensures ParseCommand(command, ft).mode == Both
    ensures ParseCommand(command, ft).arduino == Some("b," + ft.format(v))
    ensures ParseCommand(command, ft).esp32 == Some("f," + NumberText(LedLevel(v), ft))
    ensures NumValue(LedLevel(v)) == 100.0 - v && 0.0 <= NumValue(LedLevel(v)) <= 100.0
  {
    ClassifyLinked(command, Normalize(command), ft, v);
  }

  /**
   * The router reports a format error exactly for a linked command with one
   * argument that does not parse or lies outside [0, 100].
   */
  lemma ErrorRouting(command: string, ft: FloatText)
    ensures ParseCommand(command, ft).mode == Error
        <==> LinkedPair(Normalize(command)) && !InRange(ft.parse(Normalize(command)[2..]))
  {
    ClassifyCases(command, Normalize(command), ft);
  }

  /**
   * A linked command with a second comma (`f,1,2`) is not an error: it falls
   * through to the later cases and ends Arduino-only when it holds a device
   * keyword, unknown otherwise.
   */
  lemma ArgumentCountFallThrough(command: string, ft: FloatText)
    requires StartsWith(Normalize(command), "f,") || StartsWith(Normalize(command), "b,")
    requires ',' in Normalize(command)[2..]
    ensures ParseCommand(command, ft).mode == (if HasDeviceKeyword(Normalize(command)) then ArduinoOnly else Unknown)
  {
    ClassifyFallThrough(command, Normalize(command), ft);
  }

  /** Exactly `s` pauses both devices. */
  lemma StopRouting(command: string, ft: FloatText)
    ensures Normalize(command) == "s" <==> ParseCommand(command, ft) == Route(Some("s"), Some("s"), Both)
  {
    ClassifyCases(command, Normalize(command), ft);
  }

  /**
   * A line goes to the Arduino alone exactly when it is not a one-argument
   * linked command and it starts with `start` or holds a device keyword;
   * the line is forwarded as typed and the ESP32 is left alone.
   */
  lemma ArduinoOnlyRouting(command: string, ft: FloatText)
    ensures ParseCommand(command, ft).mode == ArduinoOnly
        <==> !LinkedPair(Normalize(command)) && (StartsWith(Normalize(command), "start") || HasDeviceKeyword(Normalize(command)))
  {
    ClassifyCases(command, Normalize(command), ft);
  }

  /**
   * Commands are case-insensitive: two lines that agree once lower-cased get
   * the same mode and the same ESP32 command. (An Arduino-only line is still
   * forwarded as typed.)
   */
  lemma CaseInsensitiveRouting(a: string, b: string, ft: FloatText)
    requires Lower(a) == Lower(b)
    ensures ParseCommand(a, ft).mode == ParseCommand(b, ft).mode
    ensures ParseCommand(a, ft).esp32 == ParseCommand(b, ft).esp32
    ensures ParseCommand(a, ft).mode != ArduinoOnly ==> ParseCommand(a, ft) == ParseCommand(b, ft)
  {
    var cl := Normalize(a);
    assert Normalize(b) == cl;
    ClassifyIgnoresLine(a, b, cl, ft);
  }

  /** The chain looks at the typed line only to forward it. */
  lemma ClassifyIgnoresLine(a: string, b: string, cl: string, ft: FloatText)
    ensures Classify(a, cl, ft).mode == Classify(b, cl, ft).mode
    ensures Classify(a, cl, ft).esp32 == Classify(b, cl, ft).esp32
    ensures Classify(a, cl, ft).mode != ArduinoOnly ==> Classify(a, cl, ft) == Classify(b, cl, ft)
  {
  }

  /** Lower-casing a line first changes nothing about how it is routed, except the text an Arduino-only line forwards. */
  lemma LowerFirstRoutesAlike(command: string, ft: FloatText)
    ensures ParseCommand(Lower(command), ft).mode == ParseCommand(command, ft).mode
    ensures ParseCommand(Lower(command), ft).esp32 == ParseCommand(command, ft).esp32
  {
    LowerIdempotent(command);
    CaseInsensitiveRouting(Lower(command), command, ft);
  }

  /** A line is unknown exactly when no case matches it. */
  lemma UnknownRouting(command: string, ft: FloatText)
    ensures ParseCommand(command, ft).mode == Unknown
        <==> var cl := Normalize(command);
             cl !in ["q", "quit", "h", "help", "s"] && !LinkedPair(cl)
             && !StartsWith(cl, "start") && !HasDeviceKeyword(cl)
  {
    ClassifyCases(command, Normalize(command), ft);
  }

  datatype Device = Arduino | Esp32

  /** What the console loop does for one command. */
  datatype Effect =
    | Write(device: Device, text: string)
    | ShowHelp
    | ReportFormatError
    | ReportUnrecognised
    | WarnEmpty(device: Device)

  /** The effects of one typed line, and whether the loop asks for the next one. */
  datatype Outcome = Outcome(effects: seq<Effect>, keepRunning: bool)

  /** Python truthiness of a command: present and non-empty. */
  predicate Truthy(cmd: Option<string>) {
    cmd.Some? && cmd.value != []
  }

  function WriteIfSet(device: Device, cmd: Option<string>): seq<Effect> {
    if Truthy(cmd) then [Write(device, cmd.value)] else []
  }

  /** The console loop's dispatch on the mode. */
  function Effects(r: Route): seq<Effect> {
    match r.mode
    case Help => [ShowHelp]
    case Error => [ReportFormatError]
    case Unknown => [ReportUnrecognised]
    case Both => WriteIfSet(Arduino, r.arduino) + WriteIfSet(Esp32, r.esp32)
    case ArduinoOnly => if Truthy(r.arduino) then [Write(Arduino, r.arduino.value)] else [WarnEmpty(Arduino)]
    case Esp32Only => if Truthy(r.esp32) then [Write(Esp32, r.esp32.value)] else [WarnEmpty(Esp32)]
  }

  /**
   * What the dispatch does: a device is written only in a mode that
   * addresses it, only the non-empty text the router gave it, and the
   * Arduino before the ESP32; each report and each warning shows up exactly
   * in its own mode.
   */
  lemma EffectsDispatch(r: Route)
    ensures var e := Effects(r);
      && (1 <= |e| <= 2 || (e == [] && r.mode == Both && !Truthy(r.arduino) && !Truthy(r.esp32)))
      && (forall t :: Write(Arduino, t) in e <==> r.mode in {Both, ArduinoOnly} && r.arduino == Some(t) && t != [])
      && (forall t :: Write(Esp32, t) in e <==> r.mode in {Both, Esp32Only} && r.esp32 == Some(t) && t != [])
      && (|e| == 2 ==> e[0].Write? && e[0].device == Arduino && e[1].Write? && e[1].device == Esp32)
      && (ShowHelp in e <==> r.mode == Help)
      && (ReportFormatError in e <==> r.mode == Error)
      && (ReportUnrecognised in e <==> r.mode == Unknown)
      && (WarnEmpty(Arduino) in e <==> r.mode == ArduinoOnly && !Truthy(r.arduino))
      && (WarnEmpty(Esp32) in e <==> r.mode == Esp32Only && !Truthy(r.esp32))
  {
  }

  /** One pass of the console loop as written: every command, `q` included, leads back to the prompt. */
  function StepAsWritten(line: string, ft: FloatText): Outcome {
    var command := Strip(line);
    if command == [] then Outcome([], true)
    else Outcome(Effects(ParseCommand(command, ft)), true)
  }

  /** As written, `q` stops both devices and then prompts for the next command. */
  lemma QuitKeepsLoopRunning(ft: FloatText)
    ensures StepAsWritten("q", ft) == Outcome([Write(Arduino, "s"), Write(Esp32, "q")], true)
  {
    assert TrimStart("q") == "q";
    assert TrimEnd("q") == "q";
    assert Lower("q") == "q";
    assert Normalize("q") == "q";
    ClassifyCases("q", "q", ft);
  }

  /** One pass of the console loop with `q` ending the session, as its help text promises. */
  function Step(line: string, ft: FloatText): Outcome {
    var command := Strip(line);
    if command == [] then Outcome([], true) else Pass(command, ft)
  }

  /** The corrected pass for a non-empty command: dispatch, then leave the loop on the stop route. */
  function Pass(command: string, ft: FloatText): Outcome {
    var r := ParseCommand(command, ft);
    Outcome(Effects(r), r != StopAll)
  }

  /** The session ends exactly on `q` or `quit`, after the stop commands went out. */
  lemma QuitEndsLoop(line: string, ft: FloatText)
    ensures !Step(line, ft).keepRunning <==> Normalize(Strip(line)) in ["q", "quit"]
    ensures !Step(line, ft).keepRunning ==> Step(line, ft).effects == [Write(Arduino, "s"), Write(Esp32, "q")]
  {
    var command := Strip(line);
    if command == [] {
      assert Step(line, ft) == Outcome([], true);
      assert Normalize(command) == [] by {
        assert Lower(command) == [];
      }
    } else {
      assert Step(line, ft) == Pass(command, ft);
      PassStops(command, ft);
    }
  }

  lemma PassStops(command: string, ft: FloatText)
    ensures !Pass(command, ft).keepRunning <==> Normalize(command) in ["q", "quit"]
    ensures !Pass(command, ft).keepRunning ==> Pass(command, ft).effects == [Write(Arduino, "s"), Write(Esp32, "q")]
  {
    QuitRouting(command, ft);
    assert Effects(StopAll) == [Write(Arduino, "s"), Write(Esp32, "q")];
  }

  /**
   * The pass as written never leaves the loop; the corrected pass does the
   * same things, so the correction changes only when the loop ends; and a
   * pass does nothing exactly when the typed line is all whitespace.
   */
  lemma StepEffects(line: string, ft: FloatText)
    ensures StepAsWritten(line, ft).keepRunning
    ensures Step(line, ft).effects == StepAsWritten(line, ft).effects
    ensures StepAsWritten(line, ft).effects == [] <==> AllSpace(line)
  {
    var command := Strip(line);
    if command != [] {
      EffectsDispatch(ParseCommand(command, ft));
    }
  }

  /**
   * No typed line reaches the ESP32-only branch or the "empty command"
   * warnings; every line either writes to a device or reports something,
   * and the ESP32 only ever receives `q`, `s` or `f,<level>`.
   */
  lemma StepNeverWarns(line: string, ft: FloatText, e: Effect)
    requires e in StepAsWritten(line, ft).effects || e in Step(line, ft).effects
    ensures !e.WarnEmpty?
    ensures e.Write? && e.device == Esp32 ==> e.text in ["q", "s"] || StartsWith(e.text, "f,")
  {
    var command := Strip(line);
    if command != [] {
      CommandNeverWarns(command, ft, e);
    }
  }

  lemma CommandNeverWarns(command: string, ft: FloatText, e: Effect)
    requires command != [] && e in Effects(ParseCommand(command, ft))
    ensures !e.WarnEmpty?
    ensures e.Write? && e.device == Esp32 ==> e.text in ["q", "s"] || StartsWith(e.text, "f,")
  {
    var r := ParseCommand(command, ft);
    EffectsDispatch(r);
    DispatchNeverWarns(r, e);
  }

  /** The dispatch of an answer shaped like the router's never warns and writes the ESP32 only a router text. */
  lemma DispatchNeverWarns(r: Route, e: Effect)
    requires r.mode != Esp32Only
    requires r.mode == ArduinoOnly ==> Truthy(r.arduino)
    requires r.esp32.Some? ==> r.esp32.value in ["q", "s"] || StartsWith(r.esp32.value, "f,")
    requires e in Effects(r)
    ensures !e.WarnEmpty?
    ensures e.Write? && e.device == Esp32 ==> e.text in ["q", "s"] || StartsWith(e.text, "f,")
  {
    EffectsDispatch(r);
    if e.Write? && e.device == Esp32 {
      assert e == Write(Esp32, e.text);
    }
  }
}
