/**
 * The `WAVE_SPAWN` telemetry line the LED controller (ESP32) prints when a
 * wave starts, as the console reads it: the `key=value` words after the
 * first are collected into a dictionary, a later key overriding an earlier
 * one, and `n`, `speed` and `phase` are reported, `?` standing for a missing
 * one. A word with two or more `=` makes the unpacking raise, and the
 * reader's bare `except` then abandons the rest of the read.
 */
module WaveTelemetry {
  import opened PyStr

  /** What one word after the first means to the reader. */
  datatype Token = Bare | Field(key: string, value: string) | Malformed

  /**
   * `if '=' in part: key, value = part.split('=')`: a word without `=` is
   * skipped, a word with one `=` is split around it, and a word with more
   * makes the two-name unpacking raise.
   */
  function ClassifyToken(part: string): (t: Token)
    ensures t.Bare? <==> '=' !in part
    ensures t.Malformed? <==> Count(part, '=') >= 2
    ensures t.Field? ==> part == t.key + "=" + t.value && '=' !in t.key && '=' !in t.value
  {
    var kv := Split(part, '=');
    JoinSplit(part, '=');
    if '=' !in part then Bare
    else if |kv| == 2 then Field(kv[0], kv[1])
    else Malformed
  }

  /** `part` carries the field `key`. */
  predicate HasKey(part: string, key: string) {
    ClassifyToken(part).Field? && ClassifyToken(part).key == key
  }

  /** One pass of the loop body on the dictionary; `None` once a word has raised. */
  function Record(info: map<string, string>, part: string): Option<map<string, string>> {
    match ClassifyToken(part)
    case Bare => Some(info)
    case Field(k, v) => Some(info[k := v])
    case Malformed => None
  }

  /** The dictionary the loop builds from `words`, left to right; `None` when a word raises. */
  function WaveFields(words: seq<string>): Option<map<string, string>>
    decreases |words|
  {
    if words == [] then Some(map[])
    else
      match WaveFields(words[..|words| - 1])
      case None => None
      case Some(info) => Record(info, words[|words| - 1])
  }

  /** `msg.split()[1:]`: the words after the first. */
  function Arguments(msg: string): seq<string> {
    var parts := SplitWhitespace(msg);
    if parts == [] then [] else parts[1..]
  }

  /** Once a prefix has raised, the whole line has. */
  lemma {:induction false} WaveFieldsFailedPrefix(words: seq<string>, k: nat)
    requires k <= |words| && WaveFields(words[..k]) == None
    ensures WaveFields(words) == None
    decreases |words| - k
  {
    if k < |words| {
      var next := words[..k + 1];
      assert next[..|next| - 1] == words[..k];
      WaveFieldsFailedPrefix(words, k + 1);
    } else {
      assert words[..k] == words;
    }
  }

  /**
   * The `for part in parts[1:]` loop of the reader, filling `wave_info` in
   * place. `None` stands for the `ValueError` that ends the read.
   */
  method ExtractWaveInfo(msg: string) returns (info: Option<map<string, string>>)
    ensures info == WaveFields(Arguments(msg))
  {
    var parts := SplitWhitespace(msg);
    var rest := if parts == [] then [] else parts[1..];
    var waveInfo: map<string, string> := map[];
    var i := 0;
    while i < |rest|
      invariant 0 <= i <= |rest|
      invariant WaveFields(rest[..i]) == Some(waveInfo)
    {
      var part := rest[i];
      assert rest[..i + 1][..i] == rest[..i];
      if '=' in part {
        var kv := Split(part, '=');
        if |kv| != 2 {
          WaveFieldsFailedPrefix(rest, i + 1);
          return None;
        }
        waveInfo := waveInfo[kv[0] := kv[1]];
      }
      i := i + 1;
    }
    assert rest[..i] == rest;
    return Some(waveInfo);
  }

  /** The reader gives up on a line exactly when one of its words has two or more `=`. */
  lemma {:induction false} WaveFieldsFailsIff(words: seq<string>)
    ensures WaveFields(words) == None <==> exists i :: 0 <= i < |words| && ClassifyToken(words[i]).Malformed?
    decreases |words|
  {
    if words != [] {
      var init := words[..|words| - 1];
      WaveFieldsFailsIff(init);
      if exists i :: 0 <= i < |init| && ClassifyToken(init[i]).Malformed? {
        var i :| 0 <= i < |init| && ClassifyToken(init[i]).Malformed?;
        assert words[i] == init[i];
      }
      if exists i :: 0 <= i < |words| && ClassifyToken(words[i]).Malformed? {
        var i :| 0 <= i < |words| && ClassifyToken(words[i]).Malformed?;
        if i < |init| {
          assert init[i] == words[i];
        }
      }
    }
  }

  /** One word adds its key, if it has one, to the keys already there. */
  lemma RecordKeys(prev: map<string, string>, part: string, info: map<string, string>, k: string)
    requires Record(prev, part) == Some(info)
    ensures k in info <==> k in prev || HasKey(part, k)
  {
  }

  /** A word without the key leaves its value alone; a word with it sets it. */
  lemma RecordValue(prev: map<string, string>, part: string, info: map<string, string>, k: string)
    requires Record(prev, part) == Some(info)
    ensures !HasKey(part, k) ==> (k in info <==> k in prev) && (k in prev ==> info[k] == prev[k])
    ensures HasKey(part, k) ==> k in info && info[k] == ClassifyToken(part).value
  {
  }

  /** The dictionary's keys are exactly the keys of the `key=value` words. */
  lemma {:induction false} WaveFieldsKeys(words: seq<string>, info: map<string, string>)
    requires WaveFields(words) == Some(info)
    ensures forall k :: k in info <==> exists i :: 0 <= i < |words| && HasKey(words[i], k)
    decreases |words|
  {
    if words != [] {
      var init := words[..|words| - 1];
      var prev :| WaveFields(init) == Some(prev);
      var last := words[|words| - 1];
      WaveFieldsKeys(init, prev);
      forall k ensures k in info <==> exists i :: 0 <= i < |words| && HasKey(words[i], k) {
        RecordKeys(prev, last, info, k);
        if HasKey(last, k) {
          assert HasKey(words[|words| - 1], k);
        } else if k in prev {
          var i :| 0 <= i < |init| && HasKey(init[i], k);
          assert words[i] == init[i];
        } else {
          forall i | 0 <= i < |words| ensures !HasKey(words[i], k) {
            if i < |init| {
              assert init[i] == words[i];
            }
          }
        }
      }
    }
  }

  /** A key's value is the one of its last `key=value` word: a later duplicate overrides an earlier one. */
  lemma {:induction false} WaveFieldsLastWins(words: seq<string>, info: map<string, string>, i: nat)
    requires WaveFields(words) == Some(info)
    requires i < |words| && ClassifyToken(words[i]).Field?
    requires forall j :: i < j < |words| ==> !HasKey(words[j], ClassifyToken(words[i]).key)
    ensures ClassifyToken(words[i]).key in info
    ensures info[ClassifyToken(words[i]).key] == ClassifyToken(words[i]).value
    decreases |words|
  {
    var init := words[..|words| - 1];
    var prev :| WaveFields(init) == Some(prev);
    if i < |init| {
      assert init[i] == words[i];
      forall j | i < j < |init| ensures !HasKey(init[j], ClassifyToken(init[i]).key) {
        assert init[j] == words[j];
      }
      WaveFieldsLastWins(init, prev, i);
    }
  }

  /** `dict.get(key, '?')`. */
  function FieldOr(info: map<string, string>, key: string): string {
    if key in info then info[key] else "?"
  }

  /**
   * What the reader reports for one field: `?` when no word carries the
   * key, otherwise the value of the last word that does.
   */
  lemma ReportedValue(words: seq<string>, info: map<string, string>, key: string)
    requires WaveFields(words) == Some(info)
    ensures (forall i :: 0 <= i < |words| ==> !HasKey(words[i], key)) ==> FieldOr(info, key) == "?"
    ensures forall i :: 0 <= i < |words| && HasKey(words[i], key)
                        && (forall j :: i < j < |words| ==> !HasKey(words[j], key))
                        ==> FieldOr(info, key) == ClassifyToken(words[i]).value
  {
    WaveFieldsKeys(words, info);
    forall i | 0 <= i < |words| && HasKey(words[i], key) && (forall j :: i < j < |words| ==> !HasKey(words[j], key))
      ensures FieldOr(info, key) == ClassifyToken(words[i]).value
    {
      WaveFieldsLastWins(words, info, i);
    }
  }

  /** The last word carrying a key holds the value the dictionary keeps for it. */
  /** Word `i` is the last of `words` carrying `key`, and it gives it `value`. */
  ghost predicate LastField(words: seq<string>, i: int, key: string, value: string) {
    && 0 <= i < |words|
    && HasKey(words[i], key)
    && ClassifyToken(words[i]).value == value
    && forall j :: i < j < |words| ==> !HasKey(words[j], key)
  }

  /** A last field stays the last one when a word without its key follows. */
  lemma LastFieldExtends(words: seq<string>, i: int, key: string, value: string)
    requires words != [] && LastField(words[..|words| - 1], i, key, value)
    requires !HasKey(words[|words| - 1], key)
    ensures LastField(words, i, key, value)
  {
    var init := words[..|words| - 1];
    assert words[i] == init[i];
    forall j | i < j < |words| ensures !HasKey(words[j], key) {
      if j < |init| {
        assert init[j] == words[j];
      }
    }
  }

  lemma {:induction false} WaveFieldsLastKey(words: seq<string>, info: map<string, string>, key: string)
    requires WaveFields(words) == Some(info) && key in info
    ensures exists i :: LastField(words, i, key, info[key])
    decreases |words|
  {
    if words != [] {
      var init := words[..|words| - 1];
      var last := |words| - 1;
      var prev :| WaveFields(init) == Some(prev);
      RecordValue(prev, words[last], info, key);
      if HasKey(words[last], key) {
        assert LastField(words, last, key, info[key]);
      } else {
        WaveFieldsLastKey(init, prev, key);
        var i :| LastField(init, i, key, prev[key]);
        LastFieldExtends(words, i, key, prev[key]);
      }
    }
  }

  /**
   * `value` is what `wave_info.get(key, '?')` shows for `words`: `?` when no
   * word carries the key, otherwise the value of the last word that does.
   */
  ghost predicate Reports(words: seq<string>, key: string, value: string) {
    || (value == "?" && forall i :: 0 <= i < |words| ==> !HasKey(words[i], key))
    || exists i :: LastField(words, i, key, value)
  }

  lemma WaveFieldsReports(words: seq<string>, info: map<string, string>, key: string)
    requires WaveFields(words) == Some(info)
    ensures Reports(words, key, FieldOr(info, key))
  {
    if key in info {
      WaveFieldsLastKey(words, info, key);
    } else {
      WaveFieldsKeys(words, info);
    }
  }

  /** The three values printed for a wave. */
  datatype WaveReport = WaveReport(n: string, speed: string, phase: string)

  /** How the reader shows one non-empty line from the ESP32. */
  datatype EspLine = WaveSpawned(report: WaveReport) | Echo(text: string) | ReadAbandoned

  /**
   * A `WAVE_SPAWN` line is reported by its `n`, `speed` and `phase`; any
   * other line is echoed; a `WAVE_SPAWN` line with a malformed word raises,
   * and the bare `except` ends the read there.
   */
  function DescribeEspLine(msg: string): EspLine {
    if StartsWith(msg, "WAVE_SPAWN") then
      match WaveFields(Arguments(msg))
      case None => ReadAbandoned
      case Some(info) => WaveSpawned(WaveReport(FieldOr(info, "n"), FieldOr(info, "speed"), FieldOr(info, "phase")))
    else
      Echo(msg)
  }

  /**
   * A line is echoed unchanged exactly when it does not start with
   * `WAVE_SPAWN`; a wave report shows, for each of `n`, `speed` and `phase`,
   * what `get(key, '?')` gives on the line's words.
   */
  lemma EspLineShown(msg: string)
    ensures var d := DescribeEspLine(msg);
      && (d.Echo? <==> !StartsWith(msg, "WAVE_SPAWN"))
      && (d.Echo? ==> d.text == msg)
      && (d.WaveSpawned? ==> Reports(Arguments(msg), "n", d.report.n)
                             && Reports(Arguments(msg), "speed", d.report.speed)
                             && Reports(Arguments(msg), "phase", d.report.phase))
  {
    if StartsWith(msg, "WAVE_SPAWN") && WaveFields(Arguments(msg)).Some? {
      var info := WaveFields(Arguments(msg)).value;
      WaveFieldsReports(Arguments(msg), info, "n");
      WaveFieldsReports(Arguments(msg), info, "speed");
      WaveFieldsReports(Arguments(msg), info, "phase");
    }
  }

  /** A line ends the read exactly when it is a `WAVE_SPAWN` line with a word holding two or more `=`. */
  lemma ReadAbandonedIff(msg: string)
    ensures DescribeEspLine(msg) == ReadAbandoned
        <==> StartsWith(msg, "WAVE_SPAWN")
             && exists i :: 0 <= i < |Arguments(msg)| && Count(Arguments(msg)[i], '=') >= 2
  {
    WaveFieldsFailsIff(Arguments(msg));
  }

  /** `key=value` splits around its one `=` when neither side holds one. */
  lemma FieldWord(key: string, value: string)
    requires '=' !in key && '=' !in value
    ensures ClassifyToken(key + "=" + value) == Field(key, value)
  {
    SplitAfterPiece(key, '=', value);
    SplitWithoutSeparator(value, '=');
  }

  /** The three field words of a wave line build the dictionary of their three values. */
  lemma ThreeFields(n: string, speed: string, phase: string)
    requires '=' !in n && '=' !in speed && '=' !in phase
    ensures WaveFields(["n=" + n, "speed=" + speed, "phase=" + phase])
         == Some(map["n" := n, "speed" := speed, "phase" := phase])
  {
    var args := ["n=" + n, "speed=" + speed, "phase=" + phase];
    FieldWord("n", n);
    FieldWord("speed", speed);
    FieldWord("phase", phase);
    assert "n" + "=" + n == "n=" + n;
    assert "speed" + "=" + speed == "speed=" + speed;
    assert "phase" + "=" + phase == "phase=" + phase;
    assert args[..1][..0] == [];
    assert WaveFields(args[..1]) == Some(map["n" := n]);
    assert args[..2][..1] == args[..1] && args[..2][1] == "speed=" + speed;
    assert WaveFields(args[..2]) == Some(map["n" := n, "speed" := speed]);
    assert args[..|args| - 1] == args[..2] && args[|args| - 1] == "phase=" + phase;
  }

  /**
   * Round trip: the line `WAVE_SPAWN n=<n> speed=<s> phase=<p>`, for values
   * free of whitespace and of `=`, is reported as exactly those values.
   */
  lemma WaveSpawnRoundTrip(n: string, speed: string, phase: string)
    requires NoSpace(n) && NoSpace(speed) && NoSpace(phase)
    requires '=' !in n && '=' !in speed && '=' !in phase
    ensures DescribeEspLine(JoinWords(["WAVE_SPAWN", "n=" + n, "speed=" + speed, "phase=" + phase]))
         == WaveSpawned(WaveReport(n, speed, phase))
  {
    var words := ["WAVE_SPAWN", "n=" + n, "speed=" + speed, "phase=" + phase];
    var msg := JoinWords(words);
    forall i | 0 <= i < |words| ensures words[i] != [] && NoSpace(words[i]) {
    }
    SplitWhitespaceJoinWords(words);
    assert Arguments(msg) == words[1..];
    assert msg == "WAVE_SPAWN" + " " + JoinWords(words[1..]);
    assert StartsWith(msg, "WAVE_SPAWN");
    ThreeFields(n, speed, phase);
    assert words[1..] == ["n=" + n, "speed=" + speed, "phase=" + phase];
  }
}
