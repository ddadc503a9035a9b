/**
 * The configuration reader (process_config_file): a sequence of text lines,
 * as getline returns them, becomes the broker address, the GPIO table and
 * the SUB table. This module holds the specification the reader is proved
 * against: one line's effect (LineStep) folded over the file (ReadConfig),
 * and declarative views of the result.
 */
module Config {
  import opened Wrappers
  import opened CStrings
  import opened Strtok

  /** INT_MAX of a 32-bit int, the bound of the table counters. */
  const INT_MAX: int := 0x7fff_ffff

  /** One GPIO line: the name SUB entries link to, the chip and the pin offset. */
  datatype GpioInfo = GpioInfo(gpioName: string, chipStr: string, pin: int)

  /** One SUB line: a topic, the name of the GPIO it drives, its QoS and the INV flag. */
  datatype SubInfo = SubInfo(topicStr: string, gpioName: string, qos: int, inv: bool)

  /** Why a configuration line ends the run: a missing field (numbered from 1 after the keyword) or an unknown keyword. */
  datatype ConfigError =
    | MissingField(keyword: string, field: nat)
    | UnknownCommand(token: string)

  datatype Fatal = Fatal(lineNo: nat, error: ConfigError)

  /** The process-wide state the reader writes: broker host (NULL until set), port and the two tables. */
  datatype Tables = Tables(server: Option<string>, port: int, gpios: seq<GpioInfo>, subs: seq<SubInfo>)

  /** The tables before any line is read. */
  const Initial: Tables := Tables(None, 0, [], [])

  /** The reader either carries on with new tables or ends the process with a failure. */
  datatype Step = Next(tables: Tables) | Exit(tables: Tables, fatal: Fatal)

  /** Lines whose first character is '#' or a newline are passed over without tokenising. */
  predicate Skipped(line: string)
  {
    At(line, 0) == '#' || At(line, 0) == '\n'
  }

  /** The tokens strtok finds in the line (which C reads up to its first NUL). */
  function LineTokens(line: string): seq<string>
  {
    Tokens(CStr(line))
  }

  /** An MQTT line's fields: the host, then the port; the host is kept even when the port is missing. */
  function MqttStep(t: Tables, fs: seq<string>, lineNo: nat): Step
  {
    if |fs| < 1 then Exit(t, Fatal(lineNo, MissingField("MQTT", 1)))
    else if |fs| < 2 then Exit(t.(server := Some(fs[0])), Fatal(lineNo, MissingField("MQTT", 2)))
    else Next(t.(server := Some(fs[0]), port := Atoi(fs[1])))
  }

  /** A GPIO line's fields: name, chip and pin; a full table passes the line over before its fields are read. */
  function GpioStep(t: Tables, fs: seq<string>, lineNo: nat): Step
  {
    if |t.gpios| + 1 == INT_MAX then Next(t)
    else if |fs| < 1 then Exit(t, Fatal(lineNo, MissingField("GPIO", 1)))
    else if |fs| < 2 then Exit(t, Fatal(lineNo, MissingField("GPIO", 2)))
    else if |fs| < 3 then Exit(t, Fatal(lineNo, MissingField("GPIO", 3)))
    else Next(t.(gpios := t.gpios + [GpioInfo(fs[0], fs[1], Atoi(fs[2]))]))
  }

  /** A SUB line's fields: topic, GPIO name, QoS and an optional INV flag (any token starting with INV). */
  function SubStep(t: Tables, fs: seq<string>, lineNo: nat): Step
  {
    if |t.subs| + 1 == INT_MAX then Next(t)
    else if |fs| < 1 then Exit(t, Fatal(lineNo, MissingField("SUB", 1)))
    else if |fs| < 2 then Exit(t, Fatal(lineNo, MissingField("SUB", 2)))
    else if |fs| < 3 then Exit(t, Fatal(lineNo, MissingField("SUB", 3)))
    else
      var inv := |fs| > 3 && StrNCmpEq(fs[3], "INV", 3);
      Next(t.(subs := t.subs + [SubInfo(fs[0], fs[1], Atoi(fs[2]), inv)]))
  }

  /** What one tokenised, non-skipped line does to the tables, branch for branch as the reader does it. */
  function TokenStep(t: Tables, ts: seq<string>, lineNo: nat): Step
  {
    if |ts| == 0 then Next(t)
    else if ts[0] == "MQTT" then MqttStep(t, ts[1..], lineNo)
    else if ts[0] == "GPIO" then GpioStep(t, ts[1..], lineNo)
    else if ts[0] == "SUB" then SubStep(t, ts[1..], lineNo)
    else Exit(t, Fatal(lineNo, UnknownCommand(ts[0])))
  }

  /** The effect of line number lineNo; the tables only ever grow at the end, by at most one entry. */
  function LineStep(t: Tables, line: string, lineNo: nat): (r: Step)
    ensures t.gpios <= r.tables.gpios && |r.tables.gpios| <= |t.gpios| + 1
    ensures t.subs <= r.tables.subs && |r.tables.subs| <= |t.subs| + 1
    ensures |t.gpios| + 1 == INT_MAX ==> r.tables.gpios == t.gpios
    ensures |t.subs| + 1 == INT_MAX ==> r.tables.subs == t.subs
  {
    if Skipped(line) then Next(t) else TokenStep(t, LineTokens(line), lineNo)
  }

  /** Reading the lines in order from tables t; line numbers count from 1. */
  function ReadConfig(t: Tables, lines: seq<string>): Step
    decreases |lines|
  {
    if lines == [] then Next(t)
    else
      match ReadConfig(t, lines[..|lines| - 1])
      case Exit(t', f) => Exit(t', f)
      case Next(t') => LineStep(t', lines[|lines| - 1], |lines|)
  }

  /** Once the reader has failed, later lines are never read. */
  lemma {:induction false} ReadConfigExitFinal(t: Tables, lines: seq<string>, k: nat)
    requires k <= |lines| && ReadConfig(t, lines[..k]).Exit?
    ensures ReadConfig(t, lines) == ReadConfig(t, lines[..k])
    decreases |lines| - k
  {
    if k < |lines| {
      assert lines[..k + 1][..k] == lines[..k];
      ReadConfigExitFinal(t, lines, k + 1);
    } else {
      assert lines[..k] == lines;
    }
  }

  // ---------------------------------------------------------------------
  // Declarative views of a file

  /** The first token of a line that is read, or "" when there is none (tokens are never empty). */
  function Keyword(line: string): string
  {
    if Skipped(line) || |LineTokens(line)| == 0 then "" else LineTokens(line)[0]
  }

  function Field(ts: seq<string>, i: nat): string
  {
    if i < |ts| then ts[i] else ""
  }

  /** How many fields each keyword needs after it. */
  function RequiredFields(keyword: string): nat
  {
    if keyword == "MQTT" then 2 else 3
  }

  /** The error a line ends the run with, judged from the line alone. */
  function LineError(line: string): Option<ConfigError>
  {
    var ts := LineTokens(line);
    if Skipped(line) || |ts| == 0 then None
    else if ts[0] != "MQTT" && ts[0] != "GPIO" && ts[0] != "SUB" then Some(UnknownCommand(ts[0]))
    else if |ts| <= RequiredFields(ts[0]) then Some(MissingField(ts[0], |ts|))
    else None
  }

  function GpioOf(ts: seq<string>): GpioInfo
  {
    GpioInfo(Field(ts, 1), Field(ts, 2), Atoi(Field(ts, 3)))
  }

  /** A SUB entry is inverted exactly when a fourth field is present and starts with "INV". */
  function SubOf(ts: seq<string>): SubInfo
  {
    SubInfo(Field(ts, 1), Field(ts, 2), Atoi(Field(ts, 3)), |ts| > 4 && "INV" <= ts[4])
  }

  /** One entry per GPIO line, in file order. */
  function GpioEntries(lines: seq<string>): seq<GpioInfo>
    decreases |lines|
  {
    if lines == [] then []
    else
      var last := lines[|lines| - 1];
      GpioEntries(lines[..|lines| - 1]) + (if Keyword(last) == "GPIO" then [GpioOf(LineTokens(last))] else [])
  }

  /** One entry per SUB line, in file order. */
  function SubEntries(lines: seq<string>): seq<SubInfo>
    decreases |lines|
  {
    if lines == [] then []
    else
      var last := lines[|lines| - 1];
      SubEntries(lines[..|lines| - 1]) + (if Keyword(last) == "SUB" then [SubOf(LineTokens(last))] else [])
  }

  /** Neither table can fill up while the given number of lines is read. */
  predicate RoomFor(t: Tables, n: nat)
  {
    |t.gpios| + n < INT_MAX - 1 && |t.subs| + n < INT_MAX - 1
  }

  // ---------------------------------------------------------------------
  // Lemmas

  lemma LineTokensNulFree(line: string)
    ensures forall i :: 0 <= i < |LineTokens(line)| ==> NUL !in LineTokens(line)[i]
  {
    TokensAvoid(CStr(line), NUL);
  }

  /** Reading only appends to the tables, at most one entry per line, and a counter never reaches INT_MAX. */
  lemma {:induction false} ReadConfigAppendOnly(t: Tables, lines: seq<string>)
    ensures t.gpios <= ReadConfig(t, lines).tables.gpios
    ensures t.subs <= ReadConfig(t, lines).tables.subs
    ensures |ReadConfig(t, lines).tables.gpios| <= |t.gpios| + |lines|
    ensures |ReadConfig(t, lines).tables.subs| <= |t.subs| + |lines|
    ensures |t.gpios| < INT_MAX ==> |ReadConfig(t, lines).tables.gpios| < INT_MAX
    ensures |t.subs| < INT_MAX ==> |ReadConfig(t, lines).tables.subs| < INT_MAX
    decreases |lines|
  {
    if lines != [] {
      ReadConfigAppendOnly(t, lines[..|lines| - 1]);
    }
  }

  /** While there is room, one line fails exactly when LineError says so, with that error. */
  lemma LineStepOutcome(t: Tables, line: string, lineNo: nat)
    requires RoomFor(t, 1)
    ensures LineStep(t, line, lineNo).Next? <==> LineError(line).None?
    ensures LineStep(t, line, lineNo).Exit? ==> LineStep(t, line, lineNo).fatal == Fatal(lineNo, LineError(line).value)
  {
  }

  /** While there is room in the tables, reading succeeds exactly when no line has an error. */
  lemma {:induction false} ReadConfigSucceeds(t: Tables, lines: seq<string>)
    requires RoomFor(t, |lines|)
    ensures ReadConfig(t, lines).Next? <==> forall i :: 0 <= i < |lines| ==> LineError(lines[i]).None?
    decreases |lines|
  {
    if lines != [] {
      var n := |lines| - 1;
      var init, last := lines[..n], lines[n];
      var r := ReadConfig(t, init);
      ReadConfigSucceeds(t, init);
      assert forall i :: 0 <= i < n ==> init[i] == lines[i];
      if r.Next? {
        ReadConfigAppendOnly(t, init);
        assert RoomFor(r.tables, 1);
        LineStepOutcome(r.tables, last, |lines|);
        assert ReadConfig(t, lines) == LineStep(r.tables, last, |lines|);
      } else {
        assert ReadConfig(t, lines) == r;
      }
    }
  }

  /** While there is room, a failed read names the first line with an error, and that line's error. */
  lemma {:induction false} ReadConfigFailure(t: Tables, lines: seq<string>)
    requires RoomFor(t, |lines|) && ReadConfig(t, lines).Exit?
    ensures var f := ReadConfig(t, lines).fatal;
      1 <= f.lineNo <= |lines| && LineError(lines[f.lineNo - 1]) == Some(f.error) &&
      forall i :: 0 <= i < f.lineNo - 1 ==> LineError(lines[i]).None?
    decreases |lines|
  {
    var n := |lines| - 1;
    var init, last := lines[..n], lines[n];
    var r := ReadConfig(t, init);
    assert forall i :: 0 <= i < n ==> init[i] == lines[i];
    if r.Next? {
      ReadConfigSucceeds(t, init);
      ReadConfigAppendOnly(t, init);
      assert RoomFor(r.tables, 1);
      LineStepOutcome(r.tables, last, |lines|);
      assert ReadConfig(t, lines) == LineStep(r.tables, last, |lines|);
    } else {
      ReadConfigFailure(t, init);
      assert ReadConfig(t, lines) == r;
    }
  }

  /** A successful line adds exactly its GPIO or SUB entry, as the declarative view builds it. */
  lemma LineStepTables(t: Tables, line: string, lineNo: nat)
    requires RoomFor(t, 1) && LineStep(t, line, lineNo).Next?
    ensures LineStep(t, line, lineNo).tables.gpios ==
      t.gpios + (if Keyword(line) == "GPIO" then [GpioOf(LineTokens(line))] else [])
    ensures LineStep(t, line, lineNo).tables.subs ==
      t.subs + (if Keyword(line) == "SUB" then [SubOf(LineTokens(line))] else [])
  {
    var ts := LineTokens(line);
    if !Skipped(line) && |ts| > 4 && ts[0] == "SUB" {
      LineTokensNulFree(line);
      StrNCmpEqTrunc(ts[4], "INV", 3);
      CStrOfNulFree(ts[4]);
      assert CStr("INV") == "INV";
    }
  }

  /**
   * While there is room, a successful read holds one GPIO entry per GPIO line
   * and one SUB entry per SUB line, in file order, after the ones it started with.
   */
  lemma {:induction false} ReadConfigTables(t: Tables, lines: seq<string>)
    requires RoomFor(t, |lines|) && ReadConfig(t, lines).Next?
    ensures ReadConfig(t, lines).tables.gpios == t.gpios + GpioEntries(lines)
    ensures ReadConfig(t, lines).tables.subs == t.subs + SubEntries(lines)
    decreases |lines|
  {
    if lines != [] {
      var n := |lines| - 1;
      var init, last := lines[..n], lines[n];
      var r := ReadConfig(t, init);
      assert r.Next?;
      ReadConfigTables(t, init);
      ReadConfigAppendOnly(t, init);
      assert RoomFor(r.tables, 1);
      LineStepTables(r.tables, last, |lines|);
      assert ReadConfig(t, lines) == LineStep(r.tables, last, |lines|);
    }
  }

  /** The last MQTT line of a successful read sets the broker host and port. */
  lemma {:induction false} LastMqttWins(t: Tables, lines: seq<string>, k: nat)
    requires ReadConfig(t, lines).Next?
    requires k < |lines| && Keyword(lines[k]) == "MQTT"
    requires forall j :: k < j < |lines| ==> Keyword(lines[j]) != "MQTT"
    ensures ReadConfig(t, lines).tables.server == Some(Field(LineTokens(lines[k]), 1))
    ensures ReadConfig(t, lines).tables.port == Atoi(Field(LineTokens(lines[k]), 2))
    decreases |lines|
  {
    var n := |lines| - 1;
    var init, last := lines[..n], lines[n];
    var r := ReadConfig(t, init);
    assert r.Next?;
    assert ReadConfig(t, lines) == LineStep(r.tables, last, |lines|);
    if k < n {
      assert init[k] == lines[k];
      LastMqttWins(t, init, k);
      LineStepKeepsServer(r.tables, last, |lines|);
    } else {
      LineStepMqtt(r.tables, last, |lines|);
    }
  }

  /** A successful line that is not an MQTT line leaves the host and port alone. */
  lemma LineStepKeepsServer(t: Tables, line: string, lineNo: nat)
    requires LineStep(t, line, lineNo).Next? && Keyword(line) != "MQTT"
    ensures LineStep(t, line, lineNo).tables.server == t.server
    ensures LineStep(t, line, lineNo).tables.port == t.port
  {
  }

  /** A successful MQTT line sets the host and port from its two fields. */
  lemma LineStepMqtt(t: Tables, line: string, lineNo: nat)
    requires LineStep(t, line, lineNo).Next? && Keyword(line) == "MQTT"
    ensures LineStep(t, line, lineNo).tables.server == Some(Field(LineTokens(line), 1))
    ensures LineStep(t, line, lineNo).tables.port == Atoi(Field(LineTokens(line), 2))
  {
  }

  /** Without an MQTT line the host and port keep their earlier values. */
  lemma {:induction false} NoMqttKeepsServer(t: Tables, lines: seq<string>)
    requires ReadConfig(t, lines).Next?
    requires forall j :: 0 <= j < |lines| ==> Keyword(lines[j]) != "MQTT"
    ensures ReadConfig(t, lines).tables.server == t.server
    ensures ReadConfig(t, lines).tables.port == t.port
    decreases |lines|
  {
    if lines != [] {
      var n := |lines| - 1;
      var init, last := lines[..n], lines[n];
      var r := ReadConfig(t, init);
      assert r.Next?;
      assert forall j :: 0 <= j < n ==> init[j] == lines[j];
      NoMqttKeepsServer(t, init);
      assert ReadConfig(t, lines) == LineStep(r.tables, last, |lines|);
      LineStepKeepsServer(r.tables, last, |lines|);
    }
  }

  /** Whether a line already carries every field its keyword reads (for SUB, the optional INV field too). */
  predicate Complete(ts: seq<string>)
  {
    |ts| > 0 &&
    |ts| > (if ts[0] == "MQTT" then 2 else if ts[0] == "GPIO" then 3 else if ts[0] == "SUB" then 4 else 0)
  }

  lemma CStrAppend(a: string, b: string)
    requires NUL !in a
    ensures CStr(a + b) == a + CStr(b)
    decreases |a|
  {
    if a == [] {
      assert a + b == b;
    } else {
      assert (a + b)[1..] == a[1..] + b;
      CStrCons(a + b);
      CStrAppend(a[1..], b);
    }
  }

  lemma TokenStepExtra(t: Tables, ts: seq<string>, more: seq<string>, lineNo: nat)
    requires Complete(ts)
    ensures TokenStep(t, ts + more, lineNo) == TokenStep(t, ts, lineNo)
  {
    var ts' := ts + more;
    assert forall i :: 0 <= i < |ts| ==> ts'[i] == ts[i];
  }

  /** Tokens after the last field a keyword reads are ignored. */
  lemma TrailingTokensIgnored(t: Tables, line: string, extra: string, lineNo: nat)
    requires NUL !in line && Complete(LineTokens(line))
    ensures LineStep(t, line + " " + extra, lineNo) == LineStep(t, line, lineNo)
  {
    CStrOfNulFree(line);
    CStrAppend(line + " ", extra);
    assert line + " " + CStr(extra) == line + [' '] + CStr(extra);
    TokensConcat(line, ' ', CStr(extra));
    TokenStepExtra(t, LineTokens(line), Tokens(CStr(extra)), lineNo);
    assert line != [] by {
      if line == [] {
        TokensUnfold(line);
      }
    }
    assert At(line + " " + extra, 0) == At(line, 0);
  }
}
