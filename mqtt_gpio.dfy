/**
 * The daemon's process-wide state as a class: the tables the configuration
 * reader fills, and the four operations of src/mqtt-gpio.c over them. Each
 * method is proved against the specification in Config, Router and Connection.
 */
module MqttGpio {
  import opened Wrappers
  import opened CStrings
  import opened Strtok
  import opened Config
  import opened Router
  import opened Connection

  class Daemon {
    var gpioInfo: seq<GpioInfo>
    var gpioInfoCnt: int
    var subInfo: seq<SubInfo>
    var subInfoCnt: int
    var mqttServer: Option<string>
    var mqttServerPort: int

    /** Each counter is the length of its table and stays below INT_MAX. */
    ghost predicate Valid()
      reads this
    {
      gpioInfoCnt == |gpioInfo| < INT_MAX && subInfoCnt == |subInfo| < INT_MAX
    }

    function State(): Tables
      reads this
    {
      Tables(mqttServer, mqttServerPort, gpioInfo, subInfo)
    }

    /** The state at program start: no broker host, port 0, empty tables. */
    constructor ()
      ensures Valid() && State() == Initial
    {
      gpioInfo, gpioInfoCnt := [], 0;
      subInfo, subInfoCnt := [], 0;
      mqttServer, mqttServerPort := None, 0;
    }

    /** What a reader step ended in, with the current tables: carrying on, or the run failing. */
    function Outcome(fatal: Option<Fatal>): Step
      reads this
    {
      if fatal.None? then Next(State()) else Exit(State(), fatal.value)
    }

    /**
     * process_config_file over the lines getline returns. A returned Fatal is
     * the run ending with a failure status; the tables are then as the failing
     * line left them.
     */
    method ProcessConfigFile(lines: seq<string>) returns (fatal: Option<Fatal>)
      requires Valid()
      modifies this
      ensures Valid()
      ensures ReadConfig(old(State()), lines) == Outcome(fatal)
    {
      ghost var start := State();
      var lineCnt := 0;
      while lineCnt < |lines|
        invariant 0 <= lineCnt <= |lines|
        invariant Valid()
        invariant ReadConfig(start, lines[..lineCnt]) == Next(State())
      {
        var line := lines[lineCnt];
        ghost var before := State();
        lineCnt := lineCnt + 1;
        assert lines[..lineCnt][..lineCnt - 1] == lines[..lineCnt - 1];
        assert ReadConfig(start, lines[..lineCnt]) == LineStep(before, line, lineCnt);

        // comments and empty lines
        if At(line, 0) == '#' {
          continue;
        }
        if At(line, 0) == '\n' {
          continue;
        }

        var cursor := CStr(line);
        TokensUnfold(cursor);
        var next := NextToken(cursor);
        if next.None? {
          // no keyword: reported, and the line is passed over
          continue;
        }
        var token := next.value.0;
        cursor := next.value.1;
        assert LineTokens(line) == [token] + Tokens(cursor);
        assert LineTokens(line)[1..] == Tokens(cursor);

        if token == "MQTT" {
          fatal := ParseMqtt(cursor, lineCnt);
        } else if token == "GPIO" {
          fatal := ParseGpio(cursor, lineCnt);
        } else if token == "SUB" {
          fatal := ParseSub(cursor, lineCnt);
        } else {
          fatal := Some(Fatal(lineCnt, UnknownCommand(token)));
        }
        if fatal.Some? {
          ReadConfigExitFinal(start, lines, lineCnt);
          return;
        }
      }
      assert lines[..lineCnt] == lines;
      return None;
    }

    /** The MQTT arm: the host, then the port; the host is kept even when the port is missing. */
    method ParseMqtt(cursor: string, lineNo: nat) returns (fatal: Option<Fatal>)
      requires Valid()
      modifies this
      ensures Valid()
      ensures MqttStep(old(State()), Tokens(cursor), lineNo) == Outcome(fatal)
    {
      var rest := cursor;
      TokensUnfold(rest);
      var next := NextToken(rest);
      if next.None? {
        return Some(Fatal(lineNo, MissingField("MQTT", 1)));
      }
      mqttServer := Some(next.value.0);
      rest := next.value.1;
      TokensUnfold(rest);
      next := NextToken(rest);
      if next.None? {
        return Some(Fatal(lineNo, MissingField("MQTT", 2)));
      }
      mqttServerPort := Atoi(next.value.0);
      return None;
    }

    /** The GPIO arm: name, chip and pin, appended unless the table is full. */
    method ParseGpio(cursor: string, lineNo: nat) returns (fatal: Option<Fatal>)
      requires Valid()
      modifies this
      ensures Valid()
      ensures GpioStep(old(State()), Tokens(cursor), lineNo) == Outcome(fatal)
    {
      if gpioInfoCnt + 1 == INT_MAX {
        // no more room in the GPIO table: the line is not added
        return None;
      }
      var rest := cursor;
      TokensUnfold(rest);
      var next := NextToken(rest);
      if next.None? {
        return Some(Fatal(lineNo, MissingField("GPIO", 1)));
      }
      var gpioName := next.value.0;
      rest := next.value.1;
      TokensUnfold(rest);
      next := NextToken(rest);
      if next.None? {
        return Some(Fatal(lineNo, MissingField("GPIO", 2)));
      }
      var chipStr := next.value.0;
      rest := next.value.1;
      TokensUnfold(rest);
      next := NextToken(rest);
      if next.None? {
        return Some(Fatal(lineNo, MissingField("GPIO", 3)));
      }
      var pin := Atoi(next.value.0);
      gpioInfo := gpioInfo + [GpioInfo(gpioName, chipStr, pin)];
      gpioInfoCnt := gpioInfoCnt + 1;
      return None;
    }

    /** The SUB arm: topic, GPIO name, QoS and the optional INV flag, appended unless the table is full. */
    method ParseSub(cursor: string, lineNo: nat) returns (fatal: Option<Fatal>)
      requires Valid()
      modifies this
      ensures Valid()
      ensures SubStep(old(State()), Tokens(cursor), lineNo) == Outcome(fatal)
    {
      if subInfoCnt + 1 == INT_MAX {
        // no more room in the SUB table: the line is not added
        return None;
      }
      var rest := cursor;
      TokensUnfold(rest);
      var next := NextToken(rest);
      if next.None? {
        return Some(Fatal(lineNo, MissingField("SUB", 1)));
      }
      var topicStr := next.value.0;
      rest := next.value.1;
      TokensUnfold(rest);
      next := NextToken(rest);
      if next.None? {
        return Some(Fatal(lineNo, MissingField("SUB", 2)));
      }
      var gpioName := next.value.0;
      rest := next.value.1;
      TokensUnfold(rest);
      next := NextToken(rest);
      if next.None? {
        return Some(Fatal(lineNo, MissingField("SUB", 3)));
      }
      var qosArg := next.value.0;
      var qos := Atoi(qosArg);
      rest := next.value.1;
      // INV (optional)
      TokensUnfold(rest);
      next := NextToken(rest);
      ghost var fs := Tokens(cursor);
      assert |fs| >= 3 && fs[0] == topicStr && fs[1] == gpioName && fs[2] == qosArg;
      assert next.Some? ==> |fs| > 3 && fs[3] == next.value.0;
      assert next.None? ==> |fs| == 3;
      var inv := next.Some? && StrNCmpEq(next.value.0, "INV", 3);
      subInfo := subInfo + [SubInfo(topicStr, gpioName, qos, inv)];
      subInfoCnt := subInfoCnt + 1;
      return None;
    }

    /**
     * init_mosquitto's first-connection loop. connectOk[i] is the outcome of
     * connect attempt i; when every given attempt fails the loop, which in the
     * daemon never gives up, is cut off after them.
     */
    method InitMosquitto(connectOk: seq<bool>) returns (connects: seq<ConnectRequest>, sleeps: seq<int>, connected: bool)
      ensures connected <==> true in connectOk
      ensures |connects| == |sleeps| + (if connected then 1 else 0)
      ensures |sleeps| <= |connectOk|
      ensures connected ==> |sleeps| < |connectOk| && connectOk[|sleeps|]
      ensures !connected ==> |sleeps| == |connectOk|
      ensures forall i :: 0 <= i < |sleeps| ==> !connectOk[i] && sleeps[i] == Delay(i)
      ensures forall i :: 0 <= i < |connects| ==> connects[i] == ConnectRequest(mqttServer, mqttServerPort, KEEPALIVE)
    {
      var sleepSec := 1;
      connects, sleeps, connected := [], [], false;
      var attempt := 0;
      while attempt < |connectOk|
        invariant 0 <= attempt <= |connectOk|
        invariant |connects| == attempt && |sleeps| == attempt
        invariant forall i :: 0 <= i < attempt ==> !connectOk[i] && sleeps[i] == Delay(i)
        invariant forall i :: 0 <= i < attempt ==> connects[i] == ConnectRequest(mqttServer, mqttServerPort, KEEPALIVE)
        invariant sleepSec == Delay(attempt)
      {
        connects := connects + [ConnectRequest(mqttServer, mqttServerPort, KEEPALIVE)];
        if connectOk[attempt] {
          connected := true;
          return;
        }
        sleeps := sleeps + [sleepSec];
        if sleepSec < 60 {
          sleepSec := sleepSec * 2;
        }
        attempt := attempt + 1;
      }
    }

    /** connect_callback: on a successful connection (result 0), one subscribe request per SUB entry. */
    method ConnectCallback(result: int) returns (requests: seq<Subscribe>)
      requires Valid()
      ensures result != 0 ==> requests == []
      ensures result == 0 ==> |requests| == |subInfo|
      ensures result == 0 ==>
        forall i :: 0 <= i < |subInfo| ==> requests[i] == Subscribe(subInfo[i].topicStr, subInfo[i].qos)
    {
      requests := [];
      if result == 0 {
        var i := 0;
        while i < subInfoCnt
          invariant 0 <= i <= |subInfo|
          invariant |requests| == i
          invariant forall j :: 0 <= j < i ==> requests[j] == Subscribe(subInfo[j].topicStr, subInfo[j].qos)
        {
          // a failed request is only reported; the loop goes on
          requests := requests + [Subscribe(subInfo[i].topicStr, subInfo[i].qos)];
          i := i + 1;
        }
      }
    }

    /**
     * process_message for a message on topic with payload: the line writes it
     * makes, in order. Nothing is written for an unhandled payload.
     */
    method ProcessMessage(topic: string, payload: string) returns (writes: seq<Write>)
      requires Valid()
      ensures DecodePayload(payload) == -1 ==> writes == []
      ensures DecodePayload(payload) != -1 ==>
        IsWriteLog(writes, DecodePayload(payload), Matches(topic, subInfo, gpioInfo))
    {
      var val := DecodePayload(payload);
      if val == -1 {
        // unhandled payload
        return [];
      }
      ghost var v := val;
      var subs, gpios := subInfo, gpioInfo;
      writes := [];
      ghost var ms: seq<Match> := [];
      var t := 0;
      while t < subInfoCnt
        invariant 0 <= t <= |subs|
        invariant ms == MatchesTo(topic, subs, gpios, t)
        invariant IsWriteLog(writes, v, ms)
        invariant val == if AnyInv(ms) then 0 else v
      {
        if StrNCmpEq(topic, subs[t].topicStr, StrLen(subs[t].topicStr)) {
          ghost var done := ms;
          var g := 0;
          while g < gpioInfoCnt
            invariant 0 <= g <= |gpios|
            invariant ms == done + LinksTo(subs[t], t, gpios, g)
            invariant IsWriteLog(writes, v, ms)
            invariant val == if AnyInv(ms) then 0 else v
          {
            if StrNCmpEq(subs[t].gpioName, gpios[g].gpioName, StrLen(gpios[g].gpioName)) {
              if subs[t].inv {
                if val == 0 {
                  val := 1;
                }
                if val == 1 {
                  val := 0;
                }
              }
              WriteLogSnoc(writes, v, ms, Match(t, g, subs[t].inv), val);
              writes := writes + [Write(g, val)];
              ms := ms + [Match(t, g, subs[t].inv)];
            }
            g := g + 1;
          }
        }
        t := t + 1;
      }
    }

    /**
     * process_message as intended: exact "ON"/"OFF" payloads,
     * and each INV entry writes the inverse of the payload without affecting
     * the writes of other entries.
     */
    method ProcessMessageIntended(topic: string, payload: string) returns (writes: seq<Write>)
      requires Valid()
      ensures DecodeExact(payload) == -1 ==> writes == []
      ensures DecodeExact(payload) != -1 ==>
        IsIntendedLog(writes, DecodeExact(payload), Matches(topic, subInfo, gpioInfo))
    {
      var val := DecodeExact(payload);
      if val == -1 {
        return [];
      }
      writes := RouteIntended(topic, val);
    }

    /** The intended routing of a decoded value: one write per match, inverted for INV entries. */
    method RouteIntended(topic: string, val: int) returns (writes: seq<Write>)
      requires Valid()
      ensures IsIntendedLog(writes, val, Matches(topic, subInfo, gpioInfo))
    {
      var subs, gpios := subInfo, gpioInfo;
      writes := [];
      ghost var ms: seq<Match> := [];
      var t := 0;
      while t < subInfoCnt
        invariant 0 <= t <= |subs|
        invariant ms == MatchesTo(topic, subs, gpios, t)
        invariant IsIntendedLog(writes, val, ms)
      {
        if StrNCmpEq(topic, subs[t].topicStr, StrLen(subs[t].topicStr)) {
          var out := if subs[t].inv then 1 - val else val;
          ghost var done := ms;
          var g := 0;
          while g < gpioInfoCnt
            invariant 0 <= g <= |gpios|
            invariant ms == done + LinksTo(subs[t], t, gpios, g)
            invariant IsIntendedLog(writes, val, ms)
          {
            if StrNCmpEq(subs[t].gpioName, gpios[g].gpioName, StrLen(gpios[g].gpioName)) {
              IntendedLogSnoc(writes, val, ms, Match(t, g, subs[t].inv), out);
              writes := writes + [Write(g, out)];
              ms := ms + [Match(t, g, subs[t].inv)];
            }
            g := g + 1;
          }
        }
        t := t + 1;
      }
    }
  }
}
