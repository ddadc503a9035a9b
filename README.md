# mqtt-gpio in Dafny

`mqtt-gpio` is a small daemon. It reads a configuration file listing an MQTT
broker, named GPIO lines (`GPIO <name> <chip> <pin>`) and subscriptions
(`SUB <topic> <gpio name> <qos> [INV]`). It connects to the broker, subscribes
to every configured topic and, for every message it receives, sets the
lines linked to the message's topic to 1 for `ON` and 0 for `OFF`.

This project models the four operations of `src/mqtt-gpio.c` that carry
that logic, with the quirks of the code as written:

- `process_config_file`: the `getline`/`strtok` loop that fills the tables;
- `process_message`: payload decoding, topic and link matching, and the line writes;
- `init_mosquitto`: the connect-retry loop and its doubling sleep;
- `connect_callback`: the subscribe requests.

Modules, one per concern:

- `CStrings`: C strings as `string` values read up to the first NUL, with `strlen`, `strncmp`, `strcmp` and `atoi`. Each is proved equal to the plain test it stands for: a prefix test, equality, or a decimal round trip.
- `Strtok`: `strtok` over space, tab and newline, as a token list. Joining words with spaces and tokenising gives the words back.
- `Config`: the configuration reader as a fold of one step per line over the tables. Lemmas state its outcome declaratively:
  - the run succeeds exactly when no line has an error;
  - on failure, it stops at the first bad line;
  - the tables are the GPIO and SUB lines in file order;
  - the last `MQTT` line wins;
  - trailing tokens are ignored.
- `Router`: the router's specification.
  - The write log is one `(gpio index, value)` event per selected (SUB entry, binding) pair, in nested table order.
  - The value written is 0 from the first INV match onward.
- `Connection`: the retry delay sequence and the connect and subscribe requests.
- `MqttGpio`: class `Daemon`.
  - Its fields are the process-wide tables `gpioInfo_G`, `gpioInfoCnt_G`, `subInfo_G`, `subInfoCnt_G`, `mqttServer_G` and `mqttServerPort_G`.
  - Its methods are the four operations, each with the loops of the source and proved against the specification modules.

Side effects the daemon performs through libraries are results here:

- Line writes (`gpiod_line_set_value`) are the returned write log.
- Connect attempts are the returned `ConnectRequest`s, and their outcomes are a parameter.
- Sleeps are the returned list of sleep durations.
- Subscribes are the returned `Subscribe` requests.
- A run that calls `exit(EXIT_FAILURE)` from the configuration reader returns `Some(Fatal(line number, error))`. The tables are left as the failing line left them.

## Model

| member | source | states |
|---|---|---|
| CStrings.StrNCmpEqTrunc | src/mqtt-gpio.c:536-548 | `strncmp(a, b, n) == 0` holds exactly when the first n characters of the two C strings are equal. |
| CStrings.PrefixTest | src/mqtt-gpio.c:536-548 | `strncmp(x, y, strlen(y)) == 0` holds exactly when the C string y is a prefix of the C string x. This is the shape of all four tests in process_message. |
| CStrings.StrCmpEqMeaning | src/mqtt-gpio.c:203 | `strcmp(a, b) == 0` holds exactly when the two C strings are equal. |
| CStrings.AtoiDecimal | src/mqtt-gpio.c:227 | `atoi` of the decimal digits of n is n. |
| CStrings.AtoiOfDigits | src/mqtt-gpio.c:289 | `atoi` of a digit string is its value, and `atoi` of a minus sign before it is the negation. |
| Strtok.TokensAreWords | src/mqtt-gpio.c:196 | Every token strtok returns is non-empty and holds no space, tab or newline. |
| Strtok.TokensConcat | src/mqtt-gpio.c:196-208 | Tokenising a + delimiter + b gives the tokens of a followed by the tokens of b. |
| Strtok.TokensOfJoinWords | src/mqtt-gpio.c:196-353 | Tokenising words joined by single spaces gives back exactly those words, in order. |
| Strtok.NextToken | src/mqtt-gpio.c:196 | A strtok call returns a non-empty word and resumes on strictly shorter text. |
| Config.LineStep | src/mqtt-gpio.c:239-242 | One line appends at most one entry to each table, at the end. A table whose count + 1 equals INT_MAX is left unchanged. |
| Config.LineStepOutcome | src/mqtt-gpio.c:185-366 | A line is accepted exactly when it has no error. A rejected line ends the run with its own line number and error. |
| Config.ReadConfigSucceeds | src/mqtt-gpio.c:177-367 | The reader finishes exactly when no line lacks a required field or has an unknown keyword. |
| Config.ReadConfigFailure | src/mqtt-gpio.c:208-226 | A failed run names a line number within the file and that line's error. Every earlier line has no error. |
| Config.ReadConfigExitFinal | src/mqtt-gpio.c:365-366 | Once a line has ended the run, later lines change nothing. |
| Config.ReadConfigAppendOnly | src/mqtt-gpio.c:291 | The tables only grow at the end, by at most one entry per line, and their counts stay below INT_MAX. |
| Config.ReadConfigTables | src/mqtt-gpio.c:235-363 | After a successful run, the GPIO table is the initial one followed by one entry per GPIO line, in file order. The SUB table is the same for SUB lines. Each entry holds its line's fields, with `atoi` of pin or qos. `inv` is true exactly when a fourth SUB field starts with "INV". |
| Config.LineStepTables | src/mqtt-gpio.c:239-363 | An accepted GPIO or SUB line appends exactly its own entry. Any other line leaves the tables as they were. |
| Config.LastMqttWins | src/mqtt-gpio.c:203-232 | After a successful run, server and port come from the last MQTT line: its second field, and `atoi` of its third. |
| Config.NoMqttKeepsServer | src/mqtt-gpio.c:203-232 | A file with no MQTT line leaves server and port as they started. |
| Config.LineStepMqtt | src/mqtt-gpio.c:215-227 | An accepted MQTT line sets the server to its second field and the port to `atoi` of its third. |
| Config.LineStepKeepsServer | src/mqtt-gpio.c:203 | An accepted line that is not MQTT leaves server and port unchanged. |
| Config.TrailingTokensIgnored | src/mqtt-gpio.c:222-359 | Text appended after the last field a keyword reads does not change the line's effect. |
| Config.LineTokensNulFree | src/mqtt-gpio.c:196 | No token of a line holds a NUL. |
| Router.DecodePayloadMeaning | src/mqtt-gpio.c:535-543 | A payload that is a prefix of "OFF", including "" and "O", gives 0. Any other prefix of "ON" gives 1. Every other payload gives -1. |
| Router.SelectedMeaning | src/mqtt-gpio.c:546 | A SUB entry is selected exactly when its topic is a prefix of the delivered topic. |
| Router.DrivesMeaning | src/mqtt-gpio.c:548 | A binding is driven by a SUB entry exactly when the binding's name is a prefix of the entry's GPIO name. |
| Router.LinksSound | src/mqtt-gpio.c:547-548 | Every match listed for a SUB entry is for a binding that the entry drives. |
| Router.LinksComplete | src/mqtt-gpio.c:547-548 | Every binding the entry drives is listed. |
| Router.LinksOrdered | src/mqtt-gpio.c:547 | The bindings are listed in table order. |
| Router.MatchesSound | src/mqtt-gpio.c:545-548 | Every listed match names a selected SUB entry, a binding it drives and that entry's INV flag. |
| Router.MatchesComplete | src/mqtt-gpio.c:545-548 | Every (selected entry, driven binding) pair is listed. |
| Router.MatchesOrdered | src/mqtt-gpio.c:545-547 | Matches are in nested table order, with each pair at most once. |
| Router.SubscribedTopicDrives | src/mqtt-gpio.c:545-560 | A message on a subscribed topic writes every binding that subscription drives. |
| Router.WriteLogSnoc | src/mqtt-gpio.c:549-560 | Appending the loop's write for one more match keeps the log equal to the specification. The value is 0 once any INV entry has matched. |
| Router.InvQuirk | src/mqtt-gpio.c:549-554 | From the first write for an INV entry on, every write of the message is 0. The intended value is 1 for that entry on "OFF", and for a later non-INV entry on "ON". |
| Router.DecodeExactMeaning | src/mqtt-gpio.c:535-543 | The exact payload test gives 1 for exactly "ON", 0 for exactly "OFF" and -1 otherwise. |
| Router.DecodeExactAgrees | src/mqtt-gpio.c:535-543 | On "ON" and "OFF" the test as written agrees with the exact test. |
| Router.DecodeAcceptsPrefixes | src/mqtt-gpio.c:536-539 | The test as written decodes "", "O" and "OF" to 0 and rejects "ONX". The exact test rejects "", "O" and "OF". |
| Router.InvQuirkExample | src/mqtt-gpio.c:545-560 | With GPIO lines led and fan and SUB entries `t led 0 INV` then `t fan 0`, the message `t` / `ON` writes 0 to led and then 0 to fan. The intended writes are 0 to led and 1 to fan. |
| Router.AgreesWithoutInv | src/mqtt-gpio.c:549-560 | When no matched entry is INV, the writes as written are the intended ones. |
| Connection.Pow2Monotone | src/mqtt-gpio.c:465 | Repeated doubling never decreases. |
| Connection.DelayClosedForm | src/mqtt-gpio.c:440-466 | The k-th sleep (from 0) is 2^k for k < 7, and 64 from then on. |
| Connection.DelayBounds | src/mqtt-gpio.c:440-466 | Sleeps are non-decreasing and between 1 and 64. |
| MqttGpio.Daemon.constructor | src/mqtt-gpio.c:41-46 | The daemon starts with empty tables, no server and port 0. |
| MqttGpio.Daemon.ProcessConfigFile | src/mqtt-gpio.c:177-367 | The getline loop leaves the tables the reader specification computes. It returns the failure that specification names, and keeps the counters equal to the table lengths. |
| MqttGpio.Daemon.ParseMqtt | src/mqtt-gpio.c:203-232 | The MQTT branch has the effect of the `MqttStep` specification on the line's remaining tokens. |
| MqttGpio.Daemon.ParseGpio | src/mqtt-gpio.c:235-293 | The GPIO branch has the effect of the `GpioStep` specification. |
| MqttGpio.Daemon.ParseSub | src/mqtt-gpio.c:296-363 | The SUB branch has the effect of the `SubStep` specification. |
| MqttGpio.Daemon.InitMosquitto | src/mqtt-gpio.c:440-466 | The loop stops at the first successful connect and retries forever otherwise; the outcome list bounds it. Each attempt asks for the configured server and port with keepalive 10. Failed attempt i is followed by a sleep of Delay(i). |
| MqttGpio.Daemon.ConnectCallback | src/mqtt-gpio.c:515-525 | On result 0, one subscribe request (topic, qos) per SUB entry, in table order, duplicates included. On any other result, none. |
| MqttGpio.Daemon.ProcessMessage | src/mqtt-gpio.c:535-564 | An unhandled payload writes nothing. Otherwise the writes are one per (selected SUB entry, driven binding) pair, in nested table order. Each writes the decoded value, or 0 from the first INV match on. |
| MqttGpio.Daemon.ProcessMessageIntended | src/mqtt-gpio.c:535-564 | The corrected router. It accepts only exactly "ON" or "OFF", and writes each matched line the decoded value, inverted for an INV entry. |
| MqttGpio.Daemon.RouteIntended | src/mqtt-gpio.c:545-564 | The corrected routing loops: the same matches, each line written `1 - val` for an INV entry and `val` otherwise. |

## Left out

- The model follows the code where it differs from the intended behaviour:
  - The payload test here is a prefix test, where an exact match of "ON" or "OFF" is intended.
  - The back-off here reaches 64 seconds. The comment at src/mqtt-gpio.c:458 speaks of 60, but the doubling at lines 464-465 runs 32 to 64 before the `< 60` test stops it.
  - The INV branch here always leaves 0, where inversion is intended.
  - The link test is the prefix test the code uses: a binding named "li" is driven by a SUB entry for "light".
  - The connect callback subscribes once per SUB entry, duplicate topics included (src/mqtt-gpio.c:519-525), where once per distinct topic would be enough.
- Command-line handling (`parse_cmdline`, `usage`) and `set_default_config_filename` are not modelled. They are option parsing and string building around `getopt_long` and the build's install directory.
- File reading is not modelled: `fopen` and its failure exit, and `getline`. `ProcessConfigFile` takes the lines `getline` would return.
- Failures of `strdup` and `realloc` are not modelled. Memory is unbounded in the model, and these exits are not.
- Memory management and `cleanup` are not modelled. They are `free` calls, line releases and chip closes, with no state the model keeps.
- `init_GPIOinfo` is not modelled. It only opens chips and lines through libgpiod, a foreign hardware library. Line writes are log events.
- `init_SUBinfo` is not modelled. It only prints the table.
- The mosquitto client is represented by requests and outcome parameters. Library init, `mosquitto_new`, callback registration and `loop_forever` are not modelled, and neither are the per-topic subscribe return codes, which only choose a log message.
- `sleep` is not modelled as time. It appears only as the list of durations.
- Verbose and diagnostic `printf` output is not modelled.
- MqttGpio.Daemon.ProcessMessage takes the payload as a C string. A NULL payload pointer (a zero-length message, if the client library delivers it so) is not modelled; `strlen` on it is undefined behaviour in C.
- MqttGpio.Daemon.InitMosquitto: the source loops without bound until a connect succeeds. The model takes a finite sequence of connect outcomes and stops when it runs out. When none of the outcomes succeeds it returns `connected == false` after one sleep per failed attempt.
- CStrings.Atoi: 32-bit overflow is not modelled. `atoi` of a number outside the `int` range is undefined behaviour in C; the model gives the mathematical value.
- Config.TokenStep: the `strcmp` keyword tests are modelled as string equality. Tokens never hold a NUL (`Config.LineTokensNulFree`), and `strcmp` equals equality on such strings (`CStrings.StrCmpEqMeaning`).
- The counters are `int` fields kept equal to the table lengths. The reader never grows a table to INT_MAX, so no wrap-around can occur.

## Findings

| source | as written | input that shows it | evidently intended | confidence | as-written member | corrected member |
|---|---|---|---|---|---|---|
| src/mqtt-gpio.c:549-554 | For an INV entry, `if (val == 0) val = 1;` is followed by `if (val == 1) val = 0;`, so `val` always ends 0. `val` is never reset, so every later write of the same message is 0 too. | `GPIO led c 1`, `SUB t led 0 INV`: message `t` / `OFF` writes 0 to `led`. With `GPIO led c 1`, `GPIO fan c 2`, `SUB t led 0 INV`, `SUB t fan 0`: message `t` / `ON` writes 0 to `led` and 0 to `fan`, where `fan` should get 1 (Router.InvQuirkExample). | The INV entry's lines get the inverted value (1 for OFF, 0 for ON), and other entries get the decoded value. | high, not executed | Router.InvQuirk | MqttGpio.Daemon.ProcessMessageIntended |
| src/mqtt-gpio.c:536-539 | `strncmp(payload, "ON", strlen(payload))` tests whether the payload is a prefix of "ON" (and likewise for "OFF"), not whether it equals it. "O" and "OF" decode to OFF, as does an empty C string. | A message with payload `O` or `OF` turns every linked line off. | Only exactly "ON" and "OFF" are handled, and anything else is reported unhandled. | medium, not executed | Router.DecodeAcceptsPrefixes | Router.DecodeExactMeaning |
