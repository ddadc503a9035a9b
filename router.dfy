/**
 * The specification of the message router (process_message): how a payload
 * decodes, which (SUB entry, GPIO binding) pairs a delivered topic selects,
 * and the value each selected line is written.
 */
module Router {
  import opened CStrings
  import opened Config

  /**
   * The payload test as the daemon writes it: 1 when the payload is a prefix
   * of "ON", overridden by 0 when it is a prefix of "OFF", and -1 (unhandled)
   * otherwise.
   */
  function DecodePayload(payload: string): int
  {
    var val := if StrNCmpEq(payload, "ON", StrLen(payload)) then 1 else -1;
    if StrNCmpEq(payload, "OFF", StrLen(payload)) then 0 else val
  }

  /** What the payload test means: prefixes of "OFF" (the empty payload and "O" included) give 0, other prefixes of "ON" give 1, the rest -1. */
  lemma DecodePayloadMeaning(payload: string)
    ensures DecodePayload(payload) ==
      if CStr(payload) <= "OFF" then 0 else if CStr(payload) <= "ON" then 1 else -1
  {
    PrefixTest("ON", payload);
    PrefixTest("OFF", payload);
    CStrOfNulFree("ON");
    CStrOfNulFree("OFF");
  }

  /** The router's topic test: strncmp(topic, sub topic, strlen(sub topic)) == 0. */
  predicate Selected(topic: string, s: SubInfo)
  {
    StrNCmpEq(topic, s.topicStr, StrLen(s.topicStr))
  }

  /** A SUB entry is selected exactly when its topic is a prefix of the delivered topic. */
  lemma SelectedMeaning(topic: string, s: SubInfo)
    ensures Selected(topic, s) <==> CStr(s.topicStr) <= CStr(topic)
  {
    PrefixTest(topic, s.topicStr);
  }

  /** The router's name test: strncmp(sub name, binding name, strlen(binding name)) == 0. */
  predicate Drives(g: GpioInfo, s: SubInfo)
  {
    StrNCmpEq(s.gpioName, g.gpioName, StrLen(g.gpioName))
  }

  /** A binding is driven by a SUB entry exactly when the binding's name is a prefix of the entry's GPIO name. */
  lemma DrivesMeaning(g: GpioInfo, s: SubInfo)
    ensures Drives(g, s) <==> CStr(g.gpioName) <= CStr(s.gpioName)
  {
    PrefixTest(s.gpioName, g.gpioName);
  }

  /** One line write: the SUB entry (by index) that caused it, the GPIO binding (by index) and that entry's INV flag. */
  datatype Match = Match(sub: nat, gpio: nat, inv: bool)

  /** Write order: SUB table order first, then GPIO table order. */
  predicate Before(a: Match, b: Match)
  {
    a.sub < b.sub || (a.sub == b.sub && a.gpio < b.gpio)
  }

  /** Matches in strictly increasing write order, so none appears twice. */
  predicate Ordered(ms: seq<Match>)
  {
    forall k, l :: 0 <= k < l < |ms| ==> Before(ms[k], ms[l])
  }

  lemma OrderedConcat(x: seq<Match>, y: seq<Match>)
    requires Ordered(x) && Ordered(y)
    requires forall p, q | p in x && q in y :: Before(p, q)
    ensures Ordered(x + y)
  {
    var xy := x + y;
    forall k, l | 0 <= k < l < |xy|
      ensures Before(xy[k], xy[l])
    {
      if l < |x| {
        assert xy[k] == x[k] && xy[l] == x[l];
      } else if k < |x| {
        assert xy[k] == x[k] && xy[l] == y[l - |x|];
        assert x[k] in x && y[l - |x|] in y;
      } else {
        assert xy[k] == y[k - |x|] && xy[l] == y[l - |x|];
      }
    }
  }

  /** The bindings among the first n of gpios that SUB entry s (at index si) drives, in GPIO table order. */
  function LinksTo(s: SubInfo, si: nat, gpios: seq<GpioInfo>, n: nat): seq<Match>
    requires n <= |gpios|
  {
    if n == 0 then []
    else LinksTo(s, si, gpios, n - 1) + (if Drives(gpios[n - 1], s) then [Match(si, n - 1, s.inv)] else [])
  }

  /** The bindings SUB entry s (at index si) drives, in GPIO table order. */
  function Links(s: SubInfo, si: nat, gpios: seq<GpioInfo>): seq<Match>
  {
    LinksTo(s, si, gpios, |gpios|)
  }

  /** Every entry of LinksTo is for s and a binding among the first n that s drives. */
  lemma {:induction false} LinksSound(s: SubInfo, si: nat, gpios: seq<GpioInfo>, n: nat)
    requires n <= |gpios|
    ensures forall m | m in LinksTo(s, si, gpios, n) ::
      m.sub == si && m.gpio < n && m.inv == s.inv && Drives(gpios[m.gpio], s)
  {
    if n > 0 {
      LinksSound(s, si, gpios, n - 1);
    }
  }

  /** Every binding among the first n that s drives has its entry in LinksTo. */
  lemma {:induction false} LinksComplete(s: SubInfo, si: nat, gpios: seq<GpioInfo>, n: nat)
    requires n <= |gpios|
    ensures forall g :: 0 <= g < n && Drives(gpios[g], s) ==> Match(si, g, s.inv) in LinksTo(s, si, gpios, n)
  {
    if n > 0 {
      LinksComplete(s, si, gpios, n - 1);
    }
  }

  /** LinksTo is in strictly increasing GPIO table order, so no binding appears twice. */
  lemma {:induction false} LinksOrdered(s: SubInfo, si: nat, gpios: seq<GpioInfo>, n: nat)
    requires n <= |gpios|
    ensures Ordered(LinksTo(s, si, gpios, n))
  {
    if n > 0 {
      LinksOrdered(s, si, gpios, n - 1);
      LinksSound(s, si, gpios, n - 1);
      var back := if Drives(gpios[n - 1], s) then [Match(si, n - 1, s.inv)] else [];
      OrderedConcat(LinksTo(s, si, gpios, n - 1), back);
    }
  }

  /** The (selected SUB entry, driven binding) pairs among the first n SUB entries, in write order. */
  function MatchesTo(topic: string, subs: seq<SubInfo>, gpios: seq<GpioInfo>, n: nat): seq<Match>
    requires n <= |subs|
  {
    if n == 0 then []
    else MatchesTo(topic, subs, gpios, n - 1) + (if Selected(topic, subs[n - 1]) then Links(subs[n - 1], n - 1, gpios) else [])
  }

  /** Every (selected SUB entry, driven binding) pair for a message on topic, in write order. */
  function Matches(topic: string, subs: seq<SubInfo>, gpios: seq<GpioInfo>): seq<Match>
  {
    MatchesTo(topic, subs, gpios, |subs|)
  }

  /** Every entry of MatchesTo is a selected SUB entry among the first n paired with a binding it drives, with that entry's INV flag. */
  lemma {:induction false} MatchesSound(topic: string, subs: seq<SubInfo>, gpios: seq<GpioInfo>, n: nat)
    requires n <= |subs|
    ensures forall m | m in MatchesTo(topic, subs, gpios, n) ::
      m.sub < n && m.gpio < |gpios| && m.inv == subs[m.sub].inv &&
      Selected(topic, subs[m.sub]) && Drives(gpios[m.gpio], subs[m.sub])
  {
    if n > 0 {
      MatchesSound(topic, subs, gpios, n - 1);
      var front := MatchesTo(topic, subs, gpios, n - 1);
      var sub := subs[n - 1];
      if Selected(topic, sub) {
        var back := Links(sub, n - 1, gpios);
        assert MatchesTo(topic, subs, gpios, n) == front + back;
        LinksSound(sub, n - 1, gpios, |gpios|);
        forall m: Match | m in front + back
          ensures m.sub < n && m.gpio < |gpios| && m.inv == subs[m.sub].inv
          ensures Selected(topic, subs[m.sub]) && Drives(gpios[m.gpio], subs[m.sub])
        {
          if m !in front {
            assert m in back;
          }
        }
      } else {
        assert MatchesTo(topic, subs, gpios, n) == front;
      }
    }
  }

  /** Every selected SUB entry among the first n, paired with every binding it drives, has its entry in MatchesTo. */
  lemma {:induction false} MatchesComplete(topic: string, subs: seq<SubInfo>, gpios: seq<GpioInfo>, n: nat)
    requires n <= |subs|
    ensures forall i, g :: 0 <= i < n && 0 <= g < |gpios| && Selected(topic, subs[i]) && Drives(gpios[g], subs[i]) ==>
      Match(i, g, subs[i].inv) in MatchesTo(topic, subs, gpios, n)
  {
    if n > 0 {
      MatchesComplete(topic, subs, gpios, n - 1);
      LinksComplete(subs[n - 1], n - 1, gpios, |gpios|);
    }
  }

  /** MatchesTo is in write order (SUB table order, then GPIO table order), so no pair appears twice. */
  lemma {:induction false} MatchesOrdered(topic: string, subs: seq<SubInfo>, gpios: seq<GpioInfo>, n: nat)
    requires n <= |subs|
    ensures Ordered(MatchesTo(topic, subs, gpios, n))
  {
    if n > 0 {
      MatchesOrdered(topic, subs, gpios, n - 1);
      MatchesSound(topic, subs, gpios, n - 1);
      LinksOrdered(subs[n - 1], n - 1, gpios, |gpios|);
      LinksSound(subs[n - 1], n - 1, gpios, |gpios|);
      var back := if Selected(topic, subs[n - 1]) then Links(subs[n - 1], n - 1, gpios) else [];
      OrderedConcat(MatchesTo(topic, subs, gpios, n - 1), back);
    }
  }

  /**
   * The value of write k when the payload decoded to v: the INV branch leaves
   * 0 behind, and nothing resets it, so from the first write for an INV entry
   * on every write of the message is 0; before it each write is v.
   */
  function ValueAt(v: int, ms: seq<Match>, k: nat): int
    requires k < |ms|
  {
    if exists j :: 0 <= j <= k && ms[j].inv then 0 else v
  }

  /** The line writes the router makes: one per match, in match order, with ValueAt's value. */
  datatype Write = Write(gpio: nat, value: int)

  /** The write log a message produces, stated pointwise. */
  predicate IsWriteLog(writes: seq<Write>, v: int, ms: seq<Match>)
  {
    |writes| == |ms| && forall k :: 0 <= k < |ms| ==> writes[k] == Write(ms[k].gpio, ValueAt(v, ms, k))
  }

  /** Some match in ms is for an INV entry. */
  predicate AnyInv(ms: seq<Match>)
  {
    exists j :: 0 <= j < |ms| && ms[j].inv
  }

  /** Appending a match changes neither the earlier values nor whether an INV entry matched before them. */
  lemma ValueAtSnoc(v: int, ms: seq<Match>, m: Match, k: nat)
    requires k < |ms|
    ensures ValueAt(v, ms + [m], k) == ValueAt(v, ms, k)
  {
    assert forall j :: 0 <= j <= k ==> (ms + [m])[j] == ms[j];
  }

  lemma AnyInvSnoc(ms: seq<Match>, m: Match)
    ensures AnyInv(ms + [m]) <==> AnyInv(ms) || m.inv
  {
    var ms' := ms + [m];
    assert forall j :: 0 <= j < |ms| ==> ms'[j] == ms[j];
    assert ms'[|ms|] == m;
  }

  /** A write log extended by one match, whose value is 0 once any INV entry has matched. */
  lemma WriteLogSnoc(writes: seq<Write>, v: int, ms: seq<Match>, m: Match, value: int)
    requires IsWriteLog(writes, v, ms)
    requires value == if AnyInv(ms) || m.inv then 0 else v
    ensures IsWriteLog(writes + [Write(m.gpio, value)], v, ms + [m])
    ensures AnyInv(ms + [m]) <==> AnyInv(ms) || m.inv
  {
    var ms', writes' := ms + [m], writes + [Write(m.gpio, value)];
    AnyInvSnoc(ms, m);
    forall k | 0 <= k < |ms'|
      ensures writes'[k] == Write(ms'[k].gpio, ValueAt(v, ms', k))
    {
      if k < |ms| {
        ValueAtSnoc(v, ms, m, k);
        assert writes'[k] == writes[k] && ms'[k] == ms[k];
      } else {
        assert ValueAt(v, ms', k) == if AnyInv(ms') then 0 else v;
      }
    }
  }

  /** An intended write log extended by one match. */
  lemma IntendedLogSnoc(writes: seq<Write>, v: int, ms: seq<Match>, m: Match, value: int)
    requires IsIntendedLog(writes, v, ms)
    requires value == IntendedValue(v, m)
    ensures IsIntendedLog(writes + [Write(m.gpio, value)], v, ms + [m])
  {
  }

  /** A message on exactly a subscribed topic selects that entry, so every binding it drives is written. */
  lemma SubscribedTopicDrives(subs: seq<SubInfo>, gpios: seq<GpioInfo>, i: nat, g: nat)
    requires i < |subs| && g < |gpios| && Drives(gpios[g], subs[i])
    ensures Match(i, g, subs[i].inv) in Matches(subs[i].topicStr, subs, gpios)
  {
    MatchesComplete(subs[i].topicStr, subs, gpios, |subs|);
    SelectedMeaning(subs[i].topicStr, subs[i]);
  }

  // ---------------------------------------------------------------------
  // The intended behaviour, beside the behaviour as written

  /** The intended payload test: strcmp against "ON" and "OFF". */
  function DecodeExact(payload: string): int
  {
    if StrCmpEq(payload, "ON") then 1 else if StrCmpEq(payload, "OFF") then 0 else -1
  }

  /** The exact test gives 1 for exactly "ON", 0 for exactly "OFF" and -1 for every other payload. */
  lemma DecodeExactMeaning(payload: string)
    ensures DecodeExact(payload) == 1 <==> CStr(payload) == "ON"
    ensures DecodeExact(payload) == 0 <==> CStr(payload) == "OFF"
    ensures DecodeExact(payload) == -1 <==> CStr(payload) != "ON" && CStr(payload) != "OFF"
  {
    StrCmpEqMeaning(payload, "ON");
    StrCmpEqMeaning(payload, "OFF");
    CStrOfNulFree("ON");
    CStrOfNulFree("OFF");
  }

  /** On "ON" and "OFF", the test as written agrees with the exact one. */
  lemma DecodeExactAgrees(payload: string)
    ensures DecodeExact(payload) != -1 ==> DecodePayload(payload) == DecodeExact(payload)
  {
    DecodePayloadMeaning(payload);
    DecodeExactMeaning(payload);
    if CStr(payload) == "ON" {
      assert !("ON" <= "OFF") by {
        assert "ON"[1] != "OFF"[1];
      }
    }
  }

  /** The test as written accepts the empty payload, "O" and "OF" as OFF, where the exact test rejects them. */
  lemma DecodeAcceptsPrefixes()
    ensures DecodePayload("") == 0 && DecodePayload("O") == 0 && DecodePayload("OF") == 0
    ensures DecodePayload("ONX") == -1
    ensures DecodeExact("") == -1 && DecodeExact("O") == -1 && DecodeExact("OF") == -1
  {
    DecodePayloadMeaning("");
    DecodePayloadMeaning("O");
    DecodePayloadMeaning("OF");
    DecodePayloadMeaning("ONX");
    DecodeExactMeaning("");
    DecodeExactMeaning("O");
    DecodeExactMeaning("OF");
    CStrOfNulFree("");
    CStrOfNulFree("O");
    CStrOfNulFree("OF");
    CStrOfNulFree("ONX");
  }

  /** The intended value for a match: the decoded value, inverted for an INV entry. */
  function IntendedValue(v: int, m: Match): int
  {
    if m.inv then 1 - v else v
  }

  predicate IsIntendedLog(writes: seq<Write>, v: int, ms: seq<Match>)
  {
    |writes| == |ms| && forall k :: 0 <= k < |ms| ==> writes[k] == Write(ms[k].gpio, IntendedValue(v, ms[k]))
  }

  /** Without INV entries among the matches, the router as written makes the intended writes. */
  lemma AgreesWithoutInv(writes: seq<Write>, intended: seq<Write>, v: int, ms: seq<Match>)
    requires forall k :: 0 <= k < |ms| ==> !ms[k].inv
    requires IsWriteLog(writes, v, ms) && IsIntendedLog(intended, v, ms)
    ensures writes == intended
  {
  }

  /**
   * The INV quirk: from a write for an INV entry on, every write of the message
   * is 0 whatever the payload. For "OFF" the INV entry itself gets 0 where 1
   * is intended, and for "ON" a later non-INV entry gets 0 where 1 is
   * intended.
   */
  lemma InvQuirk(v: int, ms: seq<Match>, k: nat, j: nat)
    requires k <= j < |ms| && ms[k].inv
    ensures ValueAt(v, ms, j) == 0
    ensures ValueAt(0, ms, k) == 0 && IntendedValue(0, ms[k]) == 1
    ensures !ms[j].inv ==> IntendedValue(1, ms[j]) == 1
  {
    assert 0 <= k <= j && ms[k].inv;
  }

  /**
   * The INV quirk on a concrete configuration: GPIO lines led and fan, and two
   * SUB entries on topic t, the first INV for led, the second plain for fan.
   * On "ON" fan is written 0, where the intended behaviour writes it 1.
   */
  lemma InvQuirkExample(subs: seq<SubInfo>, gpios: seq<GpioInfo>, writes: seq<Write>, intended: seq<Write>)
    requires gpios == [GpioInfo("led", "c", 1), GpioInfo("fan", "c", 2)]
    requires subs == [SubInfo("t", "led", 0, true), SubInfo("t", "fan", 0, false)]
    requires IsWriteLog(writes, 1, Matches("t", subs, gpios))
    requires IsIntendedLog(intended, 1, Matches("t", subs, gpios))
    ensures writes == [Write(0, 0), Write(1, 0)]
    ensures intended == [Write(0, 0), Write(1, 1)]
  {
    ExampleMatches(subs, gpios);
    var ms := Matches("t", subs, gpios);
    assert ValueAt(1, ms, 0) == 0 && ValueAt(1, ms, 1) == 0 by { assert ms[0].inv; }
    assert writes[0] == Write(0, 0) && writes[1] == Write(1, 0);
    assert intended[0] == Write(0, 0) && intended[1] == Write(1, 1);
  }

  /** The example configuration's matches on topic t: led for the INV entry, then fan for the plain one. */
  lemma ExampleMatches(subs: seq<SubInfo>, gpios: seq<GpioInfo>)
    requires gpios == [GpioInfo("led", "c", 1), GpioInfo("fan", "c", 2)]
    requires subs == [SubInfo("t", "led", 0, true), SubInfo("t", "fan", 0, false)]
    ensures Matches("t", subs, gpios) == [Match(0, 0, true), Match(1, 1, false)]
  {
    ExampleLinks(subs, gpios);
    assert MatchesTo("t", subs, gpios, 1) == [Match(0, 0, true)];
  }

  /** The tests of the example configuration: both entries are selected, each driving its own line only. */
  lemma ExampleLinks(subs: seq<SubInfo>, gpios: seq<GpioInfo>)
    requires gpios == [GpioInfo("led", "c", 1), GpioInfo("fan", "c", 2)]
    requires subs == [SubInfo("t", "led", 0, true), SubInfo("t", "fan", 0, false)]
    ensures Selected("t", subs[0]) && Selected("t", subs[1])
    ensures Links(subs[0], 0, gpios) == [Match(0, 0, true)]
    ensures Links(subs[1], 1, gpios) == [Match(1, 1, false)]
  {
    SelectedOwnTopic(subs[0]);
    SelectedOwnTopic(subs[1]);
    DrivesOwnName(gpios[0], subs[0]);
    DrivesOwnName(gpios[1], subs[1]);
    FirstCharDiffers(gpios[1], subs[0]);
    FirstCharDiffers(gpios[0], subs[1]);
    assert LinksTo(subs[0], 0, gpios, 1) == [Match(0, 0, true)];
    assert LinksTo(subs[1], 1, gpios, 1) == [];
  }

  /** A message on exactly an entry's topic selects it. */
  lemma SelectedOwnTopic(s: SubInfo)
    ensures Selected(s.topicStr, s)
  {
    SelectedMeaning(s.topicStr, s);
  }

  /** A binding whose name equals an entry's GPIO name is driven by it. */
  lemma DrivesOwnName(g: GpioInfo, s: SubInfo)
    requires g.gpioName == s.gpioName
    ensures Drives(g, s)
  {
    DrivesMeaning(g, s);
  }

  /** A named binding whose first character differs from the entry's GPIO name's is not driven by it. */
  lemma FirstCharDiffers(g: GpioInfo, s: SubInfo)
    requires At(g.gpioName, 0) != NUL && At(g.gpioName, 0) != At(s.gpioName, 0)
    ensures !Drives(g, s)
  {
    assert StrLen(g.gpioName) > 0;
  }
}
