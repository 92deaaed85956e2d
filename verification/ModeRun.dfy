// The sending side at work: source buffers are sent and codec modes asked for, in any order.

module ModeRun {
  import opened Bits
  import opened AmrTypes
  import opened PayloadSpec
  import opened CommonUtil
  import opened StorageFormat
  import opened FecRecovery
  import opened ModeChange
  import opened SendSpec
  import opened FormatWrite

  /** A source buffer to be sent, or a request of the other side for another bit rate. */
  datatype Call = Source(octets: seq<Byte>, timeBased: bool) | Request(bitrate: int)

  /** The frames found in all the source buffers. */
  function FramesOf(isNb: bool, calls: seq<Call>): seq<Frame> {
    if calls == [] then []
    else
      var last := calls[|calls| - 1];
      FramesOf(isNb, calls[..|calls| - 1]) + if last.Source? then FramesFound(isNb, last.octets) else []
  }

  /** What the calls mean for the codec mode: every frame is counted, every request looked at. */
  function EventsOf(isNb: bool, calls: seq<Call>): seq<Event> {
    if calls == [] then []
    else EventsOf(isNb, calls[..|calls| - 1]) + EventsIn(isNb, calls[|calls| - 1])
  }

  function EventsIn(isNb: bool, call: Call): seq<Event> {
    match call
    case Source(octets, _) => FramesOnly(|FramesFound(isNb, octets)|)
    case Request(bitrate) => [ModeRequested(bitrate)]
  }

  function FramesOnly(n: nat): (events: seq<Event>)
    ensures |events| == n
  {
    seq(n, _ => FrameEncoded)
  }

  /** Frames accept nothing; they only count. */
  lemma {:induction false} OnlyCounts(rules: Rules, g: Gate, n: nat, t: nat)
    requires rules.period > 0 && g.framesEncoded < 0x1_0000_0000
    ensures Changes(rules, g, FramesOnly(n), t) == [] && FrameCount(FramesOnly(n)) == n
    ensures GateAfter(rules, g, FramesOnly(n))
      == Gate(g.bitrate, g.firstCmrHandled, (g.framesEncoded + n) % 0x1_0000_0000)
    decreases n
  {
    if n > 0 {
      assert FramesOnly(n)[1..] == FramesOnly(n - 1);
      OnlyCounts(rules, AfterFrame(g), n - 1, t + 1);
      CountsOver(g.framesEncoded, n - 1);
    }
  }

  lemma {:induction false} CountIs(isNb: bool, calls: seq<Call>)
    ensures FrameCount(EventsOf(isNb, calls)) == |FramesOf(isNb, calls)|
  {
    hide FramesFound, FrameCount;
    if calls == [] {
      NoEvents();
    } else {
      var fewer, last := calls[..|calls| - 1], calls[|calls| - 1];
      CountIs(isNb, fewer);
      var rules, g := Rules([], 1, false), Gate(0, false, 0);
      ChangesOfConcat(rules, g, EventsOf(isNb, fewer), EventsIn(isNb, last), 0);
      match last
      case Source(octets, _) => OnlyCounts(rules, g, |FramesFound(isNb, octets)|, 0);
      case Request(bitrate) => OneRequest(rules, g, bitrate, 0);
    }
  }

  lemma NoEvents()
    ensures FrameCount([]) == 0
  {
  }

  lemma {:induction false} FramesPrefix(isNb: bool, calls: seq<Call>, i: nat)
    requires i <= |calls|
    ensures FramesOf(isNb, calls[..i]) <= FramesOf(isNb, calls)
    decreases |calls|
  {
    hide FramesFound;
    if i == |calls| {
      assert calls[..i] == calls;
    } else {
      FramesPrefix(isNb, calls[..|calls| - 1], i);
      assert calls[..|calls| - 1][..i] == calls[..i];
    }
  }

  // ---------- the answers to the requests ----------

  /** The changes made: the requests answered with yes, each with the number of frames found before it. */
  function ChangesMade(isNb: bool, calls: seq<Call>, answers: seq<bool>): seq<Change>
    requires |answers| == |calls|
  {
    if calls == [] then []
    else
      var k := |calls| - 1;
      ChangesMade(isNb, calls[..k], answers[..k])
      + if answers[k] && calls[k].Request? then [Change(|FramesOf(isNb, calls[..k])|, calls[k].bitrate)] else []
  }

  /** Request `i` is answered with yes exactly when its bit rate is valid for the one in use and either no request
      has been accepted before, or the number of frames since the first one accepted is a multiple of the period. */
  predicate AnswerIs(isNb: bool, rules: Rules, rate: int, calls: seq<Call>, answers: seq<bool>, i: nat)
    requires rules.period > 0 && |answers| == |calls| && i < |calls|
  {
    calls[i].Request? ==>
      var made, time := ChangesMade(isNb, calls[..i], answers[..i]), |FramesOf(isNb, calls[..i])|;
      var current := if made == [] then rate else made[|made| - 1].bitrate;
      (answers[i] <==>
        (made == [] || (time - made[0].time) % 0x1_0000_0000 % rules.period == 0)
        && ValidRate(rules, current, calls[i].bitrate))
  }

  lemma CallsTo(isNb: bool, calls: seq<Call>, answers: seq<bool>, i: nat, answer: bool)
    requires i < |calls| && |answers| == i
    ensures calls[..0] == [] && calls[..i + 1][..i] == calls[..i] && calls[..i + 1][i] == calls[i]
    ensures answers + [answer] == (answers + [answer])[..i + 1] && (answers + [answer])[..i] == answers
    ensures FramesOf(isNb, calls[..i + 1])
      == FramesOf(isNb, calls[..i]) + if calls[i].Source? then FramesFound(isNb, calls[i].octets) else []
    ensures EventsOf(isNb, calls[..i + 1]) == EventsOf(isNb, calls[..i]) + EventsIn(isNb, calls[i])
    ensures ChangesMade(isNb, calls[..i + 1], answers + [answer]) == ChangesMade(isNb, calls[..i], answers)
      + if answer && calls[i].Request? then [Change(|FramesOf(isNb, calls[..i])|, calls[i].bitrate)] else []
  {
    hide FramesFound, EventsIn;
    assert calls[..i + 1][..i] == calls[..i];
    assert (answers + [answer])[..i] == answers;
  }

  /** After one more call the changes and the answers are still as they should be. */
  lemma OneMoreCall(isNb: bool, rules: Rules, g: Gate, calls: seq<Call>, answers: seq<bool>, i: nat, answer: bool)
    requires rules.period > 0 && i < |calls| && |answers| == i && g.framesEncoded < 0x1_0000_0000
    requires ChangesMade(isNb, calls[..i], answers) == Changes(rules, g, EventsOf(isNb, calls[..i]), 0)
    requires calls[i].Request? ==>
      (answer <==> Accepts(rules, GateAfter(rules, g, EventsOf(isNb, calls[..i])), calls[i].bitrate))
    ensures ChangesMade(isNb, calls[..i + 1], answers + [answer])
      == Changes(rules, g, EventsOf(isNb, calls[..i + 1]), 0)
  {
    hide FramesFound, Accepts, Changes, GateAfter, FramesOf, EventsOf, ChangesMade, FramesOnly, FrameCount;
    CallsTo(isNb, calls, answers, i, answer);
    var events := EventsOf(isNb, calls[..i]);
    var h := GateAfter(rules, g, events);
    CountIs(isNb, calls[..i]);
    GateIs(rules, g, events, 0);
    ChangesOfConcat(rules, g, events, EventsIn(isNb, calls[i]), 0);
    match calls[i]
    case Source(octets, _) => OnlyCounts(rules, h, |FramesFound(isNb, octets)|, FrameCount(events));
    case Request(bitrate) => OneRequest(rules, h, bitrate, FrameCount(events));
  }

  lemma OneMoreAnswer(isNb: bool, rules: Rules, g: Gate, calls: seq<Call>, answers: seq<bool>, i: nat)
    requires rules.period > 0 && i < |calls| == |answers| && g.framesEncoded < 0x1_0000_0000
    requires ChangesMade(isNb, calls[..i], answers[..i]) == Changes(rules, g, EventsOf(isNb, calls[..i]), 0)
    requires calls[i].Request? ==>
      (answers[i] <==> Accepts(rules, GateAfter(rules, g, EventsOf(isNb, calls[..i])), calls[i].bitrate))
    requires NoneTwice(rules.modes) && !g.firstCmrHandled
    ensures AnswerIs(isNb, rules, g.bitrate, calls, answers, i)
  {
    hide ValidRate, MayFollow, Changes, GateAfter, FramesOf, EventsOf, ChangesMade, FrameCount;
    if calls[i].Request? {
      var events := EventsOf(isNb, calls[..i]);
      CountIs(isNb, calls[..i]);
      GateIs(rules, g, events, 0);
      FollowsWhenValid(rules, GateAfter(rules, g, events).bitrate, calls[i].bitrate);
    }
  }

  /** Each request has been answered as the gate says that the calls before it have left. */
  ghost predicate AnsweredByGate(isNb: bool, rules: Rules, g: Gate, calls: seq<Call>, answers: seq<bool>)
    requires rules.period > 0
  {
    && |answers| <= |calls|
    && forall i | 0 <= i < |answers| && calls[i].Request? ::
      (answers[i] <==> Accepts(rules, GateAfter(rules, g, EventsOf(isNb, calls[..i])), calls[i].bitrate))
  }

  lemma {:induction false} MadeIs(isNb: bool, rules: Rules, g: Gate, calls: seq<Call>, answers: seq<bool>, i: nat)
    requires rules.period > 0 && i <= |calls| == |answers| && g.framesEncoded < 0x1_0000_0000
    requires AnsweredByGate(isNb, rules, g, calls, answers)
    ensures ChangesMade(isNb, calls[..i], answers[..i]) == Changes(rules, g, EventsOf(isNb, calls[..i]), 0)
  {
    hide Accepts, GateAfter, FramesOf, FramesFound, EventsIn, OnTime, MayFollow;
    if i > 0 {
      MadeIs(isNb, rules, g, calls, answers, i - 1);
      OneMoreCall(isNb, rules, g, calls, answers[..i - 1], i - 1, answers[i - 1]);
      assert answers[..i - 1] + [answers[i - 1]] == answers[..i];
    }
  }

  lemma AllAnswered(isNb: bool, rules: Rules, g: Gate, calls: seq<Call>, answers: seq<bool>)
    requires rules.period > 0 && |calls| == |answers| && g.framesEncoded < 0x1_0000_0000
    requires AnsweredByGate(isNb, rules, g, calls, answers)
    ensures ChangesMade(isNb, calls, answers) == Changes(rules, g, EventsOf(isNb, calls), 0)
    ensures NoneTwice(rules.modes) && !g.firstCmrHandled ==>
      forall i | 0 <= i < |calls| :: AnswerIs(isNb, rules, g.bitrate, calls, answers, i)
  {
    hide Accepts, GateAfter, FramesOf, EventsOf, ChangesMade, Changes, AnswerIs;
    MadeIs(isNb, rules, g, calls, answers, |calls|);
    assert calls[..|calls|] == calls && answers[..|calls|] == answers;
    if NoneTwice(rules.modes) && !g.firstCmrHandled {
      forall i | 0 <= i < |calls| ensures AnswerIs(isNb, rules, g.bitrate, calls, answers, i) {
        MadeIs(isNb, rules, g, calls, answers, i);
        OneMoreAnswer(isNb, rules, g, calls, answers, i);
      }
    }
  }

  lemma AllDisciplined(rules: Rules, g: Gate, events: seq<Event>)
    requires AllowedPeriod(rules.period) && !g.firstCmrHandled
    ensures var made := Changes(rules, g, events, 0);
      forall i, j | 0 <= i <= j < |made| ::
        made[i].time <= made[j].time && (made[j].time - made[i].time) % rules.period == 0
  {
    hide Changes, AllowedPeriod;
    Positive(rules.period);
    var made := Changes(rules, g, events, 0);
    forall i, j | 0 <= i <= j < |made|
      ensures made[i].time <= made[j].time && (made[j].time - made[i].time) % rules.period == 0
    {
      ChangeDiscipline(rules, g, events, 0, i, j);
    }
  }

  lemma Positive(period: nat)
    requires AllowedPeriod(period)
    ensures period > 0
  {
  }

  lemma GateMeans(w: PayloadFormatWrite)
    ensures w.ModeGate() == Gate(w.bitrate, w.firstCmrHandled, w.framesEncoded)
  {
  }

  ghost function AfterCall(isNb: bool, rules: Rules, g: Gate, call: Call): Gate
    requires rules.period > 0
  {
    GateAfter(rules, g, EventsIn(isNb, call))
  }

  lemma AfterCallIs(isNb: bool, rules: Rules, g: Gate, call: Call)
    requires rules.period > 0 && g.framesEncoded < 0x1_0000_0000
    ensures call.Source? ==>
      AfterCall(isNb, rules, g, call)
        == Gate(g.bitrate, g.firstCmrHandled, (g.framesEncoded + |FramesFound(isNb, call.octets)|) % 0x1_0000_0000)
    ensures call.Request? ==> AfterCall(isNb, rules, g, call) == AfterRequest(rules, g, call.bitrate)
  {
    hide FramesOnly, FramesFound, GateAfter, AfterRequest;
    match call
    case Source(octets, _) => OnlyCounts(rules, g, |FramesFound(isNb, octets)|, 0);
    case Request(bitrate) => OneRequest(rules, g, bitrate, 0);
  }

  /** Source buffers are sent and requests answered, one after the other. The changes made are those of the run; each
      request is answered as its place among the frames, the first request accepted and the bit rate in use say; and
      with a period a codec can be given, the frames between any two changes are a multiple of it. */
  method MakeCalls(w: PayloadFormatWrite, calls: seq<Call>) returns (answers: seq<bool>)
    requires w.Running() && w.rules.period > 0
    requires forall i | 0 <= i < |calls| :: calls[i].Source? ==> NoneCutOff(w.isNb, calls[i].octets)
    requires w.CanSend(w.stream + FramesOf(w.isNb, calls))
    modifies w, w.payloadEncoder, w.payloadEncoder.frames, w.payloadEncoder.payload
    modifies w.payloadEncoder.frameEncoder, w.payloadEncoder.headerEncoder, w.payloadEncoder.tocEntryEncoder
    ensures w.Running() && w.stream == old(w.stream) + FramesOf(w.isNb, calls) && w.rules == old(w.rules)
    ensures old(w.Asked()) ==> w.Asked()
    ensures |answers| == |calls|
    ensures ChangesMade(w.isNb, calls, answers) == Changes(w.rules, old(w.ModeGate()), EventsOf(w.isNb, calls), 0)
    ensures w.ModeGate() == GateAfter(w.rules, old(w.ModeGate()), EventsOf(w.isNb, calls))
    ensures NoneTwice(w.rules.modes) && !old(w.firstCmrHandled) ==>
      forall i | 0 <= i < |calls| :: AnswerIs(w.isNb, w.rules, old(w.bitrate), calls, answers, i)
    ensures AllowedPeriod(w.rules.period) && !old(w.firstCmrHandled) ==>
      var made := ChangesMade(w.isNb, calls, answers);
      forall i, j | 0 <= i <= j < |made| ::
        made[i].time <= made[j].time && (made[j].time - made[i].time) % w.rules.period == 0
  {
    hide *;
    answers := [];
    ghost var g, start, total := w.ModeGate(), w.stream, w.stream + FramesOf(w.isNb, calls);
    AtFirst(w, calls);
    for i := 0 to |calls|
      invariant w.Running() && w.CanSend(total) && w.stream == start + FramesOf(w.isNb, calls[..i])
      invariant w.payloadEncoder.payload == old(w.payloadEncoder.payload) && w.rules == old(w.rules)
      invariant w.frameSize == old(w.frameSize) && |answers| == i && (old(w.Asked()) ==> w.Asked())
      invariant AnsweredByGate(w.isNb, w.rules, g, calls, answers)
      invariant w.ModeGate() == GateAfter(w.rules, g, EventsOf(w.isNb, calls[..i]))
    {
      CallAhead(w, calls, answers, i, start, total);
      GateMeans(w);
      AfterCallIs(w.isNb, w.rules, w.ModeGate(), calls[i]);
      ghost var h := w.ModeGate();
      var answer := false;
      match calls[i] {
        case Source(octets, timeBased) =>
          SendBuffer(w, octets, timeBased);
        case Request(bitrate) =>
          answer := w.IsBitrateChangeValid(bitrate);
      }
      GateMeans(w);
      CallMade(w.isNb, w.rules, g, h, calls, answers, i, answer);
      answers := answers + [answer];
    }
    assert calls[..|calls|] == calls;
    AllAnswered(w.isNb, w.rules, g, calls, answers);
    if AllowedPeriod(w.rules.period) && !g.firstCmrHandled {
      AllDisciplined(w.rules, g, EventsOf(w.isNb, calls));
    }
  }

  lemma AtFirst(w: PayloadFormatWrite, calls: seq<Call>)
    requires w.rules.period > 0
    ensures w.stream == w.stream + FramesOf(w.isNb, calls[..0])
    ensures AnsweredByGate(w.isNb, w.rules, w.ModeGate(), calls, [])
    ensures w.ModeGate() == GateAfter(w.rules, w.ModeGate(), EventsOf(w.isNb, calls[..0]))
    ensures w.ModeGate() == Gate(w.bitrate, w.firstCmrHandled, w.framesEncoded)
    ensures w.ModeGate().framesEncoded < 0x1_0000_0000
  {
    assert calls[..0] == [];
  }

  lemma CallAhead(w: PayloadFormatWrite, calls: seq<Call>, answers: seq<bool>, i: nat, start: seq<Frame>,
                  total: seq<Frame>)
    requires i < |calls| && |answers| == i && w.CanSend(total) && total == start + FramesOf(w.isNb, calls)
    requires w.stream == start + FramesOf(w.isNb, calls[..i])
    ensures w.stream + (if calls[i].Source? then FramesFound(w.isNb, calls[i].octets) else [])
      == start + FramesOf(w.isNb, calls[..i + 1])
    ensures calls[i].Source? ==> w.CanSend(w.stream + FramesFound(w.isNb, calls[i].octets))
  {
    hide *;
    CallsTo(w.isNb, calls, answers, i, false);
    FramesPrefix(w.isNb, calls, i + 1);
    var found := if calls[i].Source? then FramesFound(w.isNb, calls[i].octets) else [];
    Behind(start, FramesOf(w.isNb, calls[..i]), found, FramesOf(w.isNb, calls));
    w.CanSendOfPrefix(w.stream + found, total);
  }

  lemma Behind<T>(a: seq<T>, b: seq<T>, c: seq<T>, all: seq<T>)
    requires b + c <= all
    ensures a + b + c == a + (b + c) <= a + all
  {
    assert all == b + c + all[|b + c|..];
    assert a + all == a + (b + c) + all[|b + c|..];
  }

  lemma CallMade(isNb: bool, rules: Rules, g: Gate, h: Gate, calls: seq<Call>, answers: seq<bool>, i: nat, answer: bool)
    requires rules.period > 0 && i < |calls| && |answers| == i
    requires AnsweredByGate(isNb, rules, g, calls, answers) && h == GateAfter(rules, g, EventsOf(isNb, calls[..i]))
    requires answer <==> calls[i].Request? && Accepts(rules, h, calls[i].bitrate)
    ensures AnsweredByGate(isNb, rules, g, calls, answers + [answer])
    ensures AfterCall(isNb, rules, h, calls[i]) == GateAfter(rules, g, EventsOf(isNb, calls[..i + 1]))
  {
    hide Accepts, GateAfter, EventsOf, EventsIn, FramesOf, FramesFound, ChangesMade;
    CallsTo(isNb, calls, answers, i, answer);
    ChangesOfConcat(rules, g, EventsOf(isNb, calls[..i]), EventsIn(isNb, calls[i]), 0);
  }
}
