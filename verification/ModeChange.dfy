// Codec mode changes: which requested bit rates are accepted, and when, over a whole run.

module ModeChange {
  import opened AmrTypes

  datatype Rules = Rules(modes: seq<int>, period: nat, neighbor: bool)

  /** The bit rate in use, whether a first request has been accepted, and the frame counter. */
  datatype Gate = Gate(bitrate: int, firstCmrHandled: bool, framesEncoded: nat)

  /** The index of the first occurrence of `x`, or -1. */
  function Find(s: seq<int>, x: int): (r: int)
    ensures -1 <= r < |s|
    ensures r >= 0 ==> s[r] == x && x !in s[..r]
    ensures r == -1 <==> x !in s
  {
    if s == [] then -1
    else if s[0] == x then 0
    else
      var r := Find(s[1..], x);
      assert r >= 0 ==> s[..r + 1] == [s[0]] + s[1..][..r];
      if r == -1 then -1 else r + 1
  }

  /** A request may be accepted at this point of the run: always before the first one has been, and
      otherwise when the counter is at a multiple of the period. */
  predicate OnTime(rules: Rules, g: Gate)
    requires rules.period > 0
  {
    !g.firstCmrHandled || g.framesEncoded % rules.period == 0
  }

  /** The bit rate may follow the one in use: any mode when the one in use is none or steps are free, otherwise
      the next mode up or down. */
  predicate MayFollow(rules: Rules, current: int, desired: int) {
    var i, j := Find(rules.modes, current), Find(rules.modes, desired);
    j != -1 && (i == -1 || !rules.neighbor || j == i + 1 || j == i - 1)
  }

  predicate Accepts(rules: Rules, g: Gate, bitrate: int)
    requires rules.period > 0
  {
    OnTime(rules, g) && MayFollow(rules, g.bitrate, bitrate)
  }

  predicate NoneTwice(modes: seq<int>) {
    forall i, j | 0 <= i < j < |modes| :: modes[i] != modes[j]
  }

  /** Two bit rates stand next to each other in the mode set. */
  predicate NextTo(modes: seq<int>, a: int, b: int) {
    exists j :: 0 < j < |modes| && ((modes[j - 1] == a && modes[j] == b) || (modes[j - 1] == b && modes[j] == a))
  }

  /** A bit rate is valid for a codec that uses the bit rate `current`: it is in the mode set and, unless the one
      in use is not or steps are free, it stands next to that one. */
  predicate ValidRate(rules: Rules, current: int, desired: int) {
    desired in rules.modes && (current !in rules.modes || !rules.neighbor || NextTo(rules.modes, current, desired))
  }

  lemma {:induction false} FindIs(s: seq<int>, j: nat)
    requires NoneTwice(s) && j < |s|
    ensures Find(s, s[j]) == j
  {
    var r := Find(s, s[j]);
    assert s[r] == s[j];
  }

  /** With distinct modes exactly the valid bit rates may follow the one in use. */
  lemma FollowsWhenValid(rules: Rules, current: int, desired: int)
    requires NoneTwice(rules.modes)
    ensures MayFollow(rules, current, desired) <==> ValidRate(rules, current, desired)
  {
    hide Find;
    var modes, i, j := rules.modes, Find(rules.modes, current), Find(rules.modes, desired);
    if current in modes && desired in modes {
      if NextTo(modes, current, desired) {
        var k :| 0 < k < |modes| && ((modes[k - 1] == current && modes[k] == desired)
                                     || (modes[k - 1] == desired && modes[k] == current));
        FindIs(modes, k - 1);
        FindIs(modes, k);
      } else {
        assert j == i + 1 ==> modes[j - 1] == current && modes[j] == desired;
        assert i == j + 1 ==> modes[i - 1] == desired && modes[i] == current;
      }
    }
  }

  function AfterRequest(rules: Rules, g: Gate, bitrate: int): Gate
    requires rules.period > 0
  {
    var framesEncoded := if g.firstCmrHandled then g.framesEncoded else 0;
    if Accepts(rules, g, bitrate) then Gate(bitrate, true, framesEncoded)
    else Gate(g.bitrate, g.firstCmrHandled, framesEncoded)
  }

  function AfterFrame(g: Gate): Gate {
    Gate(g.bitrate, g.firstCmrHandled, (g.framesEncoded + 1) % TWO_TO_THE_32)
  }

  // ---------- runs ----------

  datatype Event = FrameEncoded | ModeRequested(bitrate: int)

  /** An accepted change: how many frames of the run came before it, and the new bit rate. */
  datatype Change = Change(time: nat, bitrate: int)

  /** The changes accepted during a run that starts at frame `t`. */
  function Changes(rules: Rules, g: Gate, events: seq<Event>, t: nat): seq<Change>
    requires rules.period > 0
    decreases |events|
  {
    if events == [] then []
    else match events[0]
      case FrameEncoded => Changes(rules, AfterFrame(g), events[1..], t + 1)
      case ModeRequested(bitrate) =>
        var rest := Changes(rules, AfterRequest(rules, g, bitrate), events[1..], t);
        if Accepts(rules, g, bitrate) then [Change(t, bitrate)] + rest else rest
  }

  /** The bit rate in use when change `i` is made. */
  function RateBefore(from: int, cs: seq<Change>, i: nat): int
    requires i < |cs|
  {
    if i == 0 then from else cs[i - 1].bitrate
  }

  // ---------- a request in a run ----------

  function FrameCount(events: seq<Event>): nat {
    if events == [] then 0 else FrameCount(events[1..]) + if events[0].FrameEncoded? then 1 else 0
  }

  /** The gate behind a run. */
  function GateAfter(rules: Rules, g: Gate, events: seq<Event>): Gate
    requires rules.period > 0
    decreases |events|
  {
    if events == [] then g
    else match events[0]
      case FrameEncoded => GateAfter(rules, AfterFrame(g), events[1..])
      case ModeRequested(bitrate) => GateAfter(rules, AfterRequest(rules, g, bitrate), events[1..])
  }

  /** A run in two parts. */
  lemma {:induction false} ChangesOfConcat(rules: Rules, g: Gate, a: seq<Event>, b: seq<Event>, t: nat)
    requires rules.period > 0
    ensures GateAfter(rules, g, a + b) == GateAfter(rules, GateAfter(rules, g, a), b)
    ensures FrameCount(a + b) == FrameCount(a) + FrameCount(b)
    ensures Changes(rules, g, a + b, t)
      == Changes(rules, g, a, t) + Changes(rules, GateAfter(rules, g, a), b, t + FrameCount(a))
    decreases |a|
  {
    hide AfterRequest, AfterFrame, OnTime, MayFollow;
    if a == [] {
      assert a + b == b;
    } else {
      assert (a + b)[1..] == a[1..] + b && (a + b)[0] == a[0];
      match a[0]
      case FrameEncoded => ChangesOfConcat(rules, AfterFrame(g), a[1..], b, t + 1);
      case ModeRequested(bitrate) => ChangesOfConcat(rules, AfterRequest(rules, g, bitrate), a[1..], b, t);
    }
  }

  /** The bit rate in use is that of the last change; the counter shows how many frames came after the first one. */
  lemma {:induction false} GateIs(rules: Rules, g: Gate, events: seq<Event>, t: nat)
    requires rules.period > 0
    ensures var h, cs, end := GateAfter(rules, g, events), Changes(rules, g, events, t), t + FrameCount(events);
      && h.bitrate == (if cs == [] then g.bitrate else cs[|cs| - 1].bitrate)
      && (h.firstCmrHandled <==> g.firstCmrHandled || cs != [])
      && (g.firstCmrHandled && g.framesEncoded < 0x1_0000_0000 ==>
        h.framesEncoded == (g.framesEncoded + FrameCount(events)) % 0x1_0000_0000)
      && (!g.firstCmrHandled && cs != [] ==>
        cs[0].time <= end && h.framesEncoded == (end - cs[0].time) % 0x1_0000_0000)
      && (g.framesEncoded < 0x1_0000_0000 ==> h.framesEncoded < 0x1_0000_0000)
    decreases |events|
  {
    hide MayFollow, OnTime;
    if events != [] {
      match events[0]
      case FrameEncoded =>
        GateIs(rules, AfterFrame(g), events[1..], t + 1);
        if g.firstCmrHandled && g.framesEncoded < 0x1_0000_0000 {
          CountsOver(g.framesEncoded, FrameCount(events[1..]));
        }
      case ModeRequested(bitrate) =>
        GateIs(rules, AfterRequest(rules, g, bitrate), events[1..], t);
    }
  }

  lemma CountsOver(x: nat, n: nat)
    ensures ((x + 1) % 0x1_0000_0000 + n) % 0x1_0000_0000 == (x + (n + 1)) % 0x1_0000_0000
  {
  }

  /** Of a run that starts before any request has been accepted: a request is accepted exactly when it is valid
      and is the first one accepted, or comes as many frames after that one as make a multiple of the period. */
  lemma RequestInRun(rules: Rules, g: Gate, before: seq<Event>, bitrate: int, after: seq<Event>, t: nat)
    requires rules.period > 0 && NoneTwice(rules.modes) && !g.firstCmrHandled
    ensures var cs, time := Changes(rules, g, before, t), t + FrameCount(before);
      var current := if cs == [] then g.bitrate else cs[|cs| - 1].bitrate;
      var accepted := (cs == [] || (time - cs[0].time) % 0x1_0000_0000 % rules.period == 0)
                      && ValidRate(rules, current, bitrate);
      Changes(rules, g, before + [ModeRequested(bitrate)] + after, t)
        == cs + (if accepted then [Change(time, bitrate)] else [])
          + Changes(rules, GateAfter(rules, g, before + [ModeRequested(bitrate)]), after, time)
  {
    hide MayFollow, ValidRate, Changes, GateAfter, FrameCount;
    var request := [ModeRequested(bitrate)];
    GateIs(rules, g, before, t);
    ChangesOfConcat(rules, g, before, request, t);
    ChangesOfConcat(rules, g, before + request, after, t);
    var h := GateAfter(rules, g, before);
    FollowsWhenValid(rules, h.bitrate, bitrate);
    OneRequest(rules, h, bitrate, t + FrameCount(before));
  }

  lemma OneRequest(rules: Rules, g: Gate, bitrate: int, t: nat)
    requires rules.period > 0
    ensures FrameCount([ModeRequested(bitrate)]) == 0
    ensures Changes(rules, g, [ModeRequested(bitrate)], t)
      == if Accepts(rules, g, bitrate) then [Change(t, bitrate)] else []
    ensures GateAfter(rules, g, [ModeRequested(bitrate)]) == AfterRequest(rules, g, bitrate)
  {
    hide MayFollow, OnTime;
    assert [ModeRequested(bitrate)][1..] == [];
    assert Changes(rules, AfterRequest(rules, g, bitrate), [], t) == [];
    assert FrameCount([]) == 0;
  }

  /** Each change is to a bit rate of the mode set that may follow the one in use. */
  ghost predicate Follows(rules: Rules, from: int, cs: seq<Change>) {
    forall i | 0 <= i < |cs| ::
      cs[i].bitrate in rules.modes && MayFollow(rules, RateBefore(from, cs, i), cs[i].bitrate)
  }

  lemma FollowsMore(rules: Rules, from: int, c: Change, cs: seq<Change>)
    requires MayFollow(rules, from, c.bitrate) && Follows(rules, c.bitrate, cs)
    ensures Follows(rules, from, [c] + cs)
  {
    hide MayFollow, Find;
    MayFollowMode(rules, from, c.bitrate);
    var all := [c] + cs;
    forall i | 0 <= i < |all|
      ensures all[i].bitrate in rules.modes && MayFollow(rules, RateBefore(from, all, i), all[i].bitrate)
    {
      if i > 0 { assert all[i] == cs[i - 1] && RateBefore(from, all, i) == RateBefore(c.bitrate, cs, i - 1); }
    }
  }

  lemma MayFollowMode(rules: Rules, current: int, desired: int)
    requires MayFollow(rules, current, desired)
    ensures desired in rules.modes
  {
  }

  /** Only bit rates of the mode set are accepted, and each may follow the one in use at that time. */
  lemma {:induction false} ChangesFollow(rules: Rules, g: Gate, events: seq<Event>, t: nat)
    requires rules.period > 0
    ensures Follows(rules, g.bitrate, Changes(rules, g, events, t))
    decreases |events|
  {
    hide MayFollow, OnTime, Follows;
    if events == [] {
      NothingFollows(rules, g.bitrate);
    } else if events[0].FrameEncoded? {
      ChangesFollow(rules, AfterFrame(g), events[1..], t + 1);
    } else {
      var bitrate := events[0].bitrate;
      ChangesFollow(rules, AfterRequest(rules, g, bitrate), events[1..], t);
      if Accepts(rules, g, bitrate) {
        FollowsMore(rules, g.bitrate, Change(t, bitrate),
                    Changes(rules, AfterRequest(rules, g, bitrate), events[1..], t));
      }
    }
  }

  lemma NothingFollows(rules: Rules, from: int)
    ensures Follows(rules, from, [])
  {
  }

  /** Where steps are required, each accepted change moves exactly one step in the mode set. */
  lemma ChangesAreSteps(rules: Rules, g: Gate, events: seq<Event>, t: nat)
    requires rules.period > 0 && rules.neighbor && g.bitrate in rules.modes
    ensures var cs := Changes(rules, g, events, t);
      forall i | 0 <= i < |cs| ::
        var step := Find(rules.modes, cs[i].bitrate) - Find(rules.modes, RateBefore(g.bitrate, cs, i));
        step == 1 || step == -1
  {
    hide Find, Changes;
    ChangesFollow(rules, g, events, t);
    var cs := Changes(rules, g, events, t);
    forall i | 0 <= i < |cs|
      ensures RateBefore(g.bitrate, cs, i) in rules.modes
      ensures MayFollow(rules, RateBefore(g.bitrate, cs, i), cs[i].bitrate)
    {
      if i > 0 { assert cs[i - 1].bitrate in rules.modes; }
    }
  }

  // ---------- when changes are accepted ----------

  /** `t` is a point of the run at which the counter, started at `start`, shows a multiple of the period. */
  predicate OnCounter(period: nat, start: nat, t: nat)
    requires period > 0
  {
    start <= t && (t - start) % TWO_TO_THE_32 % period == 0
  }

  lemma ModNext(x: nat)
    ensures (x % TWO_TO_THE_32 + 1) % TWO_TO_THE_32 == (x + 1) % TWO_TO_THE_32
  {
  }

  lemma {:induction false} ChangesOnCounter(rules: Rules, g: Gate, events: seq<Event>, t: nat, start: nat)
    requires rules.period > 0 && start <= t
    requires g.firstCmrHandled && g.framesEncoded == (t - start) % TWO_TO_THE_32
    ensures forall i | 0 <= i < |Changes(rules, g, events, t)| ::
      t <= Changes(rules, g, events, t)[i].time && OnCounter(rules.period, start, Changes(rules, g, events, t)[i].time)
    decreases |events|
  {
    hide MayFollow;
    if events != [] {
      if events[0].FrameEncoded? {
        ModNext(t - start);
        ChangesOnCounter(rules, AfterFrame(g), events[1..], t + 1, start);
      } else {
        ChangesOnCounter(rules, AfterRequest(rules, g, events[0].bitrate), events[1..], t, start);
      }
    }
  }

  ghost predicate AllOnCounter(period: nat, start: nat, cs: seq<Change>)
    requires period > 0
  {
    forall i | 0 <= i < |cs| :: OnCounter(period, start, cs[i].time)
  }

  lemma FirstChange(rules: Rules, g: Gate, bitrate: int, events: seq<Event>, t: nat)
    requires rules.period > 0 && Accepts(rules, g, bitrate) && !g.firstCmrHandled
    ensures AllOnCounter(rules.period, t,
                         [Change(t, bitrate)] + Changes(rules, AfterRequest(rules, g, bitrate), events, t))
  {
    hide MayFollow, Changes;
    ChangesOnCounter(rules, AfterRequest(rules, g, bitrate), events, t, t);
    assert OnCounter(rules.period, t, t);
  }

  /** The first accepted change starts the counter; from then on changes are accepted when it shows a
      multiple of the period. */
  lemma {:induction false} ChangesAfterFirst(rules: Rules, g: Gate, events: seq<Event>, t: nat)
    requires rules.period > 0 && !g.firstCmrHandled
    ensures var cs := Changes(rules, g, events, t); cs != [] ==> AllOnCounter(rules.period, cs[0].time, cs)
    decreases |events|
  {
    hide MayFollow, OnTime, AllOnCounter;
    if events != [] {
      if events[0].FrameEncoded? {
        ChangesAfterFirst(rules, AfterFrame(g), events[1..], t + 1);
      } else if Accepts(rules, g, events[0].bitrate) {
        FirstChange(rules, g, events[0].bitrate, events[1..], t);
      } else {
        ChangesAfterFirst(rules, AfterRequest(rules, g, events[0].bitrate), events[1..], t);
      }
    }
  }

  /** The distance of two accepted changes is a multiple of the period exactly when the counter's wrapping
      does not show in it; when it has not wrapped, it is. */
  lemma ChangeDistance(rules: Rules, g: Gate, events: seq<Event>, t: nat, i: nat)
    requires rules.period > 0 && !g.firstCmrHandled && i < |Changes(rules, g, events, t)|
    ensures var cs := Changes(rules, g, events, t);
      var d := cs[i].time - cs[0].time;
      && d >= 0
      && (d % rules.period == 0 <==> d / TWO_TO_THE_32 * TWO_TO_THE_32 % rules.period == 0)
      && (d < TWO_TO_THE_32 ==> d % rules.period == 0)
  {
    hide Changes;
    ChangesAfterFirst(rules, g, events, t);
    var cs := Changes(rules, g, events, t);
    assert OnCounter(rules.period, cs[0].time, cs[i].time);
    var d := cs[i].time - cs[0].time;
    SplitMultiple(d / TWO_TO_THE_32 * TWO_TO_THE_32, d % TWO_TO_THE_32, rules.period);
  }

  lemma SplitMultiple(a: nat, b: nat, p: nat)
    requires p > 0 && b % p == 0
    ensures (a + b) % p == 0 <==> a % p == 0
  {
    ModSum(a, b / p, p);
  }

  lemma ModSum(a: nat, k: nat, p: nat)
    requires p > 0
    ensures (a + k * p) % p == a % p
    decreases k
  {
    if k > 0 {
      ModSum(a, k - 1, p);
      ModOnce(a + (k - 1) * p, p);
      assert a + (k - 1) * p + p == a + k * p;
    }
  }

  lemma ModOnce(x: nat, p: nat)
    requires p > 0
    ensures (x + p) % p == x % p
  {
    var q, r := x / p, x % p;
    assert p * (q + 1) == p * q + p;
    ModUnique(x + p, p, q + 1, r);
  }

  /** The periods a codec can be given. */
  predicate AllowedPeriod(period: nat) {
    period == 1 || period == 2
  }

  /** Changes are listed in the order of time. */
  lemma {:induction false} ChangesInOrder(rules: Rules, g: Gate, events: seq<Event>, t: nat, i: nat, j: nat)
    requires rules.period > 0 && i <= j < |Changes(rules, g, events, t)|
    ensures t <= Changes(rules, g, events, t)[i].time <= Changes(rules, g, events, t)[j].time
    decreases |events|
  {
    hide MayFollow, OnTime;
    if events[0].FrameEncoded? {
      ChangesInOrder(rules, AfterFrame(g), events[1..], t + 1, i, j);
    } else if Accepts(rules, g, events[0].bitrate) {
      if i > 0 {
        ChangesInOrder(rules, AfterRequest(rules, g, events[0].bitrate), events[1..], t, i - 1, j - 1);
      } else if j > 0 {
        ChangesInOrder(rules, AfterRequest(rules, g, events[0].bitrate), events[1..], t, j - 1, j - 1);
      }
    } else {
      ChangesInOrder(rules, AfterRequest(rules, g, events[0].bitrate), events[1..], t, i, j);
    }
  }

  /** Between any two accepted changes of any run, however long, lies a multiple of the period. */
  lemma ChangeDiscipline(rules: Rules, g: Gate, events: seq<Event>, t: nat, i: nat, j: nat)
    requires AllowedPeriod(rules.period) && !g.firstCmrHandled && i <= j < |Changes(rules, g, events, t)|
    ensures var cs := Changes(rules, g, events, t);
      cs[i].time <= cs[j].time && (cs[j].time - cs[i].time) % rules.period == 0
  {
    hide Changes;
    ChangesInOrder(rules, g, events, t, i, j);
    ChangeDistance(rules, g, events, t, i);
    ChangeDistance(rules, g, events, t, j);
    var cs := Changes(rules, g, events, t);
    var a, b := cs[i].time - cs[0].time, cs[j].time - cs[0].time;
    WrapIsMultiple(a / TWO_TO_THE_32, rules.period);
    WrapIsMultiple(b / TWO_TO_THE_32, rules.period);
    SplitMultiple(b - a, a, rules.period);
  }

  lemma WrapIsMultiple(k: nat, period: nat)
    requires AllowedPeriod(period)
    ensures k * TWO_TO_THE_32 % period == 0
  {
    assert k * TWO_TO_THE_32 == 2 * (k * 0x8000_0000);
  }
}
