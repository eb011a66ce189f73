/**
 * The two sampling loops of record.py: run_on_event, which keeps a table of the
 * latest topic values and takes a clip whenever the trigger condition holds,
 * and run_periodically, which takes and uploads a clip on every iteration.
 *
 * The camera, ffmpeg, the message bus and the clocks are inputs: a message with
 * the time it was checked against (`now`, nanoseconds), the reading of the
 * sample clock (`clock`, nanoseconds) and an abstract evaluator standing for
 * Python's `eval` of the condition.
 */
module Sampler {

  import opened Wrappers
  import opened TopicParser

  /** Python's `s.replace(from, to)` for single characters. */
  function ReplaceChar(s: string, from: char, to: char): (r: string)
    ensures |r| == |s|
    ensures forall k :: 0 <= k < |s| ==> r[k] == (if s[k] == from then to else s[k])
  {
    if s == [] then [] else [if s[0] == from then to else s[0]] + ReplaceChar(s[1..], from, to)
  }

  /** The table key a bus name is stored under: dots become underscores. */
  function TableKey(name: string): (key: string)
    ensures |key| == |name| && '.' !in key
    ensures forall k :: 0 <= k < |name| && name[k] != '.' ==> key[k] == name[k]
  {
    ReplaceChar(name, '.', '_')
  }

  /** The bus topic subscribed for a table key: underscores become dots. */
  function BusTopic(key: string): (topic: string)
    ensures |topic| == |key| && '_' !in topic
    ensures forall k :: 0 <= k < |key| && key[k] != '_' ==> topic[k] == key[k]
  {
    ReplaceChar(key, '_', '.')
  }

  /**
   * A key without dots survives the trip to its bus topic and back, so a
   * message published on a subscribed topic lands on that topic's table key.
   */
  lemma SubscriptionRoundTrip(key: string)
    requires '.' !in key
    ensures TableKey(BusTopic(key)) == key
  {
    var r := TableKey(BusTopic(key));
    assert forall k :: 0 <= k < |key| ==> key[k] != '.';
    assert |r| == |key|;
    forall k | 0 <= k < |key| ensures r[k] == key[k] {
      assert BusTopic(key)[k] == (if key[k] == '_' then '.' else key[k]);
    }
  }

  /** Every extracted topic is a word token, hence free of dots. */
  lemma TopicsHaveNoDot(expr: string, t: string)
    requires t in Topics(expr)
    ensures '.' !in t
    ensures TableKey(BusTopic(t)) == t
  {
    TopicsExact(expr);
    assert IsWordToken(t);
    SubscriptionRoundTrip(t);
  }

  /** A message from the bus: a topic name, its value and its timestamp in nanoseconds. */
  datatype Message = Message(name: string, value: real, timestamp: int)

  /** Messages older than this many nanoseconds are ignored. */
  const StalenessNanos: int := 5_000_000_000

  predicate IsFresh(msg: Message, now: int)
  {
    now - msg.timestamp <= StalenessNanos
  }

  /**
   * The table after a message is received. A stale message leaves it as it was;
   * a fresh one sets its key (any key, subscribed or not) to the message's
   * value; no other key changes.
   */
  function Ingested(table: map<string, real>, msg: Message, now: int): (r: map<string, real>)
    ensures !IsFresh(msg, now) ==> r == table
    ensures IsFresh(msg, now) ==> r.Keys == table.Keys + {TableKey(msg.name)}
    ensures IsFresh(msg, now) ==> r[TableKey(msg.name)] == msg.value
    ensures forall k :: k in table && k != TableKey(msg.name) ==> k in r && r[k] == table[k]
  {
    if IsFresh(msg, now) then table[TableKey(msg.name) := msg.value] else table
  }

  /**
   * Python's `eval(condition, topics)`, kept abstract: None when it raises,
   * otherwise the truth value of what it returns.
   */
  type Evaluator = (string, map<string, real>) -> Option<bool>

  /** Where take_sample leaves the final clip (its directory is not modelled). */
  const FinalClip: string := "sample.mp4"

  datatype SampleResult = SampleResult(success: bool, file: string, timestamp: int)

  datatype Upload = Upload(file: string, timestamp: int)

  /**
   * The return value of take_sample, given the sample clock and the skip offset
   * in nanoseconds: it always reports success, names the final clip and stamps
   * it with the time the clip starts in the stream.
   */
  function TakeSample(clockNanos: int, skipNanos: int): (r: SampleResult)
    ensures r.success
    ensures r.file == FinalClip
    ensures r.timestamp - skipNanos == clockNanos
  {
    SampleResult(true, FinalClip, clockNanos + skipNanos)
  }

  /** One message from the bus together with the clock readings taken while handling it. */
  datatype Event = Event(msg: Message, now: int, clock: int)

  /** The observable state of the event loop. */
  datatype EventRun = EventRun(table: map<string, real>, samples: nat, uploads: seq<Upload>, sleeps: nat)

  /** Whether the condition fires once ev has been received. */
  predicate Fires(condition: string, eval: Evaluator, table: map<string, real>, ev: Event)
  {
    eval(condition, Ingested(table, ev.msg, ev.now)) == Some(true)
  }

  /**
   * One iteration of the event loop. When the condition holds on the updated
   * table, one sample is taken, it is uploaded once with the sample's
   * timestamp, and the table is emptied. Otherwise, including when the
   * evaluation raised, nothing is sampled and the loop sleeps once.
   */
  function StepRun(condition: string, eval: Evaluator, skipNanos: int, st: EventRun, ev: Event): (r: EventRun)
    ensures Fires(condition, eval, st.table, ev) ==>
      r == EventRun(map[], st.samples + 1, st.uploads + [Upload(FinalClip, ev.clock + skipNanos)], st.sleeps)
    ensures !Fires(condition, eval, st.table, ev) ==>
      r == EventRun(Ingested(st.table, ev.msg, ev.now), st.samples, st.uploads, st.sleeps + 1)
  {
    var table := Ingested(st.table, ev.msg, ev.now);
    var result := eval(condition, table);
    if result.Some? && result.value then
      var sample := TakeSample(ev.clock, skipNanos);
      EventRun(map[], st.samples + 1, st.uploads + [Upload(sample.file, sample.timestamp)], st.sleeps)
    else
      EventRun(table, st.samples, st.uploads, st.sleeps + 1)
  }

  /** The event loop run over a sequence of events, from state st. */
  function Run(condition: string, eval: Evaluator, skipNanos: int, st: EventRun, evs: seq<Event>): (r: EventRun)
    decreases |evs|
  {
    if evs == [] then st
    else StepRun(condition, eval, skipNanos, Run(condition, eval, skipNanos, st, evs[..|evs| - 1]), evs[|evs| - 1])
  }

  /**
   * Every iteration either samples and uploads once or sleeps once; every
   * sample is uploaded; earlier uploads are kept.
   */
  lemma {:induction false} RunAccounting(condition: string, eval: Evaluator, skipNanos: int, st: EventRun, evs: seq<Event>)
    ensures var r := Run(condition, eval, skipNanos, st, evs);
      && |st.uploads| <= |r.uploads|
      && r.uploads[..|st.uploads|] == st.uploads
      && r.samples - st.samples == |r.uploads| - |st.uploads|
      && (|r.uploads| - |st.uploads|) + (r.sleeps - st.sleeps) == |evs|
    decreases |evs|
  {
    if evs != [] {
      RunAccounting(condition, eval, skipNanos, st, evs[..|evs| - 1]);
    }
  }

  /**
   * Every upload of the run comes from a message at which the condition fired:
   * it is the final clip stamped with that message's sample clock plus the skip
   * offset, and it was appended when the run had made exactly k uploads, so the
   * uploads follow the order of the messages that caused them.
   */
  lemma {:induction false} RunUploadsStamped(condition: string, eval: Evaluator, skipNanos: int, st: EventRun, evs: seq<Event>, k: nat)
    requires |st.uploads| <= k < |Run(condition, eval, skipNanos, st, evs).uploads|
    ensures exists j :: (0 <= j < |evs| &&
      Fires(condition, eval, Run(condition, eval, skipNanos, st, evs[..j]).table, evs[j]) &&
      |Run(condition, eval, skipNanos, st, evs[..j]).uploads| == k &&
      Run(condition, eval, skipNanos, st, evs).uploads[k] == Upload(FinalClip, evs[j].clock + skipNanos))
    decreases |evs|
  {
    var init := evs[..|evs| - 1];
    var mid := Run(condition, eval, skipNanos, st, init);
    var r := Run(condition, eval, skipNanos, st, evs);
    RunAccounting(condition, eval, skipNanos, st, init);
    if k < |mid.uploads| {
      RunUploadsStamped(condition, eval, skipNanos, st, init, k);
      var j :| 0 <= j < |init| &&
        Fires(condition, eval, Run(condition, eval, skipNanos, st, init[..j]).table, init[j]) &&
        |Run(condition, eval, skipNanos, st, init[..j]).uploads| == k &&
        mid.uploads[k] == Upload(FinalClip, init[j].clock + skipNanos);
      assert init[..j] == evs[..j];
      assert evs[j] == init[j];
      assert r.uploads[k] == mid.uploads[k];
    } else {
      var j := |evs| - 1;
      assert evs[..j] == init;
      assert Fires(condition, eval, mid.table, evs[j]);
      assert r.uploads[k] == Upload(FinalClip, evs[j].clock + skipNanos);
    }
  }

  /**
   * Fail-closed: when the evaluator never yields true (it raises or answers
   * false), the run takes no sample, uploads nothing and sleeps on every message.
   */
  lemma {:induction false} FailClosedRun(condition: string, eval: Evaluator, skipNanos: int, st: EventRun, evs: seq<Event>)
    requires forall t :: eval(condition, t) != Some(true)
    ensures Run(condition, eval, skipNanos, st, evs).samples == st.samples
    ensures Run(condition, eval, skipNanos, st, evs).uploads == st.uploads
    ensures Run(condition, eval, skipNanos, st, evs).sleeps == st.sleeps + |evs|
    decreases |evs|
  {
    if evs != [] {
      FailClosedRun(condition, eval, skipNanos, st, evs[..|evs| - 1]);
    }
  }

  /** The table the event loop starts from: every extracted topic set to 0.0. */
  function InitialTable(topics: seq<string>): (m: map<string, real>)
    ensures m.Keys == set t | t in topics
    ensures forall t :: t in m ==> m[t] == 0.0
  {
    map t | t in topics :: 0.0
  }

  lemma InitialTableGrows(topics: seq<string>, k: nat)
    requires k < |topics|
    ensures InitialTable(topics[..k + 1]) == InitialTable(topics[..k])[topics[k] := 0.0]
  {
    assert topics[..k + 1] == topics[..k] + [topics[k]];
  }

  /**
   * The event loop of run_on_event as an object: the condition with dots
   * turned into underscores, the topic table, and logs of the subscriptions,
   * samples, uploads and sleeps it has made.
   */
  class EventSampler {
    const condition: string
    const eval: Evaluator
    const skipNanos: int
    var topics: map<string, real>
    var subscriptions: seq<string>
    var samples: nat
    var uploads: seq<Upload>
    var sleeps: nat

    function State(): EventRun
      reads this
    {
      EventRun(topics, samples, uploads, sleeps)
    }

    /**
     * Set-up: rewrite the condition, give every extracted topic the value 0.0
     * and subscribe once per occurrence, under the name with underscores turned
     * back into dots.
     */
    constructor (rawCondition: string, eval: Evaluator, skipNanos: int)
      ensures condition == TableKey(rawCondition)
      ensures this.eval == eval && this.skipNanos == skipNanos
      ensures topics == InitialTable(Topics(condition))
      ensures |subscriptions| == |Topics(condition)|
      ensures forall k :: 0 <= k < |subscriptions| ==> subscriptions[k] == BusTopic(Topics(condition)[k])
      ensures samples == 0 && uploads == [] && sleeps == 0
    {
      condition := TableKey(rawCondition);
      this.eval := eval;
      this.skipNanos := skipNanos;
      topics := map[];
      subscriptions := [];
      samples, uploads, sleeps := 0, [], 0;
      new;
      var names := ExtractTopics(condition);
      Subscribe(names);
    }

    /** The set-up loop: each name gets the value 0.0 and one subscription under its bus topic. */
    method Subscribe(names: seq<string>)
      requires topics == map[] && subscriptions == []
      modifies this`topics, this`subscriptions
      ensures topics == InitialTable(names)
      ensures |subscriptions| == |names|
      ensures forall k :: 0 <= k < |names| ==> subscriptions[k] == BusTopic(names[k])
    {
      for k := 0 to |names|
        invariant topics == InitialTable(names[..k])
        invariant |subscriptions| == k
        invariant forall j :: 0 <= j < k ==> subscriptions[j] == BusTopic(names[j])
      {
        InitialTableGrows(names, k);
        topics := topics[names[k] := 0.0];
        subscriptions := subscriptions + [BusTopic(names[k])];
      }
      assert names[..|names|] == names;
    }

    /** Receive one message: store it under its table key unless it is stale. */
    method Ingest(msg: Message, now: int)
      modifies this`topics
      ensures topics == Ingested(old(topics), msg, now)
    {
      if now - msg.timestamp <= StalenessNanos {
        topics := topics[TableKey(msg.name) := msg.value];
      }
    }

    /** Evaluate the condition, fail-closed: an evaluation that raises counts as false. */
    method Evaluate() returns (result: bool)
      ensures result <==> eval(condition, topics) == Some(true)
      ensures eval(condition, topics).None? ==> !result
    {
      result := false;
      var outcome := eval(condition, topics);
      if outcome.Some? {
        result := outcome.value;
      }
    }

    /** Forget every value after a sample: the table becomes empty, not zeroed. */
    method Reset()
      modifies this`topics
      ensures topics == map[]
    {
      topics := map[];
    }

    /** One iteration of the `while True` loop of run_on_event. */
    method Step(ev: Event)
      modifies this`topics, this`samples, this`uploads, this`sleeps
      ensures State() == StepRun(condition, eval, skipNanos, old(State()), ev)
    {
      Ingest(ev.msg, ev.now);
      var fired := Evaluate();
      if fired {
        var sample := TakeSample(ev.clock, skipNanos);
        samples := samples + 1;
        if !sample.success {
          // take_sample never reports failure, so the `return 1` branch is dead
          assert false;
        }
        uploads := uploads + [Upload(sample.file, sample.timestamp)];
        Reset();
      } else {
        sleeps := sleeps + 1;
      }
    }
  }

  /**
   * run_on_event over a finite sequence of messages: set up the table and the
   * subscriptions, then run one loop iteration per message.
   */
  method RunOnEvent(rawCondition: string, eval: Evaluator, skipNanos: int, evs: seq<Event>) returns (s: EventSampler)
    ensures fresh(s)
    ensures s.condition == TableKey(rawCondition)
    ensures s.State() == Run(s.condition, eval, skipNanos, EventRun(InitialTable(Topics(s.condition)), 0, [], 0), evs)
  {
    s := new EventSampler(rawCondition, eval, skipNanos);
    ghost var init := s.State();
    for k := 0 to |evs|
      invariant s.eval == eval && s.skipNanos == skipNanos
      invariant s.State() == Run(s.condition, eval, skipNanos, init, evs[..k])
    {
      assert evs[..k + 1][..k] == evs[..k];
      s.Step(evs[k]);
    }
    assert evs[..|evs|] == evs;
  }

  /**
   * run_periodically over one iteration per reading of the sample clock: every
   * iteration takes a sample and uploads it with that sample's timestamp, and
   * sleeps for the interval only when the interval is positive.
   */
  method RunPeriodically(clocks: seq<int>, skipNanos: int, interval: int) returns (uploads: seq<Upload>, sleeps: seq<int>)
    ensures |uploads| == |clocks|
    ensures forall k :: 0 <= k < |clocks| ==> uploads[k] == Upload(FinalClip, clocks[k] + skipNanos)
    ensures |sleeps| == (if interval > 0 then |clocks| else 0)
    ensures forall k :: 0 <= k < |sleeps| ==> sleeps[k] == interval
  {
    uploads, sleeps := [], [];
    var k := 0;
    while k < |clocks|
      invariant 0 <= k <= |clocks|
      invariant |uploads| == k
      invariant forall j :: 0 <= j < k ==> uploads[j] == Upload(FinalClip, clocks[j] + skipNanos)
      invariant |sleeps| == (if interval > 0 then k else 0)
      invariant forall j :: 0 <= j < |sleeps| ==> sleeps[j] == interval
    {
      var sample := TakeSample(clocks[k], skipNanos);
      if !sample.success {
        // take_sample never reports failure, so the `return 1` branch is dead
        assert false;
      }
      uploads := uploads + [Upload(sample.file, sample.timestamp)];
      if interval > 0 {
        sleeps := sleeps + [interval];
      }
      k := k + 1;
    }
  }

  /** A stand-in for evaluating `temp > 30`: raises (NameError) when `temp` is not in the table. */
  function TempAbove30(condition: string, table: map<string, real>): Option<bool>
  {
    if "temp" in table then Some(table["temp"] > 30.0) else None
  }

  /**
   * With condition `temp > 30`, feeding temp=20 and then temp=31 takes exactly
   * one sample, after the second message; after the reset a stale temp=40 does
   * not fire again, because the emptied table no longer holds temp.
   */
  lemma TempScenario(skipNanos: int)
    ensures var evs := [
        Event(Message("temp", 20.0, 1_000), 2_000, 10),
        Event(Message("temp", 31.0, 3_000), 4_000, 20),
        Event(Message("temp", 40.0, 0), 9_000_000_000, 30)];
      Run("temp > 30", TempAbove30, skipNanos, EventRun(InitialTable(["temp"]), 0, [], 0), evs)
        == EventRun(map[], 1, [Upload(FinalClip, 20 + skipNanos)], 2)
  {
    var evs := [
        Event(Message("temp", 20.0, 1_000), 2_000, 10),
        Event(Message("temp", 31.0, 3_000), 4_000, 20),
        Event(Message("temp", 40.0, 0), 9_000_000_000, 30)];
    var st0 := EventRun(InitialTable(["temp"]), 0, [], 0);
    assert "temp" == TableKey("temp");
    assert evs[..0] == [];
    assert evs[..1][..0] == [];
    assert evs[..2][..1] == evs[..1];
    assert evs[..3][..2] == evs[..2];
    assert evs[..3] == evs;
    assert Run("temp > 30", TempAbove30, skipNanos, st0, evs[..0]) == st0;
    assert InitialTable(["temp"]) == map["temp" := 0.0];
    assert Ingested(st0.table, evs[0].msg, evs[0].now) == map["temp" := 20.0];
    var st1 := Run("temp > 30", TempAbove30, skipNanos, st0, evs[..1]);
    assert st1 == EventRun(map["temp" := 20.0], 0, [], 1);
    var st2 := Run("temp > 30", TempAbove30, skipNanos, st0, evs[..2]);
    assert st2 == EventRun(map[], 1, [Upload(FinalClip, 20 + skipNanos)], 1);
  }
}
