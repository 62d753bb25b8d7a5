/** The streaming relay: a poll-driven loop that races an upstream against two deadlines. */
module Relay {
  import opened Collections
  import HeaderFilter

  // ---------------------------------------------------------------- the parties

  /** What the upstream's next item is, and when it becomes ready. After the last one it stays pending. */
  datatype Arrival = Arrival(at: nat, item: Item)
  datatype Item = Chunk(bytes: seq<int>) | Failure | End

  /** Where the relay's body is suspended between polls. */
  datatype Phase =
    | Starting                                                   // before an iteration
    | Waiting(started: nat, deadline: nat, total: bool)          // in the select
    | Failed                                                     // an error was yielded, the loop is about to break
    | Finished

  /** The relay has taken `taken` items; it owns the upstream unless it dropped it. */
  datatype Relay = Relay(phase: Phase, taken: nat, dropped: bool)

  datatype Event =
    | Yielded(at: nat, started: nat, bytes: seq<int>)
    | Dropped(at: nat)
    | TimedOut(at: nat, started: nat, total: bool)  // `total`: the request deadline, not the idle one
    | UpstreamFailed(at: nat)
    | Ended(at: nat)

  datatype Config = Config(idle: nat, request: Option<nat>)

  const FRESH := Relay(Starting, 0, false)

  /** The earlier of the two deadlines of an iteration that starts at `now`; the request's wins a tie. */
  function Arm(now: nat, config: Config): Phase {
    var idle := now + config.idle;
    if config.request.Some? && config.request.value <= idle then Waiting(now, config.request.value, true)
    else Waiting(now, idle, false)
  }

  /** One poll at time `now`. The deadline is looked at first, so it wins over a ready item. */
  function Poll(r: Relay, upstream: seq<Arrival>, config: Config, now: nat): (Relay, seq<Event>) {
    match r.phase
    case Finished => (r, [])
    case Failed => (r.(phase := Finished), [Ended(now)])
    case Starting => Select(r.(phase := Arm(now, config)), upstream, now)
    case Waiting(_, _, _) => Select(r, upstream, now)
  }

  function Select(r: Relay, upstream: seq<Arrival>, now: nat): (Relay, seq<Event>)
    requires r.phase.Waiting?
  {
    if now >= r.phase.deadline then
      (r.(phase := Failed, dropped := true), [Dropped(now), TimedOut(now, r.phase.started, r.phase.total)])
    else if r.taken >= |upstream| || upstream[r.taken].at > now then (r, [])
    else
      match upstream[r.taken].item
      case Chunk(bytes) => (r.(phase := Starting, taken := r.taken + 1), [Yielded(now, r.phase.started, bytes)])
      case Failure => (r.(phase := Failed, taken := r.taken + 1), [UpstreamFailed(now)])
      case End => (r.(phase := Finished, taken := r.taken + 1), [Ended(now)])
  }

  /** Polls at the given times. */
  function Run(upstream: seq<Arrival>, config: Config, polls: seq<nat>): (Relay, seq<Event>) {
    if polls == [] then (FRESH, [])
    else
      var n := |polls| - 1;
      var (r, events) := Run(upstream, config, polls[..n]);
      var (r', more) := Poll(r, upstream, config, polls[n]);
      (r', events + more)
  }

  /** The relay, polled in place. */
  class Stream {
    const upstream: seq<Arrival>
    const config: Config
    var state: Relay

    constructor (upstream: seq<Arrival>, config: Config)
      ensures this.upstream == upstream && this.config == config && state == FRESH
    {
      this.upstream := upstream;
      this.config := config;
      state := FRESH;
    }

    method PollNext(now: nat) returns (events: seq<Event>)
      modifies this
      ensures (state, events) == Poll(old(state), upstream, config, now)
    {
      match state.phase {
        case Finished => return [];
        case Failed =>
          state := state.(phase := Finished);
          return [Ended(now)];
        case Starting => state := state.(phase := Arm(now, config));
        case Waiting(_, _, _) =>
      }
      var wait := state.phase;
      if now >= wait.deadline {
        state := state.(phase := Failed, dropped := true);
        return [Dropped(now), TimedOut(now, wait.started, wait.total)];
      }
      if state.taken >= |upstream| || upstream[state.taken].at > now {
        return [];
      }
      var item := upstream[state.taken].item;
      state := state.(taken := state.taken + 1);
      match item
      case Chunk(bytes) =>
        state := state.(phase := Starting);
        return [Yielded(now, wait.started, bytes)];
      case Failure =>
        state := state.(phase := Failed);
        return [UpstreamFailed(now)];
      case End =>
        state := state.(phase := Finished);
        return [Ended(now)];
    }
  }

  // ---------------------------------------------------------------- what the consumer sees

  /** Chunks and errors, in the order they are yielded. */
  datatype Output = Data(bytes: seq<int>) | Error

  function Seen(events: seq<Event>): seq<Output> {
    if events == [] then []
    else
      var n := |events| - 1;
      Seen(events[..n]) +
      match events[n]
      case Yielded(_, _, bytes) => [Data(bytes)]
      case TimedOut(_, _, _) => [Error]
      case UpstreamFailed(_) => [Error]
      case _ => []
  }

  /** The first `k` items, which are chunks. */
  ghost predicate AllChunks(upstream: seq<Arrival>, k: nat) {
    k <= |upstream| && forall i :: 0 <= i < k ==> upstream[i].item.Chunk?
  }

  function Chunks(upstream: seq<Arrival>, k: nat): seq<Output>
    requires k <= |upstream| && forall i :: 0 <= i < k ==> upstream[i].item.Chunk?
  {
    seq(k, i requires 0 <= i < k => Data(upstream[i].item.bytes))
  }

  /** The output is a prefix of the upstream's chunks in order, then at most one error; and a
      stream that ends without an error has passed on everything before the upstream's end. */
  ghost predicate Faithful(upstream: seq<Arrival>, r: Relay, events: seq<Event>) {
    match r.phase
    case Starting => AllChunks(upstream, r.taken) && Seen(events) == Chunks(upstream, r.taken)
    case Waiting(_, _, _) => AllChunks(upstream, r.taken) && Seen(events) == Chunks(upstream, r.taken)
    case Failed => EndsInError(upstream, events)
    case Finished =>
      || EndsInError(upstream, events)
      || (r.taken > 0 && AllChunks(upstream, r.taken - 1) && r.taken <= |upstream|
          && upstream[r.taken - 1].item.End? && Seen(events) == Chunks(upstream, r.taken - 1))
  }

  ghost predicate EndsInError(upstream: seq<Arrival>, events: seq<Event>) {
    exists k :: AllChunks(upstream, k) && Seen(events) == Chunks(upstream, k) + [Error]
  }

  lemma {:induction false} SeenConcat(a: seq<Event>, b: seq<Event>)
    ensures Seen(a + b) == Seen(a) + Seen(b)
    decreases |b|
  {
    if b == [] {
      assert a + b == a;
    } else {
      assert (a + b)[..|a + b| - 1] == a + b[..|b| - 1];
      SeenConcat(a, b[..|b| - 1]);
    }
  }

  lemma {:induction false} SeenOne(e: Event)
    ensures Seen([e]) == match e
      case Yielded(_, _, bytes) => [Data(bytes)]
      case TimedOut(_, _, _) => [Error]
      case UpstreamFailed(_) => [Error]
      case _ => []
  {
    assert [e][..0] == [];
    assert Seen([]) == [];
  }

  lemma {:induction false} SeenTimeout(now: nat, started: nat, total: bool)
    ensures Seen([Dropped(now), TimedOut(now, started, total)]) == [Error]
  {
    SeenConcat([Dropped(now)], [TimedOut(now, started, total)]);
    SeenOne(Dropped(now));
    SeenOne(TimedOut(now, started, total));
    hide Seen;
    assert [Dropped(now)] + [TimedOut(now, started, total)] == [Dropped(now), TimedOut(now, started, total)];
  }

  /** For every upstream and every polling schedule. */
  lemma {:induction false} RelayIsFaithful(upstream: seq<Arrival>, config: Config, polls: seq<nat>)
    ensures var (r, events) := Run(upstream, config, polls); Faithful(upstream, r, events)
  {
    if polls != [] {
      var n := |polls| - 1;
      RelayIsFaithful(upstream, config, polls[..n]);
      var (r, events) := Run(upstream, config, polls[..n]);
      PollIsFaithful(upstream, config, r, events, polls[n]);
    } else {
      assert Chunks(upstream, 0) == [];
    }
  }

  lemma {:induction false} PollIsFaithful(upstream: seq<Arrival>, config: Config, r: Relay, events: seq<Event>, now: nat)
    requires Faithful(upstream, r, events)
    ensures var (r', more) := Poll(r, upstream, config, now); Faithful(upstream, r', events + more)
  {
    hide Seen, Chunks;
    match r.phase
    case Finished => assert events + [] == events;
    case Failed =>
      SeenConcat(events, [Ended(now)]);
      SeenOne(Ended(now));
      assert Seen(events) + [] == Seen(events);
    case _ =>
      var r1 := if r.phase.Starting? then r.(phase := Arm(now, config)) else r;
      SelectIsFaithful(upstream, r1, events, now);
  }

  lemma {:induction false} SelectIsFaithful(upstream: seq<Arrival>, r: Relay, events: seq<Event>, now: nat)
    requires r.phase.Waiting? && Faithful(upstream, r, events)
    ensures var (r', more) := Select(r, upstream, now); Faithful(upstream, r', events + more)
  {
    hide Seen;
    var (r', more) := Select(r, upstream, now);
    SeenConcat(events, more);
    if now >= r.phase.deadline {
      SeenTimeout(now, r.phase.started, r.phase.total);
      assert AllChunks(upstream, r.taken) && Seen(events + more) == Chunks(upstream, r.taken) + [Error];
    } else if more == [] {
      assert events + [] == events;
    } else {
      SeenOne(more[0]);
      assert more == [more[0]];
      if upstream[r.taken].item.Chunk? {
        assert Chunks(upstream, r.taken + 1) == Chunks(upstream, r.taken) + [Data(upstream[r.taken].item.bytes)];
      } else if upstream[r.taken].item.Failure? {
        assert Seen(events + more) == Chunks(upstream, r.taken) + [Error];
      } else {
        assert Seen(events) + [] == Seen(events);
      }
    }
  }

  // ---------------------------------------------------------------- deadlines

  /** The chunk was obtained strictly before both deadlines of its iteration; the timeout that
      fired is the earlier one, it had passed, and the upstream was dropped just before. */
  ghost predicate TimelyAt(config: Config, events: seq<Event>, i: nat)
    requires i < |events|
  {
    match events[i]
    case Yielded(at, started, _) => at < started + config.idle && (config.request.Some? ==> at < config.request.value)
    case TimedOut(at, started, total) =>
      && i > 0 && events[i - 1] == Dropped(at)
      && (total ==> config.request.Some? && config.request.value <= started + config.idle && config.request.value <= at)
      && (!total ==> started + config.idle <= at && (config.request.Some? ==> started + config.idle < config.request.value))
    case Dropped(at) => i + 1 < |events| && events[i + 1].TimedOut? && events[i + 1].at == at
    case _ => true
  }

  ghost predicate Timely(config: Config, events: seq<Event>) {
    forall i :: 0 <= i < |events| ==> TimelyAt(config, events, i)
  }

  /** While it waits, the relay holds the deadline that it armed when the iteration started. */
  predicate Armed(config: Config, r: Relay) {
    r.phase.Waiting? ==> r.phase == Arm(r.phase.started, config)
  }

  /** For every upstream and every polling schedule. */
  lemma {:induction false} RelayIsTimely(upstream: seq<Arrival>, config: Config, polls: seq<nat>)
    ensures var (r, events) := Run(upstream, config, polls); Armed(config, r) && Timely(config, events)
  {
    if polls != [] {
      var n := |polls| - 1;
      RelayIsTimely(upstream, config, polls[..n]);
      var (r, events) := Run(upstream, config, polls[..n]);
      var (r', more) := Poll(r, upstream, config, polls[n]);
      PollIsTimely(upstream, config, r, polls[n]);
      TimelyConcat(config, events, more);
    }
  }

  lemma {:induction false} PollIsTimely(upstream: seq<Arrival>, config: Config, r: Relay, now: nat)
    requires Armed(config, r)
    ensures var (r', more) := Poll(r, upstream, config, now); Armed(config, r') && Timely(config, more)
  {
  }

  lemma {:induction false} TimelyConcat(config: Config, a: seq<Event>, b: seq<Event>)
    requires Timely(config, a) && Timely(config, b)
    ensures Timely(config, a + b)
  {
    forall i | 0 <= i < |a + b| ensures TimelyAt(config, a + b, i) {
      if i < |a| { assert TimelyAt(config, a, i); } else { assert TimelyAt(config, b, i - |a|); }
    }
  }

  // ---------------------------------------------------------------- what every poll emits

  /** What the poll at `now` emits after polls at the given times. */
  function Emits(upstream: seq<Arrival>, config: Config, polls: seq<nat>, now: nat): seq<Event> {
    Poll(Run(upstream, config, polls).0, upstream, config, now).1
  }

  /** The time of the first poll after the last chunk, or of the first poll, when the next poll is at `now`. */
  function Started(upstream: seq<Arrival>, config: Config, polls: seq<nat>, now: nat): nat {
    if polls == [] then now
    else
      var (before, last) := (polls[..|polls| - 1], polls[|polls| - 1]);
      if Emits(upstream, config, before, last) != [] then now else Started(upstream, config, before, last)
  }

  /** Neither an error nor the end was emitted. */
  predicate Open(events: seq<Event>) { forall i :: 0 <= i < |events| ==> events[i].Yielded? }

  /** What an item of the upstream becomes. */
  function Passed(item: Item, now: nat, started: nat): Event {
    match item
    case Chunk(bytes) => Yielded(now, started, bytes)
    case Failure => UpstreamFailed(now)
    case End => Ended(now)
  }

  /** A stream that is open has taken one item for each chunk, and waits since `started`. */
  ghost predicate OpenState(r: Relay, events: seq<Event>, config: Config, started: nat) {
    && r.taken == |events|
    && (r.phase.Starting? || r.phase == Arm(started, config))
  }

  lemma {:induction false} OpenPrefix(a: seq<Event>, b: seq<Event>)
    requires Open(a + b)
    ensures Open(a) && Open(b)
  {
    forall i | 0 <= i < |a| ensures a[i].Yielded? { assert (a + b)[i] == a[i]; }
    forall i | 0 <= i < |b| ensures b[i].Yielded? { assert (a + b)[|a| + i] == b[i]; }
  }

  lemma {:induction false} OpenMeans(upstream: seq<Arrival>, config: Config, polls: seq<nat>, now: nat)
    requires Open(Run(upstream, config, polls).1)
    ensures var (r, events) := Run(upstream, config, polls);
            && OpenState(r, events, config, Started(upstream, config, polls, now))
            && (r.phase.Starting? ==> Started(upstream, config, polls, now) == now)
  {
    if polls != [] {
      var (before, last) := (polls[..|polls| - 1], polls[|polls| - 1]);
      var (r, events) := Run(upstream, config, before);
      OpenPrefix(events, Emits(upstream, config, before, last));
      OpenMeans(upstream, config, before, last);
      OpenPoll(r, events, upstream, config, Started(upstream, config, before, last), last);
    }
  }

  lemma {:induction false} OpenPoll(r: Relay, events: seq<Event>, upstream: seq<Arrival>, config: Config, started: nat, now: nat)
    requires OpenState(r, events, config, started) && (r.phase.Starting? ==> started == now)
    requires Open(Poll(r, upstream, config, now).1)
    ensures var (r', more) := Poll(r, upstream, config, now);
            OpenState(r', events + more, config, started) && (r'.phase.Starting? <==> more != [])
  {
    var more := Poll(r, upstream, config, now).1;
    assert more != [] ==> more[0].Yielded?;
  }

  /** For every upstream, every polling schedule and its next poll: a stream that is open times out exactly when one of the two
      deadlines has passed, and otherwise passes on the next item exactly when it is ready. */
  lemma {:induction false} RelayProgresses(upstream: seq<Arrival>, config: Config, polls: seq<nat>, now: nat)
    requires Open(Run(upstream, config, polls).1)
    ensures var (k, started) := (|Run(upstream, config, polls).1|, Started(upstream, config, polls, now));
            var request := if config.request.Some? then config.request.value else started + config.idle + 1;
            Emits(upstream, config, polls, now) ==
            if started + config.idle <= now || request <= now
            then [Dropped(now), TimedOut(now, started, request <= started + config.idle)]
            else if k < |upstream| && upstream[k].at <= now then [Passed(upstream[k].item, now, started)]
            else []
  {
    hide Run, Started;
    OpenMeans(upstream, config, polls, now);
  }

  /** The upstream is let go of exactly when that was announced. */
  lemma {:induction false} DroppedIff(upstream: seq<Arrival>, config: Config, polls: seq<nat>)
    ensures var (r, events) := Run(upstream, config, polls);
            r.dropped <==> exists i :: 0 <= i < |events| && events[i].Dropped?
  {
    if polls != [] {
      var (before, last) := (polls[..|polls| - 1], polls[|polls| - 1]);
      DroppedIff(upstream, config, before);
      var (events, more) := (Run(upstream, config, before).1, Emits(upstream, config, before, last));
      if i :| 0 <= i < |events| && events[i].Dropped? {
        assert (events + more)[i] == events[i];
      }
      if |more| == 2 {
        assert (events + more)[|events|] == more[0];
      }
      assert forall i :: 0 <= i < |events + more| ==> (events + more)[i] == if i < |events| then events[i] else more[i - |events|];
    }
  }

  /** After an error the next poll ends the stream, and after its end nothing is emitted. */
  lemma {:induction false} RelayStops(upstream: seq<Arrival>, config: Config, polls: seq<nat>, now: nat)
    requires !Open(Run(upstream, config, polls).1)
    ensures var events := Run(upstream, config, polls).1;
            var last := events[|events| - 1];
            && (last.Ended? || last.TimedOut? || last.UpstreamFailed?)
            && Emits(upstream, config, polls, now) == if last.Ended? then [] else [Ended(now)]
  {
    ClosedMeans(upstream, config, polls);
  }

  lemma {:induction false} ClosedMeans(upstream: seq<Arrival>, config: Config, polls: seq<nat>)
    ensures var (r, events) := Run(upstream, config, polls);
            if Open(events) then r.phase.Starting? || r.phase.Waiting?
            else if events[|events| - 1].Ended? then r.phase.Finished?
            else r.phase.Failed? && (events[|events| - 1].TimedOut? || events[|events| - 1].UpstreamFailed?)
  {
    if polls != [] {
      var (before, last) := (polls[..|polls| - 1], polls[|polls| - 1]);
      ClosedMeans(upstream, config, before);
      var (events, more) := (Run(upstream, config, before).1, Emits(upstream, config, before, last));
      if Open(events + more) {
        OpenPrefix(events, more);
        assert more != [] ==> more[0].Yielded?;
      } else if more == [] {
        assert events + more == events;
      } else if Open(events) {
        assert !more[0].Yielded?;
      }
    }
  }

  // ---------------------------------------------------------------- one request

  /** The deadline of the whole request applies to the body unless it is an event stream. */
  function BodyConfig(start: nat, timeout: nat, idle: nat, headers: HeaderFilter.Headers): Config {
    Config(idle, if HeaderFilter.IsEventStream(headers) then None else Some(start + timeout))
  }

  /** An ordinary response obtains no chunk once its request is out of time, however late the
      consumer resumes; an event stream is never cut off by the request deadline. */
  lemma {:induction false} RequestDeadlineCoversBody(upstream: seq<Arrival>, start: nat, timeout: nat, idle: nat,
                                                     headers: HeaderFilter.Headers, polls: seq<nat>)
    ensures var (_, events) := Run(upstream, BodyConfig(start, timeout, idle, headers), polls);
            forall i :: 0 <= i < |events| ==>
              && (events[i].Yielded? && !HeaderFilter.IsEventStream(headers) ==> events[i].at < start + timeout)
              && (events[i].TimedOut? && HeaderFilter.IsEventStream(headers) ==> !events[i].total)
  {
    hide HeaderFilter.IsEventStream;
    var eventStream := HeaderFilter.IsEventStream(headers);
    var config := BodyConfig(start, timeout, idle, headers);
    RelayIsTimely(upstream, config, polls);
    var (_, events) := Run(upstream, config, polls);
    forall i | 0 <= i < |events|
      ensures events[i].Yielded? && !eventStream ==> events[i].at < start + timeout
      ensures events[i].TimedOut? && eventStream ==> !events[i].total
    {
      assert TimelyAt(config, events, i);
    }
  }

  /** Over every run and its next poll, an open stream times out exactly when it has waited for the idle time since its last
      chunk or, unless it is an event stream, when the timeout has passed since the request started. */
  lemma {:induction false} BodyTimesOutIff(upstream: seq<Arrival>, start: nat, timeout: nat, idle: nat, headers: HeaderFilter.Headers,
                                           polls: seq<nat>, now: nat)
    requires Open(Run(upstream, BodyConfig(start, timeout, idle, headers), polls).1)
    ensures var config := BodyConfig(start, timeout, idle, headers);
            (exists e :: e in Emits(upstream, config, polls, now) && e.TimedOut?) <==>
            Started(upstream, config, polls, now) + idle <= now || (!HeaderFilter.IsEventStream(headers) && start + timeout <= now)
  {
    hide HeaderFilter.IsEventStream, Run, Started, Emits;
    var config := BodyConfig(start, timeout, idle, headers);
    RelayProgresses(upstream, config, polls, now);
    var emitted := Emits(upstream, config, polls, now);
    if |emitted| == 2 {
      assert emitted[1].TimedOut?;
    }
  }
}
