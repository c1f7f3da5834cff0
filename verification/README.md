# Heartbeat input — a Dafny model

This project models the `heartbeat` input of Logstash (`LogStash::Inputs::Heartbeat`). The input emits a synthetic event at a fixed interval, so that a pipeline's throughput and liveness can be watched. The model has three parts, which follow the plugin's three methods, plus a shared data model:

- `types.dfy` (module `HeartbeatTypes`): the data model. It holds the sequence selector (`none`, `epoch`, `sequence`), the ECS compatibility mode (`disabled`, `v1`, `v8`), the resolved `Settings` record, and events as maps from field name to value.
- `registration.dfy` (module `Registration`): `register`. It resolves the `message` and `sequence` options and the ECS mode into one immutable `Settings` value. This is where the legacy "magic message" is intercepted: a `message` of `epoch` or `sequence` selects the mode and is consumed.
- `builder.dfy` (module `Builder`): `generate_message`. It is a pure function from the settings, the tick counter and the clock's whole seconds to one event. `Trace` is the reference sequence of events for ticks 1..n.
- `scheduler.dfy` (module `Scheduler`): `run`. This is the tick loop. It checks stop, pre-increments the counter, builds and pushes an event, and ends on the count or on stop. Otherwise it picks the remaining sleep.

The outside world enters only as parameters:

- The host name comes from `Socket.gethostname` and is an argument of `Register`.
- The clock is an oracle `epoch(k)`: the whole seconds read while building tick k.
- The tick duration is an oracle `elapsed(k)`, in milliseconds.
- The stop signal is a latch, first seen at stop check number `stopAt`. Stop checks are counted in the order the loop runs them: the check before each tick (line 77) and the check after each push (line 84). A stop that arrives during a sleep ends the sleep early. The next check before a tick then sees it, so such polls do not affect which events are pushed.
- The queue is a `seq<Event>` that the loop appends to.

Where the code and its comments or tests disagree, the model follows the code:

- The counter starts at 1, not at 0. The doc comments at `lib/logstash/inputs/heartbeat.rb:29-31` and `:51-52` say 0, but line 80 increments before the first build.
- With `sequence => epoch` and `message => "sequence"` under ECS v1, the code emits `message: "sequence"`. The test at `spec/inputs/heartbeat_spec.rb:69` expects no message field. `Builder.ExplicitOptionKeepsMagicMessage` states the code's behaviour.
- The host field is `host` in both ECS modes. A nested `[host][name]` field is never used.
- Setting `message => "sequence"` with `sequence` unset is not the same as setting `sequence => "sequence"` with `message` unset. An unset `message` defaults to `"ok"`, and that text is then emitted. With ECS disabled, `Builder.MagicMessageMatchesOption` proves the two events are equal once the `message` field is removed. Under ECS v1 or v8 the magic word is never intercepted: it is plain message text and no sequence field is emitted (`Registration.EcsNeverIntercepts`, `Builder.NoFieldEchoesMessage`).

## Model

| member | source | states |
|---|---|---|
| HeartbeatTypes.ParseSelector | lib/logstash/inputs/heartbeat.rb:55 | a configuration word parses to a selector only when it is that selector's own spelling |
| HeartbeatTypes.SelectorNameRoundTrip | lib/logstash/inputs/heartbeat.rb:66-71 | each selector's spelling parses back to that selector, and only `none`, `epoch` and `sequence` parse |
| HeartbeatTypes.SequenceField | lib/logstash/inputs/heartbeat.rb:59 | the sequence field never collides with the `host` or `message` field |
| HeartbeatTypes.SequenceFieldNaming | lib/logstash/inputs/heartbeat.rb:17 | the sequence field is `clock` with ECS disabled; v8 is treated as v1, and both give `[event][sequence]` |
| Registration.Register | lib/logstash/inputs/heartbeat.rb:57-72 | an explicit `sequence` option wins and keeps the message; a magic message with ECS disabled and no option becomes the selector and is consumed; otherwise no sequence field is selected and the message is kept; a mode with no sequence field always keeps a message |
| Registration.MessageConsumedIffIntercepted | lib/logstash/inputs/heartbeat.rb:63-68 | the message becomes nil exactly when the interception fires; with the option unset, a sequence field is selected exactly then |
| Registration.EcsNeverIntercepts | lib/logstash/inputs/heartbeat.rb:63-71 | under ECS v1 or v8 the message is always kept, and an unset option resolves to `none` |
| Builder.GenerateMessage | lib/logstash/inputs/heartbeat.rb:91-101 | every event has `host`; in `none` mode the event is exactly message plus host; in the other modes it has the sequence field (the counter in `sequence` mode, the clock seconds in `epoch` mode), has a message exactly when one is left, and has no other fields |
| Builder.DefaultEvent | lib/logstash/inputs/heartbeat.rb:35 | with the default configuration the event is exactly `{message: "ok", host: <hostname>}` in every ECS mode |
| Builder.NoFieldEchoesMessage | lib/logstash/inputs/heartbeat.rb:92-94 | when registration selects no sequence field, the configured message is emitted unmodified beside the host |
| Builder.RegisteredEventsHavePayload | lib/logstash/inputs/heartbeat.rb:92-99 | an event built from registered settings never carries a nil message, and it always has a message or a sequence value |
| Builder.MagicMessageMatchesOption | lib/logstash/inputs/heartbeat.rb:63-99 | with ECS disabled, the legacy magic message gives the same event as the explicit option, except for the explicit option's `message` field |
| Builder.ExplicitOptionKeepsMagicMessage | lib/logstash/inputs/heartbeat.rb:96-99 | with `sequence => epoch` and `message => "sequence"` the event carries the literal message `sequence` and the clock seconds |
| Builder.Trace | lib/logstash/inputs/heartbeat.rb:77-83 | the trace of n ticks has exactly n events, one per tick |
| Builder.TraceAt | lib/logstash/inputs/heartbeat.rb:80-81 | the k-th event of a trace (1-based) is built with counter k and the clock reading of tick k |
| Builder.TracePrefix | lib/logstash/inputs/heartbeat.rb:83 | later ticks never rewrite earlier events: a shorter trace is a prefix of a longer one |
| Builder.SequenceModeCountsTicks | lib/logstash/inputs/heartbeat.rb:80-98 | in `sequence` mode the k-th event's sequence value is k, so the values are 1, 2, 3, … and strictly increase in push order |
| Builder.EpochModeReadsClock | lib/logstash/inputs/heartbeat.rb:96-98 | in `epoch` mode the k-th event's sequence value is the clock reading of tick k |
| Scheduler.EarlierStopPushesPrefix | lib/logstash/inputs/heartbeat.rb:77-84 | a run whose stop is seen at an earlier check pushes no more events than one stopped later, and its events are a prefix of the later run's |
| Scheduler.SleepFor | lib/logstash/inputs/heartbeat.rb:86-87 | the loop sleeps exactly when the tick took less than the interval, so the next tick starts max(interval, elapsed) after this one started |
| Scheduler.Run | lib/logstash/inputs/heartbeat.rb:74-89 | the loop only appends to the queue, and what it appends is the trace of ticks 1..n in order. A stop before the start pushes nothing. A count N ≥ 1 pushes exactly N events unless stop comes first. Any other count never ends the loop, so only stop does. There is one sleep decision for every tick except the last, which has none when the loop left through the count or the check after a push |

## Left out

- `Socket.gethostname`, `Time.now` and the elapsed-time measurement are not modelled as calls. The host name, the whole-seconds clock and the tick durations are parameters.
- `Stud.stoppable_sleep`: the sleep and its early wake-up are thread timing. Only the decision (`SleepFor`) is modelled. A stop seen during a sleep counts as seen by the next check before a tick.
- The stop signal is modelled as a latch that is eventually seen (`stopAt`). A run that is never stopped with `count < 1` does not terminate. The model covers it only through the statement that such a loop pushes one event per two stop checks, for any number of checks.
- Scheduler.Run: `count` and `interval` are integers; the interval and tick durations are whole milliseconds. Ruby accepts fractional numbers. A fractional `count` never equals the counter, so it behaves like any count below 1, which the model does not state for non-integers.
- Logging: the warning at line 61, the debug line at 65 and the deprecation notice at 67 only write to the log. They do not change the settings or the events.
- `decorate` and the queue's back-pressure belong to the host pipeline. The model treats decoration as a pass-through.
- The fields `LogStash::Event` adds by itself (`@timestamp`, `@version`) are not modelled. An event holds only the fields this plugin sets. `[event][sequence]` is one opaque key; field-reference parsing into nested maps is not modelled.
- Configuration-schema validation of the `sequence` option and `config_name`/codec defaults are framework plumbing. The `sequence` option enters already parsed as an optional selector.
- The interruptible-input shared test and the wall-clock tolerance checks of the epoch tests are about threads and real time.
