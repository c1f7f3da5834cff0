/**
 The message builder (`generate_message`): a pure function from the
 registered settings, the tick's counter and the clock's whole seconds to
 one event.
 */
module Builder {
  import opened HeartbeatTypes
  import opened Registration

  /** Builds the event of one tick. Without a sequence field the event is
      the message and the host; otherwise it is the host, the sequence
      field and, when one is left, the message. */
  function GenerateMessage(s: Settings, counter: int, epochSeconds: int): (e: Event)
    ensures HostField in e && e[HostField] == Str(s.host)
    ensures s.selector == NoField ==>
              e.Keys == {MessageField, HostField} && e[MessageField] == MessageValue(s.message)
    ensures s.selector != NoField ==>
              && SequenceField(s.ecs) in e
              && e[SequenceField(s.ecs)] == Int(if s.selector == Epoch then epochSeconds else counter)
              && (MessageField in e <==> s.message.Some?)
              && (s.message.Some? ==> e[MessageField] == Str(s.message.value))
              && e.Keys <= {HostField, MessageField, SequenceField(s.ecs)}
  {
    if s.selector == NoField then
      map[MessageField := MessageValue(s.message), HostField := Str(s.host)]
    else
      var value := if s.selector == Epoch then epochSeconds else counter;
      var evt := map[HostField := Str(s.host)][SequenceField(s.ecs) := Int(value)];
      if s.message.Some? then evt[MessageField := Str(s.message.value)] else evt
  }

  /** With the default configuration the event is exactly
      `{message: "ok", host: <hostname>}` in every ECS mode. */
  lemma DefaultEvent(ecs: Ecs, hostname: string, counter: int, epochSeconds: int)
    ensures GenerateMessage(Register("ok", None, ecs, hostname), counter, epochSeconds)
         == map[MessageField := Str("ok"), HostField := Str(hostname)]
  {
  }

  /** When no sequence field is selected, the message is emitted unmodified
      beside the host, and nothing else is. */
  lemma NoFieldEchoesMessage(message: string, sequence: Option<Selector>, ecs: Ecs, hostname: string,
                             counter: int, epochSeconds: int)
    requires Register(message, sequence, ecs, hostname).selector == NoField
    ensures GenerateMessage(Register(message, sequence, ecs, hostname), counter, epochSeconds)
         == map[MessageField := Str(message), HostField := Str(hostname)]
  {
  }

  /** A registered configuration never emits a null message: every event
      carries the host and either a text message or a sequence value. */
  lemma RegisteredEventsHavePayload(message: string, sequence: Option<Selector>, ecs: Ecs, hostname: string,
                                    counter: int, epochSeconds: int)
    ensures var e := GenerateMessage(Register(message, sequence, ecs, hostname), counter, epochSeconds);
            && HostField in e
            && (MessageField in e ==> e[MessageField].Str?)
            && (MessageField in e || SequenceField(ecs) in e)
  {
  }

  /** The legacy magic message produces the same event as the explicit
      option, except that the explicit option also emits its message. */
  lemma MagicMessageMatchesOption(k: Selector, message: string, hostname: string, counter: int, epochSeconds: int)
    requires k != NoField
    ensures GenerateMessage(Register(SelectorName(k), None, Disabled, hostname), counter, epochSeconds)
         == GenerateMessage(Register(message, Some(k), Disabled, hostname), counter, epochSeconds) - {MessageField}
  {
  }

  /** An explicit option keeps even a magic message as literal text: with
      `sequence => epoch` and `message => "sequence"` the event carries
      `message: "sequence"` beside the epoch seconds. */
  lemma ExplicitOptionKeepsMagicMessage(ecs: Ecs, hostname: string, counter: int, epochSeconds: int)
    ensures var e := GenerateMessage(Register("sequence", Some(Epoch), ecs, hostname), counter, epochSeconds);
            && MessageField in e && e[MessageField] == Str("sequence")
            && e[SequenceField(ecs)] == Int(epochSeconds)
  {
  }

  /** The events of ticks 1..n in order, each built with its own counter and
      the clock reading `epoch(k)` taken during tick k. */
  function Trace(s: Settings, n: nat, epoch: nat -> int): (t: seq<Event>)
    ensures |t| == n
  {
    if n == 0 then [] else Trace(s, n - 1, epoch) + [GenerateMessage(s, n, epoch(n))]
  }

  /** The k-th event of a trace (1-based) is built with counter k. */
  lemma {:induction false} TraceAt(s: Settings, n: nat, epoch: nat -> int, k: nat)
    requires 1 <= k <= n
    ensures Trace(s, n, epoch)[k - 1] == GenerateMessage(s, k, epoch(k))
    decreases n
  {
    if k < n {
      TraceAt(s, n - 1, epoch, k);
      assert Trace(s, n, epoch)[k - 1] == Trace(s, n - 1, epoch)[k - 1];
    }
  }

  /** A shorter trace is a prefix of a longer one: ticks never rewrite
      events already built. */
  lemma {:induction false} TracePrefix(s: Settings, m: nat, n: nat, epoch: nat -> int)
    requires m <= n
    ensures Trace(s, n, epoch)[..m] == Trace(s, m, epoch)
    decreases n
  {
    if m < n {
      TracePrefix(s, m, n - 1, epoch);
      assert Trace(s, n, epoch)[..n - 1] == Trace(s, n - 1, epoch);
    }
  }

  /** In `sequence` mode the k-th event carries the value k, so the values
      run 1, 2, 3, ... in push order and strictly increase. */
  lemma {:induction false} SequenceModeCountsTicks(s: Settings, n: nat, epoch: nat -> int)
    requires s.selector == Sequence
    ensures forall k :: 0 <= k < n ==>
              SequenceField(s.ecs) in Trace(s, n, epoch)[k] && Trace(s, n, epoch)[k][SequenceField(s.ecs)] == Int(k + 1)
    ensures forall i, j :: 0 <= i < j < n ==>
              && SequenceField(s.ecs) in Trace(s, n, epoch)[i]
              && SequenceField(s.ecs) in Trace(s, n, epoch)[j]
              && Trace(s, n, epoch)[i][SequenceField(s.ecs)].i < Trace(s, n, epoch)[j][SequenceField(s.ecs)].i
  {
    forall k | 0 <= k < n
      ensures SequenceField(s.ecs) in Trace(s, n, epoch)[k] && Trace(s, n, epoch)[k][SequenceField(s.ecs)] == Int(k + 1)
    {
      TraceAt(s, n, epoch, k + 1);
    }
  }

  /** In `epoch` mode the k-th event carries the clock reading of tick k. */
  lemma {:induction false} EpochModeReadsClock(s: Settings, n: nat, epoch: nat -> int)
    requires s.selector == Epoch
    ensures forall k :: 0 <= k < n ==>
              SequenceField(s.ecs) in Trace(s, n, epoch)[k] && Trace(s, n, epoch)[k][SequenceField(s.ecs)] == Int(epoch(k + 1))
  {
    forall k | 0 <= k < n
      ensures SequenceField(s.ecs) in Trace(s, n, epoch)[k] && Trace(s, n, epoch)[k][SequenceField(s.ecs)] == Int(epoch(k + 1))
    {
      TraceAt(s, n, epoch, k + 1);
    }
  }
}
