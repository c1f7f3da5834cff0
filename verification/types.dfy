/**
 The data model of the heartbeat input: the settings it is configured with,
 the settings `register` resolves them into, and the events it emits.
 */
module HeartbeatTypes {

  /** A value that may be absent; Ruby's `nil` is `None`. */
  datatype Option<+T> = None | Some(value: T) {
    function GetOr(default: T): T {
      match this
      case Some(v) => v
      case None => default
    }
  }

  /** The kind of auxiliary numeric field attached to each event: the
      `none`, `epoch` and `sequence` values of the `sequence` option. */
  datatype Selector = NoField | Epoch | Sequence

  /** The spelling of each selector in configuration. */
  function SelectorName(k: Selector): string {
    match k
    case NoField => "none"
    case Epoch => "epoch"
    case Sequence => "sequence"
  }

  /** Reads a configuration spelling back into a selector (`to_sym`). */
  function ParseSelector(name: string): (r: Option<Selector>)
    ensures r.Some? ==> SelectorName(r.value) == name
  {
    if name == "none" then Some(NoField)
    else if name == "epoch" then Some(Epoch)
    else if name == "sequence" then Some(Sequence)
    else None
  }

  /** Parsing a selector's spelling gives the selector back, and only the
      three spellings parse. */
  lemma SelectorNameRoundTrip(k: Selector, name: string)
    ensures ParseSelector(SelectorName(k)) == Some(k)
    ensures ParseSelector(name).Some? <==> name in {"none", "epoch", "sequence"}
  {
  }

  /** The ECS compatibility modes the plugin supports; `V8` is an alias of `V1`. */
  datatype Ecs = Disabled | V1 | V8

  const HostField: string := "host"
  const MessageField: string := "message"
  const ClockField: string := "clock"
  const EcsSequenceField: string := "[event][sequence]"

  /** The name of the sequence field: `clock` without ECS, the nested
      `[event][sequence]` reference under ECS (v8 selects as v1). The
      reference is kept as one opaque key. */
  function SequenceField(ecs: Ecs): (f: string)
    ensures f != HostField && f != MessageField
  {
    match ecs
    case Disabled => ClockField
    case V1 => EcsSequenceField
    case V8 => EcsSequenceField
  }

  /** Without ECS the sequence field is `clock`; v1 and v8 both name it
      `[event][sequence]`. The host field is `host` in every mode. */
  lemma SequenceFieldNaming()
    ensures SequenceField(Disabled) == "clock"
    ensures SequenceField(V1) == SequenceField(V8) == "[event][sequence]"
  {
  }

  /** A field value of an event. */
  datatype Value = Null | Str(s: string) | Int(i: int)

  /** An event is a mapping from field name to value. */
  type Event = map<string, Value>

  /** The value an optional message takes as an event field. */
  function MessageValue(m: Option<string>): Value {
    match m
    case Some(t) => Str(t)
    case None => Null
  }

  /** What `register` settles once at startup: the selector, the message
      (absent once a magic message has been consumed), the ECS mode that
      names the sequence field, and the host name. */
  datatype Settings = Settings(selector: Selector, message: Option<string>, ecs: Ecs, host: string)

  /** The shape every registered configuration has: a configuration that
      emits no sequence field still has a message to emit. */
  predicate WellFormed(s: Settings) {
    s.selector == NoField ==> s.message.Some?
  }
}
