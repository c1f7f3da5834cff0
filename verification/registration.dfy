/**
 Configuration resolution (`register`): settles the selector, the message and
 the sequence field name once, before any event is built.
 */
module Registration {
  import opened HeartbeatTypes

  /** The two legacy values of `message` that also select a sequence kind. */
  predicate IsMagic(message: string) {
    message == "epoch" || message == "sequence"
  }

  /** True when the legacy interception applies: ECS is disabled, the
      `sequence` option is unset and the message is a magic value. */
  predicate Intercepts(message: string, sequence: Option<Selector>, ecs: Ecs) {
    ecs == Disabled && sequence.None? && IsMagic(message)
  }

  /** Resolves `message`, the optional `sequence` option and the ECS mode,
      with the host name looked up at startup passed in. */
  function Register(message: string, sequence: Option<Selector>, ecs: Ecs, hostname: string): (s: Settings)
    ensures WellFormed(s)
    ensures s.host == hostname && s.ecs == ecs
    // an explicit sequence option always wins and the message is kept verbatim
    ensures sequence.Some? ==> s.selector == sequence.value && s.message == Some(message)
    // the magic message becomes the selector and is consumed
    ensures Intercepts(message, sequence, ecs) ==>
              s.message == None && s.selector != NoField && SelectorName(s.selector) == message
    // otherwise an unset option means no sequence field
    ensures sequence.None? && !Intercepts(message, sequence, ecs) ==>
              s.selector == NoField && s.message == Some(message)
  {
    if Intercepts(message, sequence, ecs) then
      var k := ParseSelector(message);
      assert k.Some?;
      Settings(k.value, None, ecs, hostname)
    else
      Settings(sequence.GetOr(NoField), Some(message), ecs, hostname)
  }

  /** The message is consumed exactly when the interception fires, and
      the interception is the only way an unset option gets a sequence field. */
  lemma MessageConsumedIffIntercepted(message: string, sequence: Option<Selector>, ecs: Ecs, hostname: string)
    ensures Register(message, sequence, ecs, hostname).message.None? <==> Intercepts(message, sequence, ecs)
    ensures sequence.None? ==>
              (Register(message, sequence, ecs, hostname).selector != NoField <==> Intercepts(message, sequence, ecs))
  {
  }

  /** Under ECS (v1 or v8) nothing is ever intercepted: the message is kept
      and an unset option resolves to no sequence field. */
  lemma EcsNeverIntercepts(message: string, sequence: Option<Selector>, ecs: Ecs, hostname: string)
    requires ecs != Disabled
    ensures Register(message, sequence, ecs, hostname).message == Some(message)
    ensures Register(message, sequence, ecs, hostname).selector == sequence.GetOr(NoField)
  {
  }
}
