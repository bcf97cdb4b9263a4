/** The invariant the two behaviours keep between them: an event they manage is a Boundary
    Event exactly when it has a host. */
module EventConsistency {
  import opened Bpmn
  import opened BpmnReplace
  import opened AttachEventBehavior
  import opened DetachEventBehavior

  /** The event kinds the behaviours manage. */
  predicate Managed(shape: Shape) {
    IsAny(shape, [BoundaryEvent, IntermediateThrowEvent, IntermediateCatchEvent])
  }

  /** A managed event is in a consistent state when it is a Boundary Event iff it has a host. */
  predicate Consistent(shape: Shape, hasHost: bool) {
    Is(shape, BoundaryEvent) <==> hasHost
  }

  /** For a managed, non-label shape, one of the two behaviours fires exactly when the shape's
      kind disagrees with whether it has a host, and then attaching fires iff a host is present. */
  lemma FiresIffInconsistent(shape: Shape, host: Shape?)
    requires Managed(shape) && !IsLabel(shape)
    ensures ShouldAttach(shape, host) || ShouldDetach(shape, host != null)
            <==> !Consistent(shape, host != null)
    ensures ShouldAttach(shape, host) <==> !Consistent(shape, host != null) && host != null
  {
  }

  /** No shape is ever both attached and detached. */
  lemma NeverBoth(shape: Shape, host: Shape?, hasHost: bool)
    ensures !(ShouldAttach(shape, host) && ShouldDetach(shape, hasHost))
  {
  }

  /** Labels and unmanaged shapes are never replaced by either behaviour. */
  lemma UnmanagedUntouched(shape: Shape, host: Shape?, hasHost: bool)
    requires IsLabel(shape) || !Managed(shape)
    ensures !ShouldAttach(shape, host) && !ShouldDetach(shape, hasHost)
  {
  }

  /** An attached replacement is consistent and no behaviour fires on it again while it keeps
      its host. */
  lemma AttachedIsStable(shape: Shape, r: Shape, host: Shape, other: Shape?)
    requires AttachedFrom(shape, r, host)
    ensures Managed(r) && Consistent(r, r.host != null)
    ensures !ShouldAttach(r, other) && !ShouldDetach(r, r.host != null)
  {
  }

  /** A detached replacement is consistent and no behaviour fires on it again while it stays
      without a host. */
  lemma DetachedIsStable(shape: Shape, r: Shape, hasHost: bool)
    requires DetachedFrom(shape, r)
    ensures Managed(r) && Consistent(r, r.host != null)
    ensures !ShouldDetach(r, hasHost) && !ShouldAttach(r, r.host)
  {
  }

  /** Attaching and then detaching keeps the first event-definition type and drops the host.
      The original kind comes back exactly when the event was a Catch Event with an event
      definition or a Throw Event without one: a Throw Event with an event definition returns
      as a Catch Event. */
  lemma DetachAfterAttach(shape: Shape, host: Shape, b: Shape, d: Shape)
    requires ShouldAttach(shape, host)
    requires AttachedFrom(shape, b, host) && DetachedFrom(b, d)
    ensures d.host == null && d.businessObject.attachedToRef == null
    ensures FirstEventDefinitionType(d) == FirstEventDefinitionType(shape)
    ensures Is(d, shape.businessObject.kind) <==>
            (Is(shape, IntermediateCatchEvent) <==> shape.businessObject.eventDefinitions != [])
  {
    assert GetEventDefinition(b).Some? <==> GetEventDefinition(shape).Some?;
  }

  /** Detaching and then attaching to a new host gives back a Boundary Event with the same first
      event-definition type, now on that host. */
  lemma AttachAfterDetach(shape: Shape, i: Shape, host: Shape, b: Shape)
    requires Is(shape, BoundaryEvent)
    requires DetachedFrom(shape, i) && ShouldAttach(i, host) && AttachedFrom(i, b, host)
    ensures Is(b, BoundaryEvent) && b.host == host
    ensures b.businessObject.attachedToRef == host.businessObject
    ensures FirstEventDefinitionType(b) == FirstEventDefinitionType(shape)
  {
  }
}
