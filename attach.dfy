/** AttachEventBehavior: an Intermediate Throw or Catch Event that is created on, or moved
    alone onto, a host becomes a Boundary Event before the command executes. */
module AttachEventBehavior {
  import opened Bpmn
  import opened BpmnReplace
  import opened Commands

  /** `shouldAttach(shape, host)`: a non-label intermediate event with a host. */
  function ShouldAttach(shape: Shape, host: Shape?): (r: bool)
    ensures r <==> && host != null
                   && !IsLabel(shape)
                   && (Is(shape, IntermediateThrowEvent) || Is(shape, IntermediateCatchEvent))
    ensures Is(shape, BoundaryEvent) || IsLabel(shape) || host == null ==> !r
  {
    !IsLabel(shape) && IsAny(shape, [IntermediateThrowEvent, IntermediateCatchEvent]) && host != null
  }

  /** The descriptor and options `replaceShape(shape, host)` hands to the collaborator. */
  function AttachRequest(shape: Shape, host: Shape?): (q: ReplaceRequest)
    ensures q.target.kind == BoundaryEvent && q.target.host == host
    ensures q.target.eventDefinitionType.Some? <==> shape.businessObject.eventDefinitions != []
    ensures q.target.eventDefinitionType == FirstEventDefinitionType(shape)
    ensures !q.options.layoutConnection
  {
    var boundaryEvent := Target(BoundaryEvent, host, None);
    var target := match GetEventDefinition(shape)
      case Some(eventDefinition) => boundaryEvent.(eventDefinitionType := Some(eventDefinition.typeTag))
      case None => boundaryEvent;
    ReplaceRequest(target, ReplaceOptions(layoutConnection := false))
  }

  /** `r` is what replacing `shape` under `host` may give back. */
  predicate AttachedFrom(shape: Shape, r: Shape, host: Shape?) {
    Realizes(r, AttachRequest(shape, host).target)
  }

  /** What an attached replacement is: a Boundary Event on `host`, attached to the host's
      business object, carrying the original's first event-definition type. */
  lemma AttachedShape(shape: Shape, r: Shape, host: Shape)
    requires AttachedFrom(shape, r, host)
    ensures Is(r, BoundaryEvent) && r.host == host && !IsLabel(r)
    ensures r.businessObject.attachedToRef == host.businessObject
    ensures FirstEventDefinitionType(r) == FirstEventDefinitionType(shape)
  {
  }

  /** `replaceShape(shape, host)` */
  method ReplaceShape(shape: Shape, host: Shape?) returns (r: Shape)
    ensures fresh(r) && AttachedFrom(shape, r, host)
  {
    var q := AttachRequest(shape, host);
    r := ReplaceElement(shape, q.target, q.options);
  }

  /** The `shape.create` pre-execute handler. When the shape should attach, the context's shape
      becomes a new Boundary Event shape whose business object is attached to the host's
      business object, with `cancelActivity` set; otherwise the context is left as it was. */
  method PreExecuteShapeCreate(context: CreateShapeContext)
    modifies context
    ensures context.host == old(context.host)
    ensures !ShouldAttach(old(context.shape), context.host) ==> context.shape == old(context.shape)
    ensures ShouldAttach(old(context.shape), context.host) ==>
      && fresh(context.shape) && fresh(context.shape.businessObject)
      && Is(context.shape, BoundaryEvent)
      && !IsLabel(context.shape) && context.shape.host == null
      && context.shape.businessObject.attachedToRef == context.host.businessObject
      && context.shape.businessObject.cancelActivity
      && context.shape.businessObject.eventDefinitions == []
  {
    var shape, host := context.shape, context.host;
    if ShouldAttach(shape, host) {
      var businessObject := new BusinessObject(BoundaryEvent, [], host.businessObject, true);
      context.shape := new Shape(businessObject, null, null);
    }
  }

  /** The `elements.move` pre-execute handler. Only a move of exactly one shape that should
      attach to the new host is rewritten: the context's shapes become a new one-element list
      holding the replacement. Every other move leaves the context untouched. */
  method PreExecuteElementsMove(context: MoveElementsContext)
    modifies context
    ensures context.newHost == old(context.newHost)
    ensures if old(context.shapes.Length) == 1 && ShouldAttach(old(context.shapes[0]), context.newHost)
            then && fresh(context.shapes) && context.shapes.Length == 1
                 && fresh(context.shapes[0])
                 && AttachedFrom(old(context.shapes[0]), context.shapes[0], context.newHost)
            else context.shapes == old(context.shapes)
  {
    var shapes, host := context.shapes, context.newHost;
    if shapes.Length != 1 {
      return;
    }
    var shape := shapes[0];
    if ShouldAttach(shape, host) {
      var r := ReplaceShape(shape, host);
      context.shapes := new Shape[][r];
    }
  }
}
