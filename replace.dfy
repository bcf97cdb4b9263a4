/** The contract the behaviours rely on from `bpmnReplace.replaceElement`. Connection,
    label and content migration are the collaborator's internals and are not modelled:
    only the type, host and event-definition type of the new shape are promised. */
module BpmnReplace {
  import opened Bpmn

  /** The replacement descriptor: `{ type, host, eventDefinitionType }`. */
  datatype Target = Target(kind: Kind, host: Shape?, eventDefinitionType: Option<string>)

  /** The options object passed along with the descriptor. */
  datatype ReplaceOptions = ReplaceOptions(layoutConnection: bool)

  /** A descriptor together with its options: one call to `replaceElement`. */
  datatype ReplaceRequest = ReplaceRequest(target: Target, options: ReplaceOptions)

  /** `r` is a shape of the kind, host and event-definition type `t` asks for; its business
      object is attached to the host's business object exactly when there is a host. */
  predicate Realizes(r: Shape, t: Target) {
    && Is(r, t.kind)
    && r.host == t.host
    && !IsLabel(r)
    && FirstEventDefinitionType(r) == t.eventDefinitionType
    && r.businessObject.attachedToRef == (if t.host == null then null else t.host.businessObject)
  }

  /** `bpmnReplace.replaceElement(shape, target, options)`. Callers see only the contract;
      the body is one implementation of it. */
  method ReplaceElement(shape: Shape, target: Target, options: ReplaceOptions) returns (r: Shape)
    ensures fresh(r) && Realizes(r, target)
  {
    var eventDefinitions := match target.eventDefinitionType
      case Some(t) => [EventDefinition(t)]
      case None => [];
    var attachedToRef := if target.host == null then null else target.host.businessObject;
    var bo := new BusinessObject(target.kind, eventDefinitions, attachedToRef,
                                 shape.businessObject.cancelActivity);
    r := new Shape(bo, target.host, null);
  }
}
