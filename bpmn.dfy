/** The slice of the BPMN element model that the attach and detach behaviours read:
    shapes, their business objects, the type and label predicates of ModelUtil and
    LabelUtil, and the first-event-definition helper both behaviours share. */
module Bpmn {

  datatype Option<+T> = None | Some(value: T)

  /** The BPMN type (`$type`) of a business object, as far as these behaviours tell them apart. */
  datatype Kind = BoundaryEvent | IntermediateThrowEvent | IntermediateCatchEvent | Other

  /** An event definition (timer, message, signal, ...); only its type tag is ever inspected. */
  datatype EventDefinition = EventDefinition(typeTag: string)

  /** The semantic element behind a shape. The behaviours never change one after it is built. */
  class BusinessObject {
    const kind: Kind
    const eventDefinitions: seq<EventDefinition>
    const attachedToRef: BusinessObject?
    const cancelActivity: bool

    /** `bpmnFactory.create(type, attrs)` */
    constructor (kind: Kind, eventDefinitions: seq<EventDefinition>,
                 attachedToRef: BusinessObject?, cancelActivity: bool)
      ensures this.kind == kind && this.eventDefinitions == eventDefinitions
      ensures this.attachedToRef == attachedToRef && this.cancelActivity == cancelActivity
    {
      this.kind := kind;
      this.eventDefinitions := eventDefinitions;
      this.attachedToRef := attachedToRef;
      this.cancelActivity := cancelActivity;
    }
  }

  /** A diagram element. A label is a shape whose `labelTarget` is the element it labels;
      it shares that element's business object. */
  class Shape {
    const businessObject: BusinessObject
    const host: Shape?
    const labelTarget: Shape?

    /** `elementFactory.createShape(attrs)` */
    constructor (businessObject: BusinessObject, host: Shape?, labelTarget: Shape?)
      ensures this.businessObject == businessObject && this.host == host
      ensures this.labelTarget == labelTarget
    {
      this.businessObject := businessObject;
      this.host := host;
      this.labelTarget := labelTarget;
    }
  }

  /** LabelUtil `isLabel` */
  predicate IsLabel(element: Shape) {
    element.labelTarget != null
  }

  /** ModelUtil `is`: none of the kinds told apart here has a BPMN subtype, so
      `$instanceOf` reduces to equality of the business object's type. */
  predicate Is(element: Shape, kind: Kind) {
    element.businessObject.kind == kind
  }

  /** ModelingUtil `isAny` */
  predicate IsAny(element: Shape, kinds: seq<Kind>) {
    element.businessObject.kind in kinds
  }

  /** `getEventDefinition`: the first event definition of the element's business object, if any. */
  function GetEventDefinition(element: Shape): (r: Option<EventDefinition>)
    ensures r.None? <==> element.businessObject.eventDefinitions == []
    ensures r.Some? ==> r.value == element.businessObject.eventDefinitions[0]
  {
    var eventDefinitions := element.businessObject.eventDefinitions;
    if |eventDefinitions| > 0 then Some(eventDefinitions[0]) else None
  }

  /** The `$type` of the first event definition, the only part of it a replacement carries over. */
  function FirstEventDefinitionType(element: Shape): Option<string> {
    match GetEventDefinition(element)
    case Some(d) => Some(d.typeTag)
    case None => None
  }

  /** `Array.prototype.indexOf` with reference equality: the first position of `x`, or -1. */
  function IndexOf(s: seq<Shape>, x: Shape): (i: int)
    ensures -1 <= i < |s|
    ensures i == -1 <==> x !in s
    ensures 0 <= i ==> s[i] == x && forall j :: 0 <= j < i ==> s[j] != x
  {
    if |s| == 0 then -1
    else if s[0] == x then 0
    else
      var k := IndexOf(s[1..], x);
      if k == -1 then -1 else k + 1
  }
}
