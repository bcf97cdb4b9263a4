# Attach and detach event behaviours of a BPMN modeler

This project models two "modeling behaviours" of the bpmn-js BPMN editor. Both keep an
event's BPMN type consistent with whether the event sits on a host shape:

- **AttachEventBehavior** runs before `shape.create` and before `elements.move`. An
  Intermediate Throw Event or Intermediate Catch Event that is created on a host, or moved
  alone onto one, becomes a Boundary Event.
- **DetachEventBehavior** runs after `elements.create` and before `elements.move`. A Boundary
  Event that ends up without a host becomes an Intermediate Catch Event when it has a first
  event definition, and an Intermediate Throw Event otherwise.

Modules:

- `Bpmn` (`bpmn.dfy`) holds the element model.
  - Business objects and shapes are classes, because the code compares them by identity
    (`indexOf`, and `attachedToRef` pointing at the host's business object).
  - All their fields are `const`: the behaviours only read them.
  - A label is a shape with a `labelTarget`. It shares its target's business object.
  - `getEventDefinition`, `isLabel`, `is`, `isAny` and `Array.prototype.indexOf` are defined
    here.
- `BpmnReplace` (`replace.dfy`) is the contract of the `bpmnReplace.replaceElement`
  collaborator. It promises a fresh shape of the requested kind, host and first
  event-definition type. The new business object's `attachedToRef` follows the host. The
  method's body is only one way to meet that contract: callers see just the `ensures`.
- `Commands` (`commands.dfy`) holds the mutable command contexts, one class per command:
  `shape.create`, `elements.move` and `elements.create`.
- `AttachEventBehavior` (`attach.dfy`) and `DetachEventBehavior` (`detach.dfy`) hold the
  handlers.
  - Each handler is a method called directly on a context.
  - Each is proved against pure specification functions: `ShouldAttach` and `AttachRequest`;
    `ShouldDetach` and `DetachRequest`; `CreateReplaces` and `MoveDecisions`.
  - The detach handlers overwrite the context's array in place.
- `EventConsistency` (`consistency.dfy`) relates the two behaviours.
  - The invariant: a managed event is a Boundary Event iff it has a host.
  - The two decisions are mutually exclusive.
  - A replacement is stable under both behaviours.
  - Round trips through attach and detach are covered.

Three facts about the code shape the model:

- The detach move handler runs over every moved shape, not only one-shape moves
  (DetachEventBehavior.js:41). A batch of boundary events moved away from their hosts is
  therefore detached in full (DetachEventBehaviorSpec.js:111-134).
- The attach create handler builds a new Boundary Event business object with only
  `cancelActivity` and `attachedToRef`. It copies no content and moves no labels
  (AttachEventBehavior.js:27-39).
- When the detach move handler evaluates `hasHost`, it looks for the host in the array as the
  loop has already rewritten it (DetachEventBehavior.js:42). `MoveDecisions` models exactly
  that view. In the model every shape's `host` stays fixed while earlier shapes are replaced.
  - `MoveOrderMatters` shows that the result can then depend on the order of the batch. This
    needs a moved boundary event whose host is itself a moved, host-less boundary event.
  - `MoveDecisionsWithoutEventHosts` shows that, when no moved shape is hosted by a boundary
    event, the result matches the plain reading "host among the moved shapes, or a new host".

## Model

| member | source | states |
|---|---|---|
| `Bpmn.GetEventDefinition` | lib/features/modeling/behavior/AttachEventBehavior.js:85-90 | the result is absent exactly when the business object has no event definitions, and is otherwise the first one (the copy at DetachEventBehavior.js:81-86 is identical) |
| `Bpmn.IndexOf` | lib/features/modeling/behavior/DetachEventBehavior.js:31-33 | `indexOf` with reference equality: -1 iff the shape is absent, otherwise the first position holding it |
| `BpmnReplace.ReplaceElement` | lib/features/modeling/behavior/AttachEventBehavior.js:80 | the collaborator returns a fresh, non-label shape of the requested kind, host and first event-definition type, attached to the host's business object exactly when a host is given |
| `AttachEventBehavior.ShouldAttach` | lib/features/modeling/behavior/AttachEventBehavior.js:92-95 | holds iff there is a host, the shape is not a label, and it is an Intermediate Throw or Catch Event; so boundary events, labels and host-less shapes never attach |
| `AttachEventBehavior.AttachRequest` | lib/features/modeling/behavior/AttachEventBehavior.js:68-80 | the descriptor asks for a Boundary Event on the given host; its event-definition type is that of the first event definition, present iff one exists; `layoutConnection` is false |
| `AttachEventBehavior.AttachedShape` | lib/features/modeling/behavior/AttachEventBehavior.js:68-80 | an attached replacement is a non-label Boundary Event whose host is the given host, attached to the host's business object, with the original's first event-definition type |
| `AttachEventBehavior.ReplaceShape` | lib/features/modeling/behavior/AttachEventBehavior.js:68-81 | returns a fresh shape meeting the attach descriptor |
| `AttachEventBehavior.PreExecuteShapeCreate` | lib/features/modeling/behavior/AttachEventBehavior.js:22-41 | if the shape should attach, the context's shape becomes a fresh non-label Boundary Event shape with no host of its own, whose fresh business object has `attachedToRef` = the host's business object, `cancelActivity` = true and no event definitions; otherwise the shape is unchanged; the host never changes |
| `AttachEventBehavior.PreExecuteElementsMove` | lib/features/modeling/behavior/AttachEventBehavior.js:43-56 | when exactly one shape moves and it should attach to the new host, the context's shapes become a fresh one-element array holding a fresh attached replacement; in every other case (more or fewer shapes, or no attach) the shapes are the same array with the same contents; the new host never changes |
| `DetachEventBehavior.ShouldDetachCases` | lib/features/modeling/behavior/DetachEventBehavior.js:77-79 | labels, shapes whose host argument is truthy, and shapes of any kind but Boundary Event never detach; a host-less, non-label Boundary Event always does |
| `DetachEventBehavior.DetachRequest` | lib/features/modeling/behavior/DetachEventBehavior.js:58-73 | the descriptor has no host; it asks for a Catch Event iff a first event definition exists and for a Throw Event iff none does; it carries that definition's type; `layoutConnection` is false |
| `DetachEventBehavior.DetachRequestStable` | lib/features/modeling/behavior/DetachEventBehavior.js:58-71 | detaching a detached replacement asks for the same descriptor again, so replacing twice gives the same kind and event-definition type as replacing once |
| `DetachEventBehavior.ReplaceShape` | lib/features/modeling/behavior/DetachEventBehavior.js:58-74 | returns a fresh shape meeting the detach descriptor |
| `DetachEventBehavior.DetachedShape` | lib/features/modeling/behavior/DetachEventBehavior.js:58-71 | a detached replacement is a Catch Event iff the original had an event definition and a Throw Event iff it had none; it keeps the first event-definition type and has no host and no `attachedToRef` |
| `DetachEventBehavior.CreateCandidates` | lib/features/modeling/behavior/DetachEventBehavior.js:27-30 | the filter keeps only elements that should detach, and keeps every element that should detach |
| `DetachEventBehavior.CreateIndices` | lib/features/modeling/behavior/DetachEventBehavior.js:31-33 | one index per candidate, a valid position of the created elements that holds that candidate, with no earlier position holding it |
| `DetachEventBehavior.CreateIndicesExact` | lib/features/modeling/behavior/DetachEventBehavior.js:27-33 | a position is among the indices iff its shape should detach and `indexOf` finds the shape at that very position |
| `DetachEventBehavior.CreateReplacesDistinct` | lib/features/modeling/behavior/DetachEventBehavior.js:24-36 | with pairwise distinct elements, a position is overwritten iff its shape should detach |
| `DetachEventBehavior.CreateKeepsLaterDuplicate` | lib/features/modeling/behavior/DetachEventBehavior.js:31-35 | the second occurrence of a repeated element is never overwritten |
| `DetachEventBehavior.PostExecuteElementsCreate` | lib/features/modeling/behavior/DetachEventBehavior.js:24-36 | the elements array keeps its identity and length; every position `CreateReplaces` names holds a fresh detached replacement of its original shape; every other position is unchanged |
| `DetachEventBehavior.MoveDecisionsPrefix` | lib/features/modeling/behavior/DetachEventBehavior.js:41-47 | the decision at a position depends only on the positions before it |
| `DetachEventBehavior.MoveDecisionAt` | lib/features/modeling/behavior/DetachEventBehavior.js:41-47 | position i is overwritten iff its shape should detach given `hasHost` as the loop sees it at step i |
| `DetachEventBehavior.PreExecuteElementsMove` | lib/features/modeling/behavior/DetachEventBehavior.js:38-48 | the shapes array keeps its identity and length; every position `MoveDecisions` selects holds a fresh detached replacement of its original shape; every other position is unchanged |
| `DetachEventBehavior.MoveNeverReplacesLabel` | lib/features/modeling/behavior/DetachEventBehavior.js:44 | a moved label is never overwritten, although its business object is a Boundary Event |
| `DetachEventBehavior.MoveOntoHostReplacesNothing` | lib/features/modeling/behavior/DetachEventBehavior.js:42 | when the move has a new host, no position is overwritten |
| `DetachEventBehavior.MoveDecisionsWithoutEventHosts` | lib/features/modeling/behavior/DetachEventBehavior.js:42 | when no moved shape is hosted by a boundary event, position i is overwritten iff its shape should detach given `hasHost` = "its host is among the moved shapes, or there is a new host" |
| `DetachEventBehavior.MoveWithOwnHostsReplacesNothing` | test/spec/features/modeling/behavior/DetachEventBehaviorSpec.js:137-157 | boundary events moved together with their own (non-event) hosts are none of them overwritten |
| `DetachEventBehavior.MoveHostlessBatchReplacesAll` | test/spec/features/modeling/behavior/DetachEventBehaviorSpec.js:111-134 | a batch of non-label boundary events whose hosts are absent or not among the moved shapes, moved without a new host, is overwritten at every position |
| `DetachEventBehavior.MoveOrderMatters` | lib/features/modeling/behavior/DetachEventBehavior.js:41-47 | a boundary event hosted by a host-less boundary event is overwritten when its host comes first in the batch and kept when it comes first itself |
| `EventConsistency.FiresIffInconsistent` | lib/features/modeling/behavior/AttachEventBehavior.js:92-95 | for a managed non-label event, one of the behaviours fires exactly when "is a Boundary Event" disagrees with "has a host", and attach is the one that fires iff a host is present |
| `EventConsistency.NeverBoth` | lib/features/modeling/behavior/DetachEventBehavior.js:77-79 | no shape satisfies both the attach and the detach predicate |
| `EventConsistency.UnmanagedUntouched` | lib/features/modeling/behavior/AttachEventBehavior.js:93-94 | labels and shapes that are neither Boundary nor Intermediate Throw or Catch Events are never replaced by either behaviour |
| `EventConsistency.AttachedIsStable` | lib/features/modeling/behavior/AttachEventBehavior.js:68-80 | an attached replacement satisfies the invariant, and neither behaviour fires on it while it keeps its host |
| `EventConsistency.DetachedIsStable` | lib/features/modeling/behavior/DetachEventBehavior.js:58-73 | a detached replacement satisfies the invariant, and neither behaviour fires on it while it has no host |
| `EventConsistency.DetachAfterAttach` | lib/features/modeling/behavior/DetachEventBehavior.js:58-71 | attach then detach keeps the first event-definition type and removes host and `attachedToRef`; the original kind returns iff "is a Catch Event" agrees with "has an event definition" |
| `EventConsistency.AttachAfterDetach` | lib/features/modeling/behavior/AttachEventBehavior.js:68-80 | detach then attach gives a Boundary Event on the new host, attached to its business object, with the original first event-definition type |

## Left out

- Interceptor plumbing is not modelled: `CommandInterceptor` inheritance, `injector.invoke`, event-bus registration and the `includeBatch` flag. Each handler is a method called directly on its context. The order in which several interceptors run on one command is not modelled either.
- The command context is a bag of parameters in the code. Here each command has its own class holding only the fields these behaviours use: `shape` and `host`; `shapes` and `newHost`; `elements`.
- BpmnReplace.ReplaceElement: the contract covers the kind, host, label status, first event-definition type and `attachedToRef` of the result. It does not cover the collaborator's migration of connections, labels, ids and business-object content, or its removal and re-creation of shapes. These lie outside the two files.
- The connection tests (DetachEventBehaviorSpec.js:220-253) are not modelled. They check that the outgoing connection is kept and that one layout pass runs per move, which depends on the collaborator and on sibling behaviours. Here `layoutConnection: false` is stated on `AttachRequest` and `DetachRequest`.
- `bpmnFactory.create` and `elementFactory.createShape` are modelled as the constructors of `BusinessObject` and `Shape`. Default attributes, sizes and ids are not modelled.
- Move deltas, coordinates, parents, the root element, rendering, layout and XML import are not modelled.
- Shapes are immutable in the model. The toolkit does reassign `host` and labels elsewhere, but these handlers never do.
- `is` is modelled as equality of the business object's type. None of the kinds distinguished here has a BPMN subtype, so the `$instanceOf` hierarchy adds nothing. `getBusinessObject` falling back to the element itself is not modelled, because every shape here has a business object.
- A missing `eventDefinitions` list is modelled as the empty sequence.
