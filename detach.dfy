/** DetachEventBehavior: a Boundary Event that is created, or moved, without a host becomes an
    Intermediate Catch Event (when it has an event definition) or an Intermediate Throw Event. */
module DetachEventBehavior {
  import opened Bpmn
  import opened BpmnReplace
  import opened Commands

  /** `shouldDetach(shape, host)`: a non-label boundary event whose host is absent (falsy). */
  function ShouldDetach(shape: Shape, host: bool): (r: bool)
    ensures r <==> !IsLabel(shape) && Is(shape, BoundaryEvent) && !host
  {
    !IsLabel(shape) && Is(shape, BoundaryEvent) && !host
  }

  /** Labels, shapes with a host and shapes of any kind but Boundary Event never detach; a
      host-less, non-label Boundary Event always does. */
  lemma ShouldDetachCases(shape: Shape, host: bool)
    ensures IsLabel(shape) ==> !ShouldDetach(shape, host)
    ensures host ==> !ShouldDetach(shape, host)
    ensures !Is(shape, BoundaryEvent) ==> !ShouldDetach(shape, host)
    ensures !IsLabel(shape) && Is(shape, BoundaryEvent) && !host ==> ShouldDetach(shape, host)
  {
  }

  /** The descriptor and options `replaceShape(shape)` hands to the collaborator. */
  function DetachRequest(shape: Shape): (q: ReplaceRequest)
    ensures q.target.host == null
    ensures q.target.kind == IntermediateCatchEvent <==> shape.businessObject.eventDefinitions != []
    ensures q.target.kind == IntermediateThrowEvent <==> shape.businessObject.eventDefinitions == []
    ensures q.target.eventDefinitionType == FirstEventDefinitionType(shape)
    ensures !q.options.layoutConnection
  {
    var intermediateEvent := match GetEventDefinition(shape)
      case Some(eventDefinition) => Target(IntermediateCatchEvent, null, Some(eventDefinition.typeTag))
      case None => Target(IntermediateThrowEvent, null, None);
    ReplaceRequest(intermediateEvent, ReplaceOptions(layoutConnection := false))
  }

  /** `r` is what replacing `shape` may give back. */
  predicate DetachedFrom(shape: Shape, r: Shape) {
    Realizes(r, DetachRequest(shape).target)
  }

  /** Replacing a replacement asks for the same thing again: detaching is idempotent. */
  lemma DetachRequestStable(shape: Shape, r: Shape)
    requires DetachedFrom(shape, r)
    ensures DetachRequest(r) == DetachRequest(shape)
  {
    assert GetEventDefinition(r).Some? <==> GetEventDefinition(shape).Some?;
  }

  /** `replaceShape(shape)` */
  method ReplaceShape(shape: Shape) returns (r: Shape)
    ensures fresh(r) && DetachedFrom(shape, r)
  {
    var q := DetachRequest(shape);
    r := ReplaceElement(shape, q.target, q.options);
  }

  // ---------------------------------------------------------------------------------------
  // elements.create, after execution

  /** `elements.filter(shape => shouldDetach(shape, shape.host))`: the shapes it keeps. */
  function CreateCandidates(elements: seq<Shape>): (r: seq<Shape>)
    ensures |r| <= |elements|
    ensures forall k :: 0 <= k < |r| ==> r[k] in elements && ShouldDetach(r[k], r[k].host != null)
    ensures forall i :: 0 <= i < |elements| ==>
              ShouldDetach(elements[i], elements[i].host != null) ==> elements[i] in r
  {
    if |elements| == 0 then []
    else
      var head := if ShouldDetach(elements[0], elements[0].host != null) then [elements[0]] else [];
      head + CreateCandidates(elements[1..])
  }

  /** `.map(shape => elements.indexOf(shape))` over the candidates, taken before any overwrite. */
  function CreateIndices(elements: seq<Shape>): (r: seq<int>)
    ensures |r| == |CreateCandidates(elements)|
    ensures forall k :: 0 <= k < |r| ==> r[k] == IndexOf(elements, CreateCandidates(elements)[k])
    ensures forall k :: 0 <= k < |r| ==>
              && 0 <= r[k] < |elements| && elements[r[k]] == CreateCandidates(elements)[k]
              && forall j :: 0 <= j < r[k] ==> elements[j] != elements[r[k]]
  {
    var candidates := CreateCandidates(elements);
    seq(|candidates|, k requires 0 <= k < |candidates| => IndexOf(elements, candidates[k]))
  }

  /** Position `p` of the created elements is overwritten: its shape should detach and `p` is
      where `indexOf` finds that shape. */
  predicate CreateReplaces(elements: seq<Shape>, p: int)
    requires 0 <= p < |elements|
  {
    ShouldDetach(elements[p], elements[p].host != null) && IndexOf(elements, elements[p]) == p
  }

  /** The positions the create handler writes are exactly those `CreateReplaces` names. */
  lemma CreateIndicesExact(elements: seq<Shape>, p: int)
    ensures p in CreateIndices(elements) <==> 0 <= p < |elements| && CreateReplaces(elements, p)
  {
    var candidates, indices := CreateCandidates(elements), CreateIndices(elements);
    if p in indices {
      var k :| 0 <= k < |indices| && indices[k] == p;
    }
    if 0 <= p < |elements| && CreateReplaces(elements, p) {
      assert elements[p] in candidates;
      var k :| 0 <= k < |candidates| && candidates[k] == elements[p];
      assert indices[k] == p;
    }
  }

  /** With pairwise distinct elements, exactly the positions whose shape should detach are
      overwritten. */
  lemma CreateReplacesDistinct(elements: seq<Shape>, p: int)
    requires forall i, j :: 0 <= i < j < |elements| ==> elements[i] != elements[j]
    requires 0 <= p < |elements|
    ensures CreateReplaces(elements, p) <==> ShouldDetach(elements[p], elements[p].host != null)
  {
    var i := IndexOf(elements, elements[p]);
    assert 0 <= i && elements[i] == elements[p];
  }

  /** A repeated element is written only at its first position; the later copy stays as it was. */
  lemma CreateKeepsLaterDuplicate(elements: seq<Shape>, i: int, j: int)
    requires 0 <= i < j < |elements| && elements[i] == elements[j]
    ensures !CreateReplaces(elements, j)
  {
    assert IndexOf(elements, elements[j]) <= i;
  }

  /** The `elements.create` post-execute handler: every position in the created-elements array
      that `CreateReplaces` names holds a fresh detached replacement of the shape that was there;
      every other position, and the length, are unchanged. */
  method PostExecuteElementsCreate(context: CreateElementsContext)
    modifies context.elements
    ensures forall p :: 0 <= p < context.elements.Length ==>
      if CreateReplaces(old(context.elements[..]), p)
      then fresh(context.elements[p]) && DetachedFrom(old(context.elements[p]), context.elements[p])
      else context.elements[p] == old(context.elements[p])
  {
    var elements := context.elements;
    var indices := CreateIndices(elements[..]);
    ghost var original := elements[..];
    for k := 0 to |indices|
      invariant forall p :: 0 <= p < elements.Length ==>
        if p in indices[..k]
        then fresh(elements[p]) && DetachedFrom(original[p], elements[p])
        else elements[p] == original[p]
    {
      var index := indices[k];
      var r := ReplaceShape(elements[index]);
      if index in indices[..k] {
        DetachRequestStable(original[index], elements[index]);
      }
      elements[index] := r;
      assert indices[..k + 1] == indices[..k] + [index];
    }
    forall p | 0 <= p < elements.Length
      ensures p in indices <==> CreateReplaces(original, p)
    {
      CreateIndicesExact(original, p);
    }
    assert indices[..|indices|] == indices;
  }

  // ---------------------------------------------------------------------------------------
  // elements.move, before execution

  /** `hasHost` for position `i` of the moved shapes, where `d` says which earlier positions the
      loop has already overwritten: the shape's host is still in the array (at `i` or later, or at
      an earlier position that was not overwritten), or the move has a new host. */
  predicate HostFound(shapes: seq<Shape>, d: seq<bool>, i: int, newHost: Shape?)
    requires 0 <= i < |shapes| && |d| == i
  {
    var host := shapes[i].host;
    || (host != null && (host in shapes[i..] || exists j :: 0 <= j < i && !d[j] && shapes[j] == host))
    || newHost != null
  }

  /** Which of the first `n` moved shapes the move handler overwrites, position by position. */
  function MoveDecisions(shapes: seq<Shape>, newHost: Shape?, n: nat): (d: seq<bool>)
    requires n <= |shapes|
    ensures |d| == n
  {
    if n == 0 then []
    else
      var d := MoveDecisions(shapes, newHost, n - 1);
      d + [ShouldDetach(shapes[n - 1], HostFound(shapes, d, n - 1, newHost))]
  }

  /** Later positions do not change the decisions already taken. */
  lemma {:induction false} MoveDecisionsPrefix(shapes: seq<Shape>, newHost: Shape?, m: nat, n: nat)
    requires m <= n <= |shapes|
    ensures MoveDecisions(shapes, newHost, n)[..m] == MoveDecisions(shapes, newHost, m)
  {
    if m < n {
      MoveDecisionsPrefix(shapes, newHost, m, n - 1);
      var d := MoveDecisions(shapes, newHost, n - 1);
      assert MoveDecisions(shapes, newHost, n)[..n - 1] == d;
      assert MoveDecisions(shapes, newHost, n)[..m] == d[..m];
    } else {
      assert MoveDecisions(shapes, newHost, n)[..m] == MoveDecisions(shapes, newHost, n);
    }
  }

  /** The decision at position `i` of the whole batch. */
  lemma MoveDecisionAt(shapes: seq<Shape>, newHost: Shape?, i: nat)
    requires i < |shapes|
    ensures var d := MoveDecisions(shapes, newHost, |shapes|);
      d[i] == ShouldDetach(shapes[i], HostFound(shapes, d[..i], i, newHost))
  {
    MoveDecisionsPrefix(shapes, newHost, i + 1, |shapes|);
    MoveDecisionsPrefix(shapes, newHost, i, |shapes|);
    var d := MoveDecisions(shapes, newHost, |shapes|);
    assert d[..i + 1][i] == d[i];
    assert d[..i + 1][..i] == d[..i];
  }

  /** The `elements.move` pre-execute handler, run over every moved shape: a position is
      overwritten with a fresh detached replacement exactly where `MoveDecisions` says so, and
      every other position, and the length, are unchanged. */
  method PreExecuteElementsMove(context: MoveElementsContext)
    modifies context.shapes
    ensures forall i :: 0 <= i < context.shapes.Length ==>
      if MoveDecisions(old(context.shapes[..]), context.newHost, context.shapes.Length)[i]
      then fresh(context.shapes[i]) && DetachedFrom(old(context.shapes[i]), context.shapes[i])
      else context.shapes[i] == old(context.shapes[i])
  {
    var shapes := context.shapes;
    ghost var original := shapes[..];
    var n := shapes.Length;
    for index := 0 to n
      invariant forall j :: 0 <= j < index ==>
        if MoveDecisions(original, context.newHost, index)[j]
        then fresh(shapes[j]) && DetachedFrom(original[j], shapes[j])
        else shapes[j] == original[j]
      invariant forall j :: index <= j < n ==> shapes[j] == original[j]
    {
      ghost var d := MoveDecisions(original, context.newHost, index);
      var shape := shapes[index];
      var hasHost := (shape.host != null && IndexOf(context.shapes[..], shape.host) > -1)
                     || context.newHost != null;
      assert hasHost == HostFound(original, d, index, context.newHost) by {
        if shape.host != null {
          var host := shape.host;
          assert old(allocated(host));
          assert host in shapes[..] <==>
                   (host in original[index..] || exists j :: 0 <= j < index && !d[j] && original[j] == host) by {
            if host in shapes[..] {
              var j :| 0 <= j < n && shapes[j] == host;
              if j >= index {
                assert original[index..][j - index] == host;
              }
            }
            if host in original[index..] {
              var j :| 0 <= j < n - index && original[index..][j] == host;
              assert shapes[index + j] == host;
            }
          }
        }
      }
      if ShouldDetach(shape, hasHost) {
        var r := ReplaceShape(shape);
        shapes[index] := r;
      }
      assert MoveDecisions(original, context.newHost, index + 1)[..index] == d;
    }
  }

  /** A label is never overwritten, although it shares its boundary event's business object. */
  lemma MoveNeverReplacesLabel(shapes: seq<Shape>, newHost: Shape?, i: nat)
    requires i < |shapes| && IsLabel(shapes[i])
    ensures !MoveDecisions(shapes, newHost, |shapes|)[i]
  {
    MoveDecisionAt(shapes, newHost, i);
  }

  /** A move onto a new host overwrites nothing. */
  lemma MoveOntoHostReplacesNothing(shapes: seq<Shape>, newHost: Shape?, i: nat)
    requires newHost != null && i < |shapes|
    ensures !MoveDecisions(shapes, newHost, |shapes|)[i]
  {
    MoveDecisionAt(shapes, newHost, i);
  }

  /** When no moved shape is hosted by a boundary event, earlier overwrites never hide a host,
      and position `i` is overwritten exactly when its shape should detach given `hasHost` =
      "its host is among the moved shapes, or there is a new host". */
  lemma MoveDecisionsWithoutEventHosts(shapes: seq<Shape>, newHost: Shape?, i: nat)
    requires forall j :: 0 <= j < |shapes| && shapes[j].host != null ==>
               !Is(shapes[j].host, BoundaryEvent)
    requires i < |shapes|
    ensures MoveDecisions(shapes, newHost, |shapes|)[i] ==
            ShouldDetach(shapes[i], (shapes[i].host != null && shapes[i].host in shapes) || newHost != null)
  {
    MoveDecisionAt(shapes, newHost, i);
    var d := MoveDecisions(shapes, newHost, |shapes|);
    var host := shapes[i].host;
    if host != null && host in shapes {
      var k :| 0 <= k < |shapes| && shapes[k] == host;
      if k < i {
        MoveDecisionAt(shapes, newHost, k);
        assert d[..i][k] == d[k];
      } else {
        assert shapes[i..][k - i] == host;
      }
    }
  }

  /** Boundary events moved together with their own hosts (activities) are none of them
      overwritten. */
  lemma MoveWithOwnHostsReplacesNothing(shapes: seq<Shape>, newHost: Shape?, i: nat)
    requires forall j :: 0 <= j < |shapes| && shapes[j].host != null ==>
               !Is(shapes[j].host, BoundaryEvent)
    requires forall j :: 0 <= j < |shapes| && !IsLabel(shapes[j]) && Is(shapes[j], BoundaryEvent) ==>
               shapes[j].host != null && shapes[j].host in shapes
    requires i < |shapes|
    ensures !MoveDecisions(shapes, newHost, |shapes|)[i]
  {
    MoveDecisionsWithoutEventHosts(shapes, newHost, i);
  }

  /** A batch of boundary events whose hosts are not among the moved shapes, moved without a
      new host, is overwritten in full. */
  lemma MoveHostlessBatchReplacesAll(shapes: seq<Shape>, i: nat)
    requires forall j :: 0 <= j < |shapes| ==>
               && !IsLabel(shapes[j]) && Is(shapes[j], BoundaryEvent)
               && (shapes[j].host == null || shapes[j].host !in shapes)
    requires i < |shapes|
    ensures MoveDecisions(shapes, null, |shapes|)[i]
  {
    MoveDecisionAt(shapes, null, i);
  }

  /** The decisions depend on the order of the batch: a boundary event hosted by a host-less
      boundary event is overwritten when its host comes first (the host has been overwritten by
      then, so `indexOf` no longer finds it) and kept when it comes first. */
  lemma MoveOrderMatters(b1: Shape, b2: Shape)
    requires !IsLabel(b1) && !IsLabel(b2) && Is(b1, BoundaryEvent) && Is(b2, BoundaryEvent)
    requires b1.host == null && b2.host == b1
    ensures MoveDecisions([b1, b2], null, 2) == [true, true]
    ensures MoveDecisions([b2, b1], null, 2) == [false, true]
  {
    assert MoveDecisions([b1, b2], null, 1) == [true];
    assert [b1, b2][1..] == [b2];
    assert MoveDecisions([b2, b1], null, 1) == [false] by {
      assert [b2, b1][0..] == [b2, b1];
    }
  }

  /** What a detached replacement is: an Intermediate Catch Event carrying the original's first
      event-definition type when it had one, else an Intermediate Throw Event, with no host and
      no `attachedToRef`. */
  lemma DetachedShape(shape: Shape, r: Shape)
    requires DetachedFrom(shape, r)
    ensures Is(r, IntermediateCatchEvent) <==> shape.businessObject.eventDefinitions != []
    ensures Is(r, IntermediateThrowEvent) <==> shape.businessObject.eventDefinitions == []
    ensures FirstEventDefinitionType(r) == FirstEventDefinitionType(shape)
    ensures r.host == null && r.businessObject.attachedToRef == null && !IsLabel(r)
  {
  }
}
