/** The mutable contexts the command stack hands to interceptors, one class per command,
    holding the fields the two behaviours read or rewrite. */
module Commands {
  import opened Bpmn

  /** Context of `shape.create`: the shape to create and the host it is dropped on. */
  class CreateShapeContext {
    var shape: Shape
    var host: Shape?

    constructor (shape: Shape, host: Shape?)
      ensures this.shape == shape && this.host == host
    {
      this.shape := shape;
      this.host := host;
    }
  }

  /** Context of `elements.move`: the moved shapes and the host they are dropped on, if any. */
  class MoveElementsContext {
    var shapes: array<Shape>
    var newHost: Shape?

    constructor (shapes: array<Shape>, newHost: Shape?)
      ensures this.shapes == shapes && this.newHost == newHost
    {
      this.shapes := shapes;
      this.newHost := newHost;
    }
  }

  /** Context of `elements.create`: the elements the command has just created. */
  class CreateElementsContext {
    var elements: array<Shape>

    constructor (elements: array<Shape>)
      ensures this.elements == elements
    {
      this.elements := elements;
    }
  }
}
