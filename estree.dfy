/** The ESTree binding-pattern nodes that the walker of index.js reads.

    Only the fields the walker touches are kept: an `ArrayPattern`'s
    `elements`, an `ObjectPattern`'s `properties`, a `RestElement`'s
    `argument` and an `Identifier`'s `name`. */
module Estree {

  datatype Option<+T> = None | Some(value: T)

  /** A value handed to the walker where a node is expected. */
  datatype Node =
    | Identifier(name: string)
    | ArrayPattern(elements: seq<Option<Node>>)   // `None` is a hole, as in `[x,, y]`
    | ObjectPattern(properties: seq<Prop>)
    | RestElement(argument: Node)
    | Other(kind: string)                         // any other node type: AssignmentPattern, ImportDeclaration, ...
    | Untyped                                     // not an object, or an object without a string `type`

  /** An entry of an `ObjectPattern`'s `properties`: a `Property` with a key
      and a value, or an object-rest element, which has no `value`. */
  datatype Prop =
    | Property(key: Node, value: Node)
    | RestEntry(argument: Node)

  /** The single error the walker raises: a node that fails the shape checks. */
  datatype Error = Malformed

  datatype Result<+T> = Ok(value: T) | Err(error: Error)

  predicate IsIdentifier(n: Node) {
    n.Identifier?
  }
}
