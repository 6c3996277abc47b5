/** What index.js:13-43 does, as pure functions over `Estree` nodes, and the
    properties the walk has.

    One call of the walker appends nodes to the caller's accumulator and may
    end by throwing (the shape checks at index.js:14-15 are re-run by every
    recursive call). A `Trace` records both: the appended nodes, in order, and
    whether the call threw. A throw part-way through a pattern leaves the
    nodes appended before it in the accumulator, as the JavaScript does. */
module AssignedSpec {
  import opened Estree

  datatype Trace = Trace(appended: seq<Node>, failed: bool)

  /** Nothing appended, no throw. */
  const Nothing := Trace([], false)

  /** Run `first`, then, unless it threw, `next` on the same accumulator. */
  function Then(first: Trace, next: Trace): Trace {
    if first.failed then first else Trace(first.appended + next.appended, next.failed)
  }

  predicate AllIdentifiers(s: seq<Node>) {
    forall i :: 0 <= i < |s| ==> IsIdentifier(s[i])
  }

  /** One call `getAssignedIdentifiers(n, acc)`: the shape check, then the
      single rest unwrap, then the classification of the unwrapped node. */
  function Walk(n: Node): (t: Trace)
    ensures AllIdentifiers(t.appended)
    decreases n, 1
  {
    match n
    case Untyped => Trace([], true)
    case RestElement(arg) => Classify(arg)
    case _ => Classify(n)
  }

  /** The three `if`s of index.js:23-40 on the (possibly unwrapped) node;
      there is no shape check here, so an `Untyped` rest argument adds nothing. */
  function Classify(n: Node): (t: Trace)
    ensures AllIdentifiers(t.appended)
    decreases n, 0
  {
    match n
    case ArrayPattern(els) => WalkElements(els)
    case ObjectPattern(ps) => WalkProperties(ps)
    case Identifier(_) => Trace([n], false)
    case _ => Nothing
  }

  /** The `forEach` over `elements`: holes are skipped, every other element
      is walked; a throw stops the loop. */
  function WalkElements(els: seq<Option<Node>>): (t: Trace)
    ensures AllIdentifiers(t.appended)
    decreases els
  {
    if els == [] then Nothing else Then(WalkElement(els[0]), WalkElements(els[1..]))
  }

  function WalkElement(el: Option<Node>): (t: Trace)
    ensures AllIdentifiers(t.appended)
    decreases el
  {
    match el
    case None => Nothing
    case Some(e) => Walk(e)
  }

  /** The `forEach` over `properties`: only a property's `value` is walked;
      an object-rest entry has no `value`, and the recursive call on
      `undefined` fails the check at index.js:14. */
  function WalkProperties(ps: seq<Prop>): (t: Trace)
    ensures AllIdentifiers(t.appended)
    decreases ps
  {
    if ps == [] then Nothing else Then(WalkProperty(ps[0]), WalkProperties(ps[1..]))
  }

  function WalkProperty(p: Prop): (t: Trace)
    ensures AllIdentifiers(t.appended)
    decreases p
  {
    match p
    case Property(_, v) => Walk(v)
    case RestEntry(_) => Trace([], true)
  }
}
