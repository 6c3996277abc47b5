/** Properties of the walk of index.js:13-43, stated over `AssignedSpec`. */
module AssignedProps {
  import opened Estree
  import opened AssignedSpec

  // ---------------------------------------------------------------------
  // A reference reading of what a pattern binds, independent of the walk:
  // `Bound` collects identifier leaves without ever throwing, and
  // `WellFormed` says which patterns pass every shape check on the way.
  // ---------------------------------------------------------------------

  function Bound(n: Node): seq<Node>
    decreases n
  {
    match n
    case Identifier(_) => [n]
    case ArrayPattern(els) => BoundElements(els)
    case ObjectPattern(ps) => BoundProperties(ps)
    case RestElement(arg) => if arg.RestElement? then [] else Bound(arg)
    case _ => []
  }

  function BoundElements(els: seq<Option<Node>>): seq<Node>
    decreases els
  {
    if els == [] then [] else BoundElement(els[0]) + BoundElements(els[1..])
  }

  function BoundElement(el: Option<Node>): seq<Node>
    decreases el
  {
    if el.Some? then Bound(el.value) else []
  }

  function BoundProperties(ps: seq<Prop>): seq<Node>
    decreases ps
  {
    if ps == [] then [] else BoundProperty(ps[0]) + BoundProperties(ps[1..])
  }

  function BoundProperty(p: Prop): seq<Node>
    decreases p
  {
    if p.Property? then Bound(p.value) else []
  }

  /** Every node the walk calls itself on is object-shaped with a type, and
      every object-pattern entry has a `value`. */
  predicate WellFormed(n: Node)
    decreases n
  {
    match n
    case Untyped => false
    case ArrayPattern(els) => ElementsWellFormed(els)
    case ObjectPattern(ps) => PropertiesWellFormed(ps)
    case RestElement(arg) => arg.Untyped? || arg.RestElement? || WellFormed(arg)
    case _ => true
  }

  predicate ElementsWellFormed(els: seq<Option<Node>>)
    decreases els
  {
    forall i :: 0 <= i < |els| ==> ElementWellFormed(els[i])
  }

  predicate ElementWellFormed(el: Option<Node>)
    decreases el
  {
    el.Some? ==> WellFormed(el.value)
  }

  predicate PropertiesWellFormed(ps: seq<Prop>)
    decreases ps
  {
    forall i :: 0 <= i < |ps| ==> PropertyWellFormed(ps[i])
  }

  predicate PropertyWellFormed(p: Prop)
    decreases p
  {
    p.Property? && WellFormed(p.value)
  }

  /** The nodes structurally inside `n` in pattern position (elements,
      property values, rest arguments); property keys are not included. */
  function Subpatterns(n: Node): set<Node>
    decreases n
  {
    {n} +
    match n
    case ArrayPattern(els) => ElementsSubpatterns(els)
    case ObjectPattern(ps) => PropertiesSubpatterns(ps)
    case RestElement(arg) => Subpatterns(arg)
    case _ => {}
  }

  function ElementsSubpatterns(els: seq<Option<Node>>): set<Node>
    decreases els
  {
    if els == [] then {}
    else (if els[0].Some? then ElementSubpatterns(els[0]) else {}) + ElementsSubpatterns(els[1..])
  }

  function ElementSubpatterns(el: Option<Node>): set<Node>
    decreases el
  {
    if el.Some? then Subpatterns(el.value) else {}
  }

  function PropertiesSubpatterns(ps: seq<Prop>): set<Node>
    decreases ps
  {
    if ps == [] then {} else PropertySubpatterns(ps[0]) + PropertiesSubpatterns(ps[1..])
  }

  function PropertySubpatterns(p: Prop): set<Node>
    decreases p
  {
    match p
    case Property(_, v) => Subpatterns(v)
    case RestEntry(arg) => Subpatterns(arg)
  }

  // ---------------------------------------------------------------------
  // Sequencing: a pattern's trace is its children's traces in order.
  // ---------------------------------------------------------------------

  lemma ThenAssociative(a: Trace, b: Trace, c: Trace)
    ensures Then(Then(a, b), c) == Then(a, Then(b, c))
  {
  }

  lemma ThenNothing(a: Trace)
    ensures Then(a, Nothing) == a
  {
  }

  /** Walking the elements `a + b` walks those of `a`, then, unless one of
      them threw, those of `b`, on the same accumulator. */
  lemma {:induction false} ElementsConcatenate(a: seq<Option<Node>>, b: seq<Option<Node>>)
    ensures WalkElements(a + b) == Then(WalkElements(a), WalkElements(b))
    decreases a
  {
    if a == [] {
      assert a + b == b;
    } else {
      assert (a + b)[1..] == a[1..] + b;
      ElementsConcatenate(a[1..], b);
      ThenAssociative(WalkElement(a[0]), WalkElements(a[1..]), WalkElements(b));
    }
  }

  /** The same for the entries of an object pattern. */
  lemma {:induction false} PropertiesConcatenate(a: seq<Prop>, b: seq<Prop>)
    ensures WalkProperties(a + b) == Then(WalkProperties(a), WalkProperties(b))
    decreases a
  {
    if a == [] {
      assert a + b == b;
    } else {
      assert (a + b)[1..] == a[1..] + b;
      PropertiesConcatenate(a[1..], b);
      ThenAssociative(WalkProperty(a[0]), WalkProperties(a[1..]), WalkProperties(b));
    }
  }

  /** A hole contributes nothing and does not disturb what comes after it. */
  lemma HoleIsSkipped(a: seq<Option<Node>>, b: seq<Option<Node>>)
    ensures Walk(ArrayPattern(a + [None] + b)) == Walk(ArrayPattern(a + b))
  {
    ElementsConcatenate(a + [None], b);
    ElementsConcatenate(a, [None]);
    ElementsConcatenate(a, b);
    assert WalkElements([None]) == Nothing;
    ThenNothing(WalkElements(a));
  }

  /** Only a property's value is walked: replacing the key of any property
      leaves the trace unchanged. */
  lemma {:induction false} KeyIsIgnored(ps: seq<Prop>, i: nat, key: Node)
    requires i < |ps| && ps[i].Property?
    ensures Walk(ObjectPattern(ps[i := Property(key, ps[i].value)])) == Walk(ObjectPattern(ps))
    decreases i
  {
    var qs := ps[i := Property(key, ps[i].value)];
    if i == 0 {
      assert qs[1..] == ps[1..];
      assert WalkProperty(qs[0]) == WalkProperty(ps[0]);
    } else {
      KeyIsIgnored(ps[1..], i - 1, key);
      assert qs[1..] == ps[1..][i - 1 := Property(key, ps[i].value)];
      assert qs[0] == ps[0];
    }
    assert WalkProperties(qs) == WalkProperties(ps);
  }

  /** A rest element is unwrapped once, without a shape check on its
      argument; a rest directly inside a rest binds nothing. */
  lemma RestIsUnwrappedOnce(arg: Node)
    ensures Walk(RestElement(arg)) == if arg.RestElement? || arg.Untyped? then Nothing else Walk(arg)
  {
  }

  // ---------------------------------------------------------------------
  // The walk against the reference reading.
  // ---------------------------------------------------------------------

  /** A well-formed pattern is walked without a throw and yields exactly its
      bound identifiers; a malformed one throws, after appending a prefix of
      them. */
  lemma {:induction false} WalkAgreesWithBound(n: Node)
    ensures WellFormed(n) ==> Walk(n) == Trace(Bound(n), false)
    ensures !WellFormed(n) ==> Walk(n).failed && Walk(n).appended <= Bound(n)
    decreases n, 1
  {
    if n.RestElement? {
      if !n.argument.RestElement? && !n.argument.Untyped? {
        ClassifyAgreesWithBound(n.argument);
      }
    } else if !n.Untyped? {
      ClassifyAgreesWithBound(n);
    }
  }

  lemma {:induction false} ClassifyAgreesWithBound(n: Node)
    requires !n.Untyped? && !n.RestElement?
    ensures WellFormed(n) ==> Classify(n) == Trace(Bound(n), false)
    ensures !WellFormed(n) ==> Classify(n).failed && Classify(n).appended <= Bound(n)
    decreases n, 0
  {
    match n
    case ArrayPattern(els) => ElementsAgreeWithBound(els);
    case ObjectPattern(ps) => PropertiesAgreeWithBound(ps);
    case _ =>
  }

  lemma {:induction false} ElementsAgreeWithBound(els: seq<Option<Node>>)
    ensures ElementsWellFormed(els) ==> WalkElements(els) == Trace(BoundElements(els), false)
    ensures !ElementsWellFormed(els) ==> WalkElements(els).failed && WalkElements(els).appended <= BoundElements(els)
    decreases els
  {
    if els != [] {
      var rest := els[1..];
      assert ElementsWellFormed(els) <==> ElementWellFormed(els[0]) && ElementsWellFormed(rest) by {
        assert forall i :: 0 <= i < |rest| ==> rest[i] == els[i + 1];
      }
      ElementAgreesWithBound(els[0]);
      ElementsAgreeWithBound(rest);
      PrefixOfConcat(WalkElement(els[0]), WalkElements(rest), BoundElement(els[0]), BoundElements(rest));
    }
  }

  lemma {:induction false} PropertiesAgreeWithBound(ps: seq<Prop>)
    ensures PropertiesWellFormed(ps) ==> WalkProperties(ps) == Trace(BoundProperties(ps), false)
    ensures !PropertiesWellFormed(ps) ==> WalkProperties(ps).failed && WalkProperties(ps).appended <= BoundProperties(ps)
    decreases ps
  {
    if ps != [] {
      var rest := ps[1..];
      assert PropertiesWellFormed(ps) <==> PropertyWellFormed(ps[0]) && PropertiesWellFormed(rest) by {
        assert forall i :: 0 <= i < |rest| ==> rest[i] == ps[i + 1];
      }
      PropertyAgreesWithBound(ps[0]);
      PropertiesAgreeWithBound(rest);
      PrefixOfConcat(WalkProperty(ps[0]), WalkProperties(rest), BoundProperty(ps[0]), BoundProperties(rest));
    }
  }

  lemma {:induction false} ElementAgreesWithBound(el: Option<Node>)
    ensures ElementWellFormed(el) ==> WalkElement(el) == Trace(BoundElement(el), false)
    ensures !ElementWellFormed(el) ==> WalkElement(el).failed && WalkElement(el).appended <= BoundElement(el)
    decreases el
  {
    if el.Some? {
      WalkAgreesWithBound(el.value);
    }
  }

  lemma {:induction false} PropertyAgreesWithBound(p: Prop)
    ensures PropertyWellFormed(p) ==> WalkProperty(p) == Trace(BoundProperty(p), false)
    ensures !PropertyWellFormed(p) ==> WalkProperty(p).failed && WalkProperty(p).appended <= BoundProperty(p)
    decreases p
  {
    if p.Property? {
      WalkAgreesWithBound(p.value);
    }
  }

  /** The step shared by the two loops above: if each trace is a prefix of
      its bound list, and a complete one when it did not throw, the same holds
      for running them in sequence. */
  lemma PrefixOfConcat(a: Trace, b: Trace, ba: seq<Node>, bb: seq<Node>)
    requires a.appended <= ba && (!a.failed ==> a.appended == ba)
    requires b.appended <= bb && (!b.failed ==> b.appended == bb)
    ensures Then(a, b).appended <= ba + bb
    ensures !Then(a, b).failed ==> Then(a, b).appended == ba + bb
  {
  }

  /** The bound identifiers of a pattern are nodes of that pattern, never a
      property key. */
  lemma {:induction false} BoundAreSubpatterns(n: Node)
    ensures forall x :: x in Bound(n) ==> x in Subpatterns(n)
    decreases n
  {
    match n
    case ArrayPattern(els) => BoundElementsAreSubpatterns(els);
    case ObjectPattern(ps) => BoundPropertiesAreSubpatterns(ps);
    case RestElement(arg) => if !arg.RestElement? { BoundAreSubpatterns(arg); }
    case _ =>
  }

  lemma {:induction false} BoundElementsAreSubpatterns(els: seq<Option<Node>>)
    ensures forall x :: x in BoundElements(els) ==> x in ElementsSubpatterns(els)
    decreases els
  {
    if els != [] {
      BoundElementIsSubpatterns(els[0]);
      BoundElementsAreSubpatterns(els[1..]);
    }
  }

  lemma {:induction false} BoundElementIsSubpatterns(el: Option<Node>)
    ensures forall x :: x in BoundElement(el) ==> x in ElementSubpatterns(el)
    decreases el
  {
    if el.Some? {
      BoundAreSubpatterns(el.value);
    }
  }

  lemma {:induction false} BoundPropertiesAreSubpatterns(ps: seq<Prop>)
    ensures forall x :: x in BoundProperties(ps) ==> x in PropertiesSubpatterns(ps)
    decreases ps
  {
    if ps != [] {
      BoundPropertyIsSubpatterns(ps[0]);
      BoundPropertiesAreSubpatterns(ps[1..]);
    }
  }

  lemma {:induction false} BoundPropertyIsSubpatterns(p: Prop)
    ensures forall x :: x in BoundProperty(p) ==> x in PropertySubpatterns(p)
    decreases p
  {
    if p.Property? {
      BoundAreSubpatterns(p.value);
    }
  }

  /** Every node the walk appends is an `Identifier` inside the pattern, in
      pattern position; on a well-formed pattern the number appended is the
      number of identifier leaves the pattern binds. */
  lemma AppendsOnlyItsOwnIdentifiers(n: Node)
    ensures forall x :: x in Walk(n).appended ==> IsIdentifier(x) && x in Subpatterns(n)
    ensures WellFormed(n) ==> |Walk(n).appended| == |Bound(n)|
  {
    WalkAgreesWithBound(n);
    BoundAreSubpatterns(n);
    forall x | x in Walk(n).appended
      ensures x in Bound(n)
    {
      var i :| 0 <= i < |Walk(n).appended| && Walk(n).appended[i] == x;
      assert Bound(n)[i] == x;
    }
  }

  /** The walk throws exactly on malformed input. */
  lemma ThrowsIffMalformed(n: Node)
    ensures Walk(n).failed <==> !WellFormed(n)
  {
    WalkAgreesWithBound(n);
  }
}
