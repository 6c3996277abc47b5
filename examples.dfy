/** The cases of test/index.js, as acorn builds their nodes, with what the
    walk of index.js yields for each. A shorthand property `{a}` has a key
    and a value that are both the identifier `a`. */
module AssignedExamples {
  import opened Estree
  import opened AssignedSpec
  import opened IdentifierWalker

  function Id(name: string): Node {
    Identifier(name)
  }

  function Shorthand(name: string): Prop {
    Property(Id(name), Id(name))
  }

  /** `var { a, b: [ c,, ...x ], d } = whatever()` binds a, c, x, d. */
  lemma DestructuringExample()
    ensures Walk(ObjectPattern([
              Shorthand("a"),
              Property(Id("b"), ArrayPattern([Some(Id("c")), None, Some(RestElement(Id("x")))])),
              Shorthand("d")]))
         == Trace([Id("a"), Id("c"), Id("x"), Id("d")], false)
  {
  }

  /** `var xyz = whatever()` binds xyz. */
  lemma SimpleIdentifier()
    ensures Walk(Id("xyz")) == Trace([Id("xyz")], false)
  {
  }

  /** `var [a, b, c] = whatever()` binds a, b, c. */
  lemma PlainArray()
    ensures Walk(ArrayPattern([Some(Id("a")), Some(Id("b")), Some(Id("c"))]))
         == Trace([Id("a"), Id("b"), Id("c")], false)
  {
  }

  /** `var [a, b, ...rest] = whatever()` binds a, b, rest. */
  lemma ArrayWithRest()
    ensures Walk(ArrayPattern([Some(Id("a")), Some(Id("b")), Some(RestElement(Id("rest")))]))
         == Trace([Id("a"), Id("b"), Id("rest")], false)
  {
  }

  /** `var [a, b,,,,,, boop] = whatever()` binds a, b, boop. */
  lemma ArrayWithHoles()
    ensures Walk(ArrayPattern([Some(Id("a")), Some(Id("b")), None, None, None, None, None, Some(Id("boop"))]))
         == Trace([Id("a"), Id("b"), Id("boop")], false)
  {
  }

  /** `var [a, [[[b]], ...c], boop] = whatever()` binds a, b, c, boop. */
  lemma NestedArrays()
    ensures Walk(ArrayPattern([
              Some(Id("a")),
              Some(ArrayPattern([
                Some(ArrayPattern([Some(ArrayPattern([Some(Id("b"))]))])),
                Some(RestElement(Id("c")))])),
              Some(Id("boop"))]))
         == Trace([Id("a"), Id("b"), Id("c"), Id("boop")], false)
  {
    var inner := ArrayPattern([Some(ArrayPattern([Some(Id("b"))]))]);
    assert Walk(inner) == Trace([Id("b")], false);
    assert WalkElements([Some(RestElement(Id("c")))]) == Trace([Id("c")], false);
    var middle := ArrayPattern([Some(inner), Some(RestElement(Id("c")))]);
    assert middle.elements[1..] == [Some(RestElement(Id("c")))];
    assert WalkElements(middle.elements) == Then(Trace([Id("b")], false), Trace([Id("c")], false));
    assert [Id("b")] + [Id("c")] == [Id("b"), Id("c")];
    assert Walk(middle) == Trace([Id("b"), Id("c")], false);
  }

  /** `var {a, b} = whatever()` binds a, b. */
  lemma ShorthandObject()
    ensures Walk(ObjectPattern([Shorthand("a"), Shorthand("b")])) == Trace([Id("a"), Id("b")], false)
  {
  }

  /** `var {a: b, b: lol} = whatever()` binds the values b, lol. */
  lemma RenamedProperties()
    ensures Walk(ObjectPattern([Property(Id("a"), Id("b")), Property(Id("b"), Id("lol"))]))
         == Trace([Id("b"), Id("lol")], false)
  {
  }

  /** `var {a: {b}, b: lol, c: {d, e: {f: g}}} = whatever()` binds b, lol, d, g. */
  lemma NestedObjects()
    ensures Walk(ObjectPattern([
              Property(Id("a"), ObjectPattern([Shorthand("b")])),
              Property(Id("b"), Id("lol")),
              Property(Id("c"), ObjectPattern([
                Shorthand("d"),
                Property(Id("e"), ObjectPattern([Property(Id("f"), Id("g"))]))]))]))
         == Trace([Id("b"), Id("lol"), Id("d"), Id("g")], false)
  {
    var e := ObjectPattern([Property(Id("f"), Id("g"))]);
    assert Walk(e) == Trace([Id("g")], false);
    assert WalkProperties([Property(Id("e"), e)]) == Trace([Id("g")], false);
    var c := ObjectPattern([Shorthand("d"), Property(Id("e"), e)]);
    assert c.properties[1..] == [Property(Id("e"), e)];
    assert WalkProperties(c.properties) == Then(Trace([Id("d")], false), Trace([Id("g")], false));
    assert [Id("d")] + [Id("g")] == [Id("d"), Id("g")];
    assert Walk(c) == Trace([Id("d"), Id("g")], false);
  }

  /** `var {a, ...b} = whatever()`: a is pushed, then the rest entry, which
      has no `value`, makes the recursive call throw. b is never reached. */
  lemma ObjectRestThrows()
    ensures Walk(ObjectPattern([Shorthand("a"), RestEntry(Id("b"))])) == Trace([Id("a")], true)
  {
  }

  /** `import x, { y, z as a } from 'module'` and `import * as ns from 'module'`:
      there is no branch for an import declaration, so nothing is bound. */
  lemma ImportDeclarationBindsNothing()
    ensures Walk(Other("ImportDeclaration")) == Nothing
  {
  }

  /** A value that is not a node is refused before anything is pushed. */
  lemma NonNodeThrows()
    ensures Walk(Untyped) == Trace([], true)
  {
  }

  /** A caller passes its own list holding `seed`, then walks
      `{a, ...b}`: `a` is appended after `seed`, the call throws, and the
      caller's list keeps both. */
  method CallerListAfterObjectRest() returns (threw: bool, items: seq<Node>)
    ensures threw
    ensures items == [Id("seed"), Id("a")]
  {
    var list := new IdentifierList();
    list.Push(Id("seed"));
    ObjectRestThrows();
    var r := GetAssignedIdentifiers(ObjectPattern([Shorthand("a"), RestEntry(Id("b"))]), list);
    threw := r.Err?;
    items := list.items;
  }
}
