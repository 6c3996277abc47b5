/** index.js:13-43 as the JavaScript runs it: one recursive procedure that
    pushes onto an accumulator shared by reference with its caller and with
    every recursive call, proved against `AssignedSpec.Walk`. */
module IdentifierWalker {
  import opened Estree
  import opened AssignedSpec
  import AssignedProps

  /** The JavaScript array the identifiers are pushed onto. */
  class IdentifierList {
    var items: seq<Node>

    constructor ()
      ensures items == []
    {
      items := [];
    }

    method Push(n: Node)
      modifies this
      ensures items == old(items) + [n]
    {
      items := items + [n];
    }
  }

  /** `getAssignedIdentifiers(node, identifiers)`. A null `identifiers`
      stands for the argument being omitted; `Err` stands for the assertion
      at index.js:14-15 throwing, here or in any recursive call. Whatever was
      pushed before a throw stays in the caller's list. */
  method GetAssignedIdentifiers(node: Node, identifiers: IdentifierList?) returns (r: Result<IdentifierList>)
    modifies identifiers
    ensures identifiers != null ==> identifiers.items == old(identifiers.items) + Walk(node).appended
    ensures r.Ok? <==> !Walk(node).failed
    ensures r.Ok? && identifiers != null ==> r.value == identifiers
    ensures r.Ok? && identifiers == null ==> fresh(r.value) && r.value.items == Walk(node).appended
    decreases node
  {
    if node.Untyped? {
      return Err(Malformed);
    }

    var acc: IdentifierList;
    if identifiers != null {
      acc := identifiers;
    } else {
      acc := new IdentifierList();
    }
    ghost var start := acc.items;

    var n := node;
    if n.RestElement? {
      n := n.argument;
    }
    assert Walk(node) == Classify(n);

    if n.ArrayPattern? {
      var ok := ForEachElement(n.elements, acc);
      if !ok {
        return Err(Malformed);
      }
    }

    if n.ObjectPattern? {
      var ok := ForEachProperty(n.properties, acc);
      if !ok {
        return Err(Malformed);
      }
    }

    if n.Identifier? {
      acc.Push(n);
    }

    return Ok(acc);
  }

  /** `node.elements.forEach(...)` (index.js:24-29); `ok` is false when a
      recursive call threw, which ends the loop. */
  method ForEachElement(els: seq<Option<Node>>, acc: IdentifierList) returns (ok: bool)
    modifies acc
    ensures acc.items == old(acc.items) + WalkElements(els).appended
    ensures ok <==> !WalkElements(els).failed
    decreases els, 1
  {
    var i := 0;
    while i < |els|
      invariant 0 <= i <= |els|
      invariant acc.items == old(acc.items) + WalkElements(els[..i]).appended
      invariant !WalkElements(els[..i]).failed
    {
      AssignedProps.ElementsConcatenate(els[..i], [els[i]]);
      assert els[..i + 1] == els[..i] + [els[i]];
      AssignedProps.ThenNothing(WalkElement(els[i]));
      ok := VisitElement(els[i], acc);
      if !ok {
        AssignedProps.ElementsConcatenate(els[..i + 1], els[i + 1..]);
        assert els[..i + 1] + els[i + 1..] == els;
        return;
      }
      i := i + 1;
    }
    assert els[..i] == els;
    return true;
  }

  /** The `forEach` callback: a hole (`null`) is skipped. */
  method VisitElement(el: Option<Node>, acc: IdentifierList) returns (ok: bool)
    modifies acc
    ensures acc.items == old(acc.items) + WalkElement(el).appended
    ensures ok <==> !WalkElement(el).failed
    decreases el
  {
    ok := true;
    if el.Some? {
      var sub := GetAssignedIdentifiers(el.value, acc);
      ok := sub.Ok?;
    }
  }

  /** `node.properties.forEach(...)` (index.js:33-35). */
  method ForEachProperty(ps: seq<Prop>, acc: IdentifierList) returns (ok: bool)
    modifies acc
    ensures acc.items == old(acc.items) + WalkProperties(ps).appended
    ensures ok <==> !WalkProperties(ps).failed
    decreases ps, 1
  {
    var i := 0;
    while i < |ps|
      invariant 0 <= i <= |ps|
      invariant acc.items == old(acc.items) + WalkProperties(ps[..i]).appended
      invariant !WalkProperties(ps[..i]).failed
    {
      AssignedProps.PropertiesConcatenate(ps[..i], [ps[i]]);
      assert ps[..i + 1] == ps[..i] + [ps[i]];
      AssignedProps.ThenNothing(WalkProperty(ps[i]));
      ok := VisitProperty(ps[i], acc);
      if !ok {
        AssignedProps.PropertiesConcatenate(ps[..i + 1], ps[i + 1..]);
        assert ps[..i + 1] + ps[i + 1..] == ps;
        return;
      }
      i := i + 1;
    }
    assert ps[..i] == ps;
    return true;
  }

  /** The `forEach` callback: only `prop.value` is walked. An object-rest
      entry has no `value`, so the call on `undefined` fails the check at
      index.js:14 before touching the list. */
  method VisitProperty(p: Prop, acc: IdentifierList) returns (ok: bool)
    modifies acc
    ensures acc.items == old(acc.items) + WalkProperty(p).appended
    ensures ok <==> !WalkProperty(p).failed
    decreases p
  {
    if p.Property? {
      var sub := GetAssignedIdentifiers(p.value, acc);
      ok := sub.Ok?;
    } else {
      ok := false;
    }
  }
}
