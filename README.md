# get-assigned-identifiers, modelled in Dafny

`get-assigned-identifiers` exports one function, `getAssignedIdentifiers(node, identifiers)`
(index.js:13-43). It takes an ESTree binding-pattern node, such as the `id` of a variable
declarator, and collects the `Identifier` nodes that the pattern binds. It pushes them
onto an array that the caller may supply. The walk is depth first and left to right.
Each call first checks that `node` is an object with a string `type`. It then unwraps one
`RestElement`, recurses into the `elements` of an `ArrayPattern` (skipping holes) and the
property `value`s of an `ObjectPattern`, and pushes an `Identifier`.

The project has five files:

- `estree.dfy` (module `Estree`): the nodes. `Node` has the cases `Identifier`,
  `ArrayPattern` (a `None` element is a hole), `ObjectPattern`, `RestElement`, `Other`
  (every other node type, e.g. `AssignmentPattern` or `ImportDeclaration`) and `Untyped`
  (a value that is not an object, or an object without a string `type`). `Prop` is
  either a `Property` with a key and a value or a `RestEntry`, the object-rest element
  that acorn puts in `properties` and that has no `value`.
- `assigned_spec.dfy` (module `AssignedSpec`): the walk as pure functions. A `Trace`
  holds the nodes one call appends and whether the call throws. A throw part-way through
  a pattern leaves what was already pushed in the caller's array, and the trace keeps it.
- `assigned_props.dfy` (module `AssignedProps`): the properties of the walk. It also
  holds a reference reading that does not depend on the walk: `Bound` (the identifier
  leaves the pattern binds, read straight off the tree), `WellFormed` (every shape check
  on the way passes) and `Subpatterns` (the nodes in pattern position; keys are not
  included).
- `get_assigned_identifiers.dfy` (module `IdentifierWalker`): the function as it runs.
  The class `IdentifierList` is the shared array. `GetAssignedIdentifiers` is the
  recursive procedure, and the two `forEach` loops are `while` loops with invariants.
  Each is proved to leave the list equal to its old contents followed by
  `AssignedSpec.Walk`'s appended nodes.
- `examples.dfy` (module `AssignedExamples`): the cases of test/index.js as lemmas.

## Where the code and its tests or description disagree

The model follows index.js.

- **Imports.** index.js has no branch for an `ImportDeclaration`, so the node adds
  nothing and raises nothing. test/index.js:112-125 expects `['x','y','a']` and `['ns']`.
  See `ImportDeclarationBindsNothing`.
- **Object rest.** For `{a, ...b}`, index.js:34 calls itself on `prop.value`. That is
  `undefined` for the rest entry, so the check at index.js:14 throws after `a` has been
  pushed. test/index.js:103-110 expects `['a','b']`. See `ObjectRestThrows` and
  `CallerListAfterObjectRest`.
- **Nested checks.** The shape checks at index.js:14-15 run on every recursive call, not
  only at the root. A malformed node anywhere the walk visits raises an error, and it
  does not degrade silently. See `ThrowsIffMalformed`.
- **Partial results.** A throw does not undo the pushes already made to a caller-supplied
  array. See `GetAssignedIdentifiers`.

## Model

| member | source | states |
|---|---|---|
| `AssignedSpec.Walk` | index.js:13-43 | everything one call appends is an `Identifier` node |
| `AssignedSpec.Classify` | index.js:19-40 | after the rest unwrap, the classified node appends only `Identifier` nodes |
| `AssignedSpec.WalkElements` | index.js:24-29 | the array loop appends only `Identifier` nodes |
| `AssignedSpec.WalkElement` | index.js:24-29 | a hole or an element appends only `Identifier` nodes |
| `AssignedSpec.WalkProperties` | index.js:33-35 | the property loop appends only `Identifier` nodes |
| `AssignedSpec.WalkProperty` | index.js:33-35 | one property appends only `Identifier` nodes |
| `AssignedProps.ElementsConcatenate` | index.js:24-29 | walking elements `a + b` is walking `a`, then, unless it threw, `b` on the same list |
| `AssignedProps.PropertiesConcatenate` | index.js:33-35 | the same for object-pattern entries |
| `AssignedProps.HoleIsSkipped` | index.js:24-29 | a hole anywhere in an array pattern changes neither what is appended nor its order, nor whether it throws |
| `AssignedProps.KeyIsIgnored` | index.js:33-35 | replacing the key of any property leaves the result unchanged; only `value` is walked |
| `AssignedProps.RestIsUnwrappedOnce` | index.js:19-21 | a rest element yields what its argument yields, except that a rest inside a rest or a non-node argument yields nothing and no error |
| `AssignedProps.WalkAgreesWithBound` | index.js:13-43 | on a well-formed pattern the walk does not throw and appends exactly `Bound`, the identifier leaves in depth-first left-to-right order; otherwise it throws after appending a prefix of `Bound` |
| `AssignedProps.ClassifyAgreesWithBound` | index.js:23-40 | the same for the unwrapped node |
| `AssignedProps.ElementsAgreeWithBound` | index.js:24-29 | the same for an element list: the concatenation of the elements' bound leaves |
| `AssignedProps.ElementAgreesWithBound` | index.js:26-28 | the same for a single element or hole |
| `AssignedProps.PropertiesAgreeWithBound` | index.js:33-35 | the same for a property list: the concatenation of the values' bound leaves |
| `AssignedProps.PropertyAgreesWithBound` | index.js:34 | the same for a single entry; a rest entry throws |
| `AssignedProps.BoundAreSubpatterns` | index.js:19-40 | every bound leaf lies in the pattern, in pattern position and never as a key |
| `AssignedProps.AppendsOnlyItsOwnIdentifiers` | index.js:19-40 | every appended node is an `Identifier` in pattern position of the root; on a well-formed pattern the number appended is the number of bound leaves |
| `AssignedProps.ThrowsIffMalformed` | index.js:14-15 | a call throws exactly when some node it visits fails the shape check, including a property entry without a `value` |
| `IdentifierWalker.IdentifierList.constructor` | index.js:17 | a new accumulator is empty |
| `IdentifierWalker.IdentifierList.Push` | index.js:39 | pushing appends one node at the end |
| `IdentifierWalker.GetAssignedIdentifiers` | index.js:13-43 | a supplied list ends as its old contents followed by the walk's appended nodes, even when the call throws; the call throws exactly when the walk does; on success it returns the supplied list, or a fresh list holding exactly the appended nodes |
| `IdentifierWalker.ForEachElement` | index.js:24-29 | the element loop appends the element-list trace to the shared list and reports a throw exactly when one occurs |
| `IdentifierWalker.VisitElement` | index.js:25-28 | the `forEach` callback skips a hole and otherwise recurses on the element |
| `IdentifierWalker.ForEachProperty` | index.js:33-35 | the property loop appends the property-list trace and reports a throw exactly when one occurs |
| `IdentifierWalker.VisitProperty` | index.js:34 | the callback recurses on `value`; a rest entry throws and appends nothing |
| `AssignedExamples.DestructuringExample` | test/index.js:14-27 | `{ a, b: [ c,, ...x ], d }` yields a, c, x, d |
| `AssignedExamples.SimpleIdentifier` | test/index.js:29-36 | `xyz` yields xyz |
| `AssignedExamples.PlainArray` | test/index.js:38-45 | `[a, b, c]` yields a, b, c |
| `AssignedExamples.ArrayWithRest` | test/index.js:47-54 | `[a, b, ...rest]` yields a, b, rest |
| `AssignedExamples.ArrayWithHoles` | test/index.js:56-63 | `[a, b,,,,,, boop]` yields a, b, boop |
| `AssignedExamples.NestedArrays` | test/index.js:65-72 | `[a, [[[b]], ...c], boop]` yields a, b, c, boop |
| `AssignedExamples.ShorthandObject` | test/index.js:74-81 | `{a, b}` yields a, b |
| `AssignedExamples.RenamedProperties` | test/index.js:83-90 | `{a: b, b: lol}` yields b, lol |
| `AssignedExamples.NestedObjects` | test/index.js:92-101 | `{a: {b}, b: lol, c: {d, e: {f: g}}}` yields b, lol, d, g |
| `AssignedExamples.ObjectRestThrows` | test/index.js:103-110 | `{a, ...b}` pushes a and then throws, which is not what the test expects |
| `AssignedExamples.CallerListAfterObjectRest` | index.js:33-35 | a caller's list holding `seed` ends as seed, a after walking `{a, ...b}` throws |
| `AssignedExamples.ImportDeclarationBindsNothing` | test/index.js:112-125 | an import declaration yields nothing, which is not what the test expects |
| `AssignedExamples.NonNodeThrows` | index.js:14-15 | a non-node throws before anything is pushed |

## Left out

- The `assert` module's messages and the exception's type (index.js:1, index.js:14-15).
  Every failed check is the single error `Malformed`.
- JavaScript's distinctions among non-nodes are not kept: `null` passes `typeof ===
  'object'` but then fails on `.type`; an object has a non-string `type`; a primitive.
  All of them are `Untyped`, and at a checked position every one of them throws.
- A `RestElement` whose `argument` is `null` or `undefined` is not modelled. JavaScript
  would throw a TypeError when it reads `.type`. The model treats every non-node rest
  argument like a typeless object, which adds nothing. Acorn never builds such a node.
- Array elements: every falsy element (`null`, `undefined`, `0`, `''`) is a hole
  (`None`). A truthy non-node element is `Some(Untyped)`.
- An `identifiers` argument that is truthy but not an array is not modelled. A null list
  stands for any falsy argument, which `identifiers || []` replaces with a new array.
- Node identity: JavaScript pushes references to the tree's own node objects, and the
  model pushes node values. Two equal identifier nodes cannot be told apart.
- Parsing source text into nodes (acorn, used by test/index.js:6) is not part of this
  model.
- Extracting import-clause bindings and correct object-rest bindings. The tests expect
  both (test/index.js:103-125), but index.js does not implement them. The model gives
  what index.js does.
- The tape harness of test/index.js:1-12. Its cases appear only as example lemmas.
