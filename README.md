# dash-extensions-js: prop resolver and layout renderers in Dafny

This project models the JavaScript adapter that turns a serialized Dash
layout (a tree of `{namespace, type, props}` nodes) into UI elements, and
that resolves two special prop encodings along the way:

- `{variable: "a.b.c"}` names a value reachable from the global `window`
  object. A function found there, with a truthy context, is wrapped so that
  every call gets the context as an extra last argument.
- `{arrow: v}` stands for a function that returns `v` whatever it is
  called with.

The model is written over a `JsVal` datatype of JavaScript values (module
`JsValues`). That module also holds the language semantics the adapter
relies on: truthiness, `typeof`, the class tag, own-property lookup, which
throws on `null` and `undefined`, property-key conversion, and
`String.prototype.split(".")`. Closures are data. `ConstFn(v)` is
`(...args) => v`, `BoundFn(f, ctx)` is `(...args) => f(...args, ctx)`, and
`Apply` gives their call behaviour. The `window` global is an explicit
`JsVal` parameter.

- `Resolver` models `isPlainObject`, `isFunction`, `resolveProp`,
  `resolveVariable`, `getDescendantProp` and `resolveProps` of
  src/index.js. The root index.js holds a character-for-character copy of
  these functions (index.js:4-60), so this module models both files. The
  loop of `getDescendantProp` is the method `GetDescendantProp`, proved
  against the function `DescendantProp` (the recursion `Walk` over the
  split path). The copy-then-update loop of `resolveProps` is the method
  `ResolveProps`, proved against the fold `ResolvedProps`.
- `Renderer` models `renderDashComponent` and `renderDashComponents` of
  src/index.js. The registry lookup, `isSimpleComponent`, `stringifyId`
  and `NOT_LOADING` come from a module whose source is not part of this
  model, so they are fields of a `Host` record. The rendered element is
  the record `Checked(...)`. `renderDashComponents` rewrites the caller's
  object in place, so that object is the class `PropsObject`, and the
  method `RenderDashComponents` is proved against the function
  `RenderedProps`. That function also says what the object holds when a
  rendering throws part-way through the loop.
- `LegacyRenderer` models the older `renderDashComponent` of the root
  index.js. That function writes a missing `props.key` into the layout it
  was given. The write is modelled on values: `RenderLegacy` returns what
  was produced (or thrown) together with the layout as it stands
  afterwards.

Behaviour of the code a reader might not expect (the model follows the
code):

- `getDescendantProp` stops at the first falsy intermediate value (`0`,
  `""`, `false`, `null`), not only at a missing one, and returns that
  value.
- `resolveProp(undefined)` throws a `TypeError`: `isPlainObject` reads
  `o.constructor` after testing only for `null`, arrays and functions. It
  does not return `undefined` unchanged.
- A non-string truthy `variable` makes `desc.split` throw a `TypeError`.
- The "No match" error is a plain `Error` in the code. Here it is
  `LookupError` with the code's exact message.
- `resolveProps` re-reads the current copy for every listed name. A name
  listed twice is therefore resolved twice (`ListedTwiceResolvesTwice`).
- The root index.js renderer mutates its input layout. The renderer of
  src/index.js does not: its `props.id` write goes to the fresh `dissoc`
  copy.
- The empty array renders to `null` in src/index.js, because `isEmpty` is
  tested first. It renders to `[]` in the root index.js, because arrays
  are tested first there.

## Model

Rows whose third column starts with "definition" name a function with no
`ensures` of its own: its body is the model of the cited lines, and the
lemmas and methods named in the row state what it promises.

| member | source | states |
|---|---|---|
| `Resolver.IsPlainObject` | src/index.js:11-15 | throws exactly for `undefined`; otherwise true exactly for ordinary objects, `String` objects and elements, false for `null`, arrays, functions, dates and primitives |
| `Resolver.IsFunction` | src/index.js:17-19 | a truthy value with class tag `Function` is exactly a value whose `typeof` is `"function"` |
| `JsValues.GetProp` | src/index.js:55 | `obj[key]` throws exactly when `obj` is `null` or `undefined`, and otherwise gives the own property or `undefined` |
| `JsValues.Split` | src/index.js:54 | `desc.split(".")` always gives at least one segment; `SplitJoin` and `JoinSplit` state that it inverts joining with dots |
| `JsValues.SplitJoin` | src/index.js:54 | the segments of `desc.split(".")` contain no dot, and joining them with dots gives the path back |
| `JsValues.JoinSplit` | src/index.js:54 | splitting dot-joined, dot-free segments gives the same segments back |
| `JsValues.EnumerableOwnProps` | src/index.js:84 | what `dissoc` copies: an object's own keys, exactly the numerals `0` to length-1 of an array or string (each with the element there), nothing for other primitives, dates and functions; absent exactly for an element record |
| `Resolver.Walk` | src/index.js:55 | definition of the `while` loop; `WalkStopsAtFirstFalsy` and `WalkThrowsOnlyAtRoot` state where it stops and when it throws |
| `Resolver.DescendantProp` | src/index.js:53-57 | definition of `getDescendantProp` as the walk over the split path; `GetDescendantProp` is proved against it |
| `Resolver.GetDescendantProp` | src/index.js:53-57 | the shifting loop returns or throws exactly what `DescendantProp` gives: the walk over the split path |
| `Resolver.WalkStopsAtFirstFalsy` | src/index.js:55 | the result is the value of the first path prefix whose value is falsy, or of the whole path when every intermediate value is truthy |
| `Resolver.WalkThrowsOnlyAtRoot` | index.js:46-50 | the walk throws exactly when the path is non-empty and the root is `null` or `undefined`; later lookups are only made on truthy values |
| `Resolver.VariablePath` | src/index.js:54 | definition of the path `desc.split` works on: a string or `String` object gives its characters, any other truthy `variable` a `TypeError`; `ResolveVariableErrors` states when `resolveVariable` throws |
| `Resolver.ResolveVariable` | src/index.js:38-51 | definition of `resolveVariable`; `NoMatchIffUndefined`, `ResolveVariableErrors`, `ContextIsAppended` and `RawValueWithoutContext` state its cases |
| `Resolver.NoMatchIffUndefined` | src/index.js:40-44 | "No match for [path] in the global window object." is thrown exactly when the value found is `undefined`; `null`, `0`, `false` and `""` are returned as they are |
| `Resolver.ResolveVariableErrors` | index.js:31-44 | `resolveVariable` throws exactly when `split` fails, the walk throws, or the value found is `undefined` |
| `JsValues.Apply` | src/index.js:32-47 | definition of calling the closures `(...args) => prop.arrow` and `(...args) => variable(...args, context)`; `ArrowIgnoresArguments` and `ContextIsAppended` state their call behaviour |
| `Resolver.ContextIsAppended` | src/index.js:46-48 | a function found with a truthy context resolves to a function whose every call is the original called with the arguments followed by the context |
| `Resolver.RawValueWithoutContext` | src/index.js:45-50 | a defined value that is not a function, or any value when the context is falsy, is returned as it is |
| `Resolver.ResolveProp` | src/index.js:21-36 | definition of `resolveProp`; `ResolvePropUnchanged`, `VariableBeforeArrow`, `ArrowIgnoresArguments` and `ResolvePropIdempotent` state its cases |
| `Resolver.ResolvePropUnchanged` | src/index.js:21-36 | `undefined` throws; any other value that is not a plain object, and any value with neither a truthy `variable` nor a truthy `arrow`, resolves to itself |
| `Resolver.VariableBeforeArrow` | index.js:14-22 | a truthy `variable` is resolved as a variable whatever `arrow` holds |
| `Resolver.ArrowIgnoresArguments` | src/index.js:30-35 | a truthy `arrow` gives a function returning `arrow` for every argument list; a falsy `arrow` leaves the object as it is |
| `Resolver.ResolvePropIdempotent` | src/index.js:21-36 | without a truthy `variable`, resolving the result again changes nothing |
| `Resolver.ResolvedProps` | src/index.js:59-67 | definition of the name-by-name update; `ResolveProps` is proved against it, and `ResolvedPropsFrame`, `ResolvedPropsDistinct` and `ListedTwiceResolvesTwice` state what it gives |
| `Resolver.ResolveProps` | src/index.js:59-67 | the copy-and-update loop returns or throws exactly what the fold `ResolvedProps` over the listed names gives |
| `Resolver.ResolvedPropsFrame` | index.js:52-60 | the result has the input's key set; a key that is not listed, or whose value is falsy, keeps its value |
| `Resolver.ResolvedPropsDistinct` | src/index.js:61-65 | for a list without repeats: success exactly when every listed truthy key resolves, and then each such key holds its resolution |
| `Resolver.ListedTwiceResolvesTwice` | src/index.js:61-65 | a name listed twice is resolved twice: a variable naming an arrow object becomes a function after the second pass |
| `Renderer.IsEmpty` | src/index.js:71 | definition of ramda's `isEmpty` on the value kinds modelled; `RenderLeaves` states that such values render to `null` |
| `Renderer.CleanProps` | src/index.js:84-92 | the props handed on have the node's prop keys less `children`; an `id` whose class tag is `Object` is replaced by its `stringifyId` string, every other prop keeps its value |
| `Renderer.ExtraProps` | src/index.js:94-97 | definition of the extra props; `SetPropsIsNoOp` states them |
| `Renderer.RenderDashComponent` | src/index.js:69-107 | definition of `renderDashComponent`; `RenderLeaves`, `RenderArray`, `RenderNode`, `RenderPrimitiveProps` and `RenderNodeErrors` state its cases |
| `Renderer.RenderItems` | src/index.js:79-81 | mapping from a position on succeeds exactly when every element does, keeps the length, and puts element i's rendering with index i at position i |
| `Renderer.RenderLeaves` | src/index.js:70-77 | an empty string, array or object renders to `null`; a non-empty value that `isSimpleComponent` accepts renders to itself |
| `Renderer.RenderArray` | src/index.js:78-81 | a non-empty array renders to an array of the same length whose element i is element i rendered with index i; it throws exactly when an element does |
| `Renderer.RenderNode` | src/index.js:82-106 | a node renders to one checked element with the registry's component, `CleanProps` of what `dissoc` copies from its props, its rendered children, exactly the extra props `ExtraProps` (`loading_state` and the no-op `setProps`), its type and the index as key |
| `Renderer.RenderPrimitiveProps` | src/index.js:84-85 | a node whose `props` is a boolean or number still renders, to an element with no props and the rendering of `undefined` as children |
| `Renderer.SetPropsIsNoOp` | src/index.js:93-97 | the extra props are exactly `loading_state` and `setProps`, and `setProps` returns `null` for any arguments |
| `Renderer.RenderNodeErrors` | src/index.js:83-85 | a node throws exactly when the registry throws (with its error), its `props` is `null` or `undefined` (a `TypeError`), its `props` is an element record, or its children throw (with their error) |
| `Renderer.RenderedProps` | src/index.js:109-117 | definition of the loop's effect, including the state left when a rendering throws; `RenderDashComponents` is proved against it, and `RenderedPropsFrame` and `RenderedPropsDistinct` state what it gives |
| `Renderer.RenderDashComponents` | src/index.js:109-117 | the object is rewritten in place to the state `RenderedProps` gives, and the same object is returned unless a rendering threw |
| `Renderer.RenderedPropsFrame` | src/index.js:109-117 | no key is added or removed, and an unlisted key keeps its value, even when the loop threw |
| `Renderer.RenderedPropsDistinct` | src/index.js:110-115 | for a list without repeats: the loop completes exactly when every listed own key renders, and then each holds its rendering |
| `LegacyRenderer.ElementType` | index.js:81 | definition of `window[component.namespace][component.type]`; `ElementTypeIgnoresProps` states that it does not depend on the props |
| `LegacyRenderer.WithKey` | index.js:76-78 | definition of the key write; `WithKeyStable` states that it writes once, and `LegacyKeyWritten` what it does to the layout |
| `LegacyRenderer.RenderLegacy` | index.js:62-84 | definition of the older `renderDashComponent` with its writes; `LegacyArrays`, `LegacyLeaves` and `LegacyRenderIdempotent` state its cases |
| `LegacyRenderer.RenderLegacyObject` | index.js:75-78 | definition of the key read and write on a node's `props`; `LegacyPropsErrors` and `LegacyNodeCase` state its cases |
| `LegacyRenderer.LegacyPropsErrors` | index.js:76-77 | a node whose `props` is `null`, `undefined`, a boolean, number or string throws a `TypeError` at the key read or write, and the layout is left as it was |
| `LegacyRenderer.RenderLegacyNode` | index.js:75-83 | definition of the node case; `LegacyKeyWritten`, `LegacyElement` and `LegacyNodeIdempotent` state it |
| `LegacyRenderer.RenderEach` | index.js:65 | definition of the elementwise renderings, element i with index i; `MapRendered` and `LegacyArrays` state what the array case gives |
| `LegacyRenderer.MapRendered` | index.js:63-66 | the map from a position on keeps the length of the layout, succeeds exactly when every element does, and gives element i's output and rewritten layout at position i |
| `LegacyRenderer.MapStopsAtFirstThrow` | index.js:65 | when element j is the first to throw, the map throws its error, the elements up to j hold their rewritten layouts and those after j are untouched |
| `LegacyRenderer.LegacyArrays` | index.js:63-66 | arrays are tested first, so `[]` renders to `[]`; an array renders elementwise with each position as index and the same length |
| `LegacyRenderer.LegacyLeaves` | index.js:67-74 | `null` and `undefined` render to `undefined`; strings and `String` objects render to themselves; the layout is unchanged |
| `LegacyRenderer.LegacyKeyWritten` | index.js:75-78 | the layout's `props.key` becomes the index when it was `undefined` and keeps its value otherwise, whatever happens next; nothing else of the node but its children changes |
| `LegacyRenderer.LegacyElement` | index.js:79-83 | the element has type `window[namespace][type]`, the props with the key written less `setProps` and `children`, and the rendered children |
| `LegacyRenderer.LegacyRenderIdempotent` | index.js:62-84 | after a successful rendering, rendering the rewritten layout again gives the same elements and writes nothing more |
| `LegacyRenderer.LegacyArrayIdempotent` | index.js:63-66 | an array whose elements render idempotently renders idempotently: the rewritten array renders to the same elements and layout |
| `LegacyRenderer.LegacyNodeIdempotent` | index.js:75-83 | a node rendered once renders again, from its rewritten layout, to the same element and the same layout |

## Left out

- The validating wrapper `CheckedComponent`, its prop-type checks and error-message rewriting, and `Registry.resolve`, `isSimpleComponent`, `stringifyId` and `NOT_LOADING` come from `./dashSnippets`, which is not part of this model. They are the uninterpreted `Host` fields. So the registry's "namespace not found" and "type not found" errors, and the canonical form of object ids, are not stated.
- React element creation is the plain records `Checked` and `Created`. React's own handling of `key` (string conversion, `null` for `undefined`) is not modelled.
- The browser `window` is a read-only `JsVal` parameter.
- Calls into host functions are the `native` callback of `JsValues.Apply`, which may return a result or an error. Async and generator functions (class tags other than `Function`) are not modelled.
- Property lookup covers own properties only: object keys, array and string indices, and `length`. Prototype members (`constructor`, `toString`, `split`, ...) read as `undefined`. So an object whose own `constructor` is `Date`, or a `variable` object with its own `split` method, is not modelled. A listed prop name such as `toString` is not modelled either (in JavaScript it would add an own key).
- `JsValues.OwnProp` reads a function's own `length` and `name`, and an element record's own `type`, `props` and `key`, as `undefined`.
- Strings are sequences of Unicode scalar values: `length` and indices count those, not UTF-16 code units, so a string outside the Basic Multilingual Plane has a different length here.
- Numbers are integers. Floating point, `NaN` and `-0` are not modelled.
- Closures capture values. `(...args) => prop.arrow` in the source reads `prop.arrow` when called, so a later mutation of `prop` would change the result. The model fixes the value at resolution time.
- `resolveProps` takes its props as a map value. `Object.assign` on a non-object argument is not modelled. The caller's object cannot change in this model, which is the source's promise.
- `LegacyRenderer.RenderLegacy`: the write of `props.key` is modelled on values. Aliasing is not captured, so a node object shared by two places in a layout, or visible through other references, is not modelled.
- `Renderer.RenderDashComponent`: a node whose `props` is an element record is an `Unmodelled` error, because the fields of a React element are not part of `JsVal`. Every other kind of `props` is copied as `dissoc` copies it: primitives and dates give no props, arrays and strings give one prop per index.
- `LegacyRenderer.RenderLegacyObject`: a node whose `props` is an array, function, date, `String` object or element is an `Unmodelled` error; JavaScript would write the key onto such an object and `omit` would copy its own properties. Converting an array, date or function `namespace` or `type` to a property key is `Unmodelled` too.
- ramda's `isEmpty` is modelled for the value kinds of `JsVal` only (no typed arrays or `arguments` objects).
- That the root index.js exports only `resolveProp`, `resolveProps` and `getDescendantProp`, keeping its `renderDashComponent` module-internal, is not expressed: module visibility is not modelled.
- webpack.config.js is build configuration with no logic.
