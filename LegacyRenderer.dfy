/** The older renderer of the root index.js (lines 62-84). It tests arrays
    first, turns `null` and `undefined` into `undefined`, passes strings
    through, and writes a missing `props.key` into the layout it was given.

    That write is modelled on values: rendering returns what it produced
    (or threw) together with the layout as it stands afterwards. */
module LegacyRenderer {
  import opened JsValues

  /** What rendering a layout value produced or threw, and the layout value
      after the writes of `props.key`. */
  datatype Rendered = Rendered(out: Result<JsVal>, layout: JsVal)

  /** The same for the elements of an array from some position on. */
  datatype RenderedItems = RenderedItems(out: Result<seq<JsVal>>, items: seq<JsVal>)

  /** `window[component.namespace][component.type]`. */
  function ElementType(window: JsVal, component: JsVal): Result<JsVal> {
    var namespaceKey :- ToPropertyKey(OwnProp(component, "namespace"));
    var namespace :- GetProp(window, namespaceKey);
    var typeKey :- ToPropertyKey(OwnProp(component, "type"));
    GetProp(namespace, typeKey)
  }

  /** The props of a node after `if (props.key === undefined) props.key = index`. */
  function WithKey(props: map<string, JsVal>, index: JsVal): map<string, JsVal> {
    if OwnProp(Obj(props), "key").Undef? then props["key" := index] else props
  }

  /** `renderDashComponent(component, index)` of the root index.js. */
  function RenderLegacy(component: JsVal, index: JsVal, window: JsVal): Rendered
    decreases IsContainer(component), component, 2
  {
    if component.Arr? then
      var r := MapRendered(RenderEach(component.items, window), component.items, 0);
      Rendered(if r.out.Success? then Success(Arr(r.out.value)) else Failure(r.out.error), Arr(r.items))
    else if IsNullish(component) then Rendered(Success(Undef), component)
    else if component.Str? || component.StrObj? then Rendered(Success(component), component)
    else RenderLegacyObject(component, index, window)
  }

  /** The remaining values: `props.key` is read, and written when it is
      `undefined`; only object props can take the write. */
  function RenderLegacyObject(component: JsVal, index: JsVal, window: JsVal): Rendered
    requires !component.Arr?
    decreases IsContainer(component), component, 1
  {
    match OwnProp(component, "props")
    case Undef => Rendered(Failure(TypeError("Cannot read properties of undefined (reading 'key')")), component)
    case Null => Rendered(Failure(TypeError("Cannot read properties of null (reading 'key')")), component)
    case Bool(_) => Rendered(Failure(TypeError("Cannot create property 'key' on boolean")), component)
    case Num(_) => Rendered(Failure(TypeError("Cannot create property 'key' on number")), component)
    case Str(_) => Rendered(Failure(TypeError("Cannot create property 'key' on string")), component)
    case Obj(props) => RenderLegacyNode(component.fields, props, index, window)
    case _ => Rendered(Failure(Unmodelled("props that are not a plain object")), component)
  }

  /** The node case: write the key, look the element type up in `window`,
      leave `setProps` and `children` out of the element's props and render
      the children (without an index). */
  function RenderLegacyNode(fields: map<string, JsVal>, props: map<string, JsVal>, index: JsVal, window: JsVal): Rendered
    requires "props" in fields && fields["props"] == Obj(props)
    decreases true, Obj(fields), 0
  {
    var keyed := WithKey(props, index);
    var written := Obj(fields["props" := Obj(keyed)]);
    var elementType := ElementType(window, Obj(fields));
    if elementType.Failure? then Rendered(Failure(elementType.error), written)
    else
      var children := RenderLegacy(OwnProp(Obj(keyed), "children"), Undef, window);
      var after := if "children" in keyed
                   then Obj(fields["props" := Obj(keyed["children" := children.layout])])
                   else written;
      if children.out.Failure? then Rendered(Failure(children.out.error), after)
      else Rendered(Success(Elem(Created(elementType.value, keyed - {"setProps", "children"}, children.out.value))), after)
  }

  /** Each element of an array rendered with its position as index. */
  function RenderEach(items: seq<JsVal>, window: JsVal): (rs: seq<Rendered>)
    ensures |rs| == |items|
    ensures forall j {:trigger items[j]} :: 0 <= j < |items| ==> rs[j] == RenderLegacy(items[j], Num(j), window)
    decreases true, Arr(items), 0
  {
    seq(|items|, j requires 0 <= j < |items| => RenderLegacy(items[j], Num(j), window))
  }

  /** `items.map(...)` from position `from` on, given the renderings `rs`
      of the elements: the first rendering that throws stops the map. The
      elements visited keep their writes; those after a throw stay as they
      were. */
  function MapRendered(rs: seq<Rendered>, items: seq<JsVal>, from: nat): (r: RenderedItems)
    requires |rs| == |items| && from <= |items|
    ensures |r.items| == |items| - from
    ensures r.out.Success? <==> forall j :: from <= j < |items| ==> rs[j].out.Success?
    ensures r.out.Success? ==> |r.out.value| == |items| - from
    ensures r.out.Success? ==> forall j :: from <= j < |items| ==>
      r.out.value[j - from] == rs[j].out.value && r.items[j - from] == rs[j].layout
    decreases |items| - from
  {
    if from == |items| then RenderedItems(Success([]), [])
    else if rs[from].out.Failure? then RenderedItems(Failure(rs[from].out.error), [rs[from].layout] + items[from + 1..])
    else
      var rest := MapRendered(rs, items, from + 1);
      RenderedItems(if rest.out.Success? then Success([rs[from].out.value] + rest.out.value) else Failure(rest.out.error),
                    [rs[from].layout] + rest.items)
  }

  /** When element `j` is the first whose rendering throws, the map throws
      its error; the elements up to it hold their rewritten layouts and the
      ones after it are untouched. */
  lemma {:induction false} MapStopsAtFirstThrow(rs: seq<Rendered>, items: seq<JsVal>, from: nat, j: nat)
    requires |rs| == |items| && from <= j < |items|
    requires rs[j].out.Failure? && forall i :: from <= i < j ==> rs[i].out.Success?
    ensures MapRendered(rs, items, from).out == Failure(rs[j].out.error)
    ensures forall i :: from <= i <= j ==> MapRendered(rs, items, from).items[i - from] == rs[i].layout
    ensures MapRendered(rs, items, from).items[j + 1 - from..] == items[j + 1..]
    decreases j - from
  {
    if from < j {
      MapStopsAtFirstThrow(rs, items, from + 1, j);
      var r := MapRendered(rs, items, from);
      var rest := MapRendered(rs, items, from + 1);
      assert r.items == [rs[from].layout] + rest.items;
      assert r.items[j + 1 - from..] == rest.items[j + 1 - (from + 1)..];
    }
  }

  /** Arrays are tested first, so the empty array stays an empty array; an
      array renders element by element with each position as index. */
  lemma LegacyArrays(items: seq<JsVal>, index: JsVal, window: JsVal)
    ensures RenderLegacy(Arr([]), index, window) == Rendered(Success(Arr([])), Arr([]))
    ensures RenderLegacy(Arr(items), index, window).out.Success? <==>
      forall j {:trigger items[j]} :: 0 <= j < |items| ==> RenderLegacy(items[j], Num(j), window).out.Success?
    ensures RenderLegacy(Arr(items), index, window).out.Success? ==>
      && RenderLegacy(Arr(items), index, window).out.value.Arr?
      && |RenderLegacy(Arr(items), index, window).out.value.items| == |items|
      && forall j {:trigger items[j]} :: 0 <= j < |items| ==>
           RenderLegacy(Arr(items), index, window).out.value.items[j] == RenderLegacy(items[j], Num(j), window).out.value
  {
    var rs := RenderEach(items, window);
    assert RenderEach([], window) == [];
  }

  /** `null` and `undefined` render to `undefined`, strings and `String`
      objects to themselves, and the layout is not touched. */
  lemma LegacyLeaves(component: JsVal, index: JsVal, window: JsVal)
    ensures IsNullish(component) ==> RenderLegacy(component, index, window) == Rendered(Success(Undef), component)
    ensures component.Str? || component.StrObj? ==> RenderLegacy(component, index, window) == Rendered(Success(component), component)
  {
  }

  /** A node whose props are an object gets `props.key` set to the index
      when it was `undefined`, in the layout itself, whatever happens next;
      an existing key stays, and nothing else of the node but its children
      changes. */
  lemma LegacyKeyWritten(fields: map<string, JsVal>, props: map<string, JsVal>, index: JsVal, window: JsVal)
    requires "props" in fields && fields["props"] == Obj(props)
    ensures var r := RenderLegacy(Obj(fields), index, window);
      && r.layout.Obj? && r.layout.fields.Keys == fields.Keys
      && (forall k :: k in fields && k != "props" ==> r.layout.fields[k] == fields[k])
      && r.layout.fields["props"].Obj?
      && r.layout.fields["props"].fields.Keys == props.Keys + {"key"}
      && r.layout.fields["props"].fields["key"] == (if OwnProp(Obj(props), "key").Undef? then index else props["key"])
      && (forall k :: k in props && k != "key" && k != "children" ==> r.layout.fields["props"].fields[k] == props[k])
  {
    LegacyNodeCase(fields, props, index, window);
    var keyed := WithKey(props, index);
    assert keyed.Keys == props.Keys + {"key"};
    var r := RenderLegacyNode(fields, props, index, window);
    if ElementType(window, Obj(fields)).Success? && "children" in keyed {
      var children := RenderLegacy(keyed["children"], Undef, window);
      assert r.layout == Obj(fields["props" := Obj(keyed["children" := children.layout])]);
    } else {
      assert r.layout == Obj(fields["props" := Obj(keyed)]);
    }
  }

  /** A node whose props are an object is rendered by `RenderLegacyNode`. */
  lemma LegacyNodeCase(fields: map<string, JsVal>, props: map<string, JsVal>, index: JsVal, window: JsVal)
    requires "props" in fields && fields["props"] == Obj(props)
    ensures RenderLegacy(Obj(fields), index, window) == RenderLegacyNode(fields, props, index, window)
  {
    assert OwnProp(Obj(fields), "props") == Obj(props);
  }

  /** A node whose `props` is `null`, `undefined` or a primitive throws a
      `TypeError` at the key read or write and leaves the layout as it was. */
  lemma LegacyPropsErrors(component: JsVal, index: JsVal, window: JsVal)
    requires !component.Arr? && !IsNullish(component) && !component.Str? && !component.StrObj?
    requires var p := OwnProp(component, "props"); IsNullish(p) || p.Bool? || p.Num? || p.Str?
    ensures RenderLegacy(component, index, window).out.Failure?
    ensures RenderLegacy(component, index, window).out.error.TypeError?
    ensures RenderLegacy(component, index, window).layout == component
  {
  }

  /** The element of a node has the type found in `window` under its
      namespace and type, the node's props (with the key written) less
      `setProps` and `children`, and its rendered children. */
  lemma LegacyElement(fields: map<string, JsVal>, props: map<string, JsVal>, index: JsVal, window: JsVal)
    requires "props" in fields && fields["props"] == Obj(props)
    requires RenderLegacy(Obj(fields), index, window).out.Success?
    ensures ElementType(window, Obj(fields)).Success?
    ensures RenderLegacy(OwnProp(Obj(props), "children"), Undef, window).out.Success?
    ensures RenderLegacy(Obj(fields), index, window).out.value
      == Elem(Created(ElementType(window, Obj(fields)).value,
                      WithKey(props, index) - {"setProps", "children"},
                      RenderLegacy(OwnProp(Obj(props), "children"), Undef, window).out.value))
  {
    LegacyNodeCase(fields, props, index, window);
    assert OwnProp(Obj(WithKey(props, index)), "children") == OwnProp(Obj(props), "children");
  }

  /** Rendering a layout a second time, once the first rendering succeeded,
      produces the same elements and writes nothing more: every key the
      first pass wrote is in place. */
  lemma {:induction false} LegacyRenderIdempotent(component: JsVal, index: JsVal, window: JsVal)
    requires RenderLegacy(component, index, window).out.Success?
    ensures RenderLegacy(RenderLegacy(component, index, window).layout, index, window) == RenderLegacy(component, index, window)
    decreases IsContainer(component), component
  {
    if component.Arr? {
      var items := component.items;
      LegacyArrays(items, index, window);
      forall j | 0 <= j < |items|
        ensures RenderLegacy(RenderLegacy(items[j], Num(j), window).layout, Num(j), window) == RenderLegacy(items[j], Num(j), window)
      {
        LegacyRenderIdempotent(items[j], Num(j), window);
      }
      LegacyArrayIdempotent(items, index, window);
    } else if !IsNullish(component) && !component.Str? && !component.StrObj? {
      var props := OwnProp(component, "props").fields;
      LegacyNodeCase(component.fields, props, index, window);
      LegacyNodeIdempotent(component.fields, props, index, window);
      var layout := RenderLegacyNode(component.fields, props, index, window).layout;
      LegacyNodeCase(layout.fields, layout.fields["props"].fields, index, window);
    }
  }

  /** The array case of `LegacyRenderIdempotent`, given the elements' cases. */
  lemma LegacyArrayIdempotent(items: seq<JsVal>, index: JsVal, window: JsVal)
    requires RenderLegacy(Arr(items), index, window).out.Success?
    requires forall j {:trigger items[j]} :: 0 <= j < |items| ==>
      RenderLegacy(RenderLegacy(items[j], Num(j), window).layout, Num(j), window) == RenderLegacy(items[j], Num(j), window)
    ensures RenderLegacy(RenderLegacy(Arr(items), index, window).layout, index, window) == RenderLegacy(Arr(items), index, window)
  {
    var rs := RenderEach(items, window);
    var r := MapRendered(rs, items, 0);
    var again := RenderEach(r.items, window);
    assert forall j :: 0 <= j < |items| ==> rs[j].out.Success?;
    assert again == rs by {
      forall j | 0 <= j < |items|
        ensures again[j] == rs[j]
      {
        assert r.items[j] == rs[j].layout;
      }
    }
    var r' := MapRendered(rs, r.items, 0);
    assert r'.out.value == r.out.value by {
      forall j | 0 <= j < |items|
        ensures r'.out.value[j] == r.out.value[j]
      {
        assert r'.out.value[j - 0] == rs[j].out.value;
        assert r.out.value[j - 0] == rs[j].out.value;
      }
    }
    assert r'.items == r.items;
  }

  /** The node case of `LegacyRenderIdempotent`. */
  lemma {:induction false} LegacyNodeIdempotent(fields: map<string, JsVal>, props: map<string, JsVal>, index: JsVal, window: JsVal)
    requires "props" in fields && fields["props"] == Obj(props)
    requires RenderLegacyNode(fields, props, index, window).out.Success?
    ensures var r := RenderLegacyNode(fields, props, index, window);
      && r.layout.Obj? && "props" in r.layout.fields && r.layout.fields["props"].Obj?
      && RenderLegacyNode(r.layout.fields, r.layout.fields["props"].fields, index, window) == r
    decreases true, Obj(fields), 0
  {
    var r := RenderLegacyNode(fields, props, index, window);
    var keyed := WithKey(props, index);
    var elementType := ElementType(window, Obj(fields));
    var childValue := OwnProp(Obj(keyed), "children");
    var children := RenderLegacy(childValue, Undef, window);
    var after := if "children" in keyed then keyed["children" := children.layout] else keyed;
    var fields' := fields["props" := Obj(after)];
    assert r == Rendered(Success(Elem(Created(elementType.value, keyed - {"setProps", "children"}, children.out.value))), Obj(fields'));
    ElementTypeIgnoresProps(fields, Obj(after), window);
    WithKeyStable(props, index, children.layout);
    if "children" in keyed {
      LegacyRenderIdempotent(childValue, Undef, window);
    }
    assert after - {"setProps", "children"} == keyed - {"setProps", "children"};
    LegacyNodeSecondPass(fields', after, index, window, elementType, children);
  }

  /** A node whose key is in place and whose children render to themselves
      renders without writing anything. */
  lemma LegacyNodeSecondPass(fields: map<string, JsVal>, props: map<string, JsVal>, index: JsVal, window: JsVal,
                             elementType: Result<JsVal>, children: Rendered)
    requires "props" in fields && fields["props"] == Obj(props)
    requires ElementType(window, Obj(fields)) == elementType && elementType.Success?
    requires WithKey(props, index) == props
    requires RenderLegacy(OwnProp(Obj(props), "children"), Undef, window) == children
    requires "children" in props ==> children.layout == props["children"]
    requires children.out.Success?
    ensures RenderLegacyNode(fields, props, index, window)
      == Rendered(Success(Elem(Created(elementType.value, props - {"setProps", "children"}, children.out.value))), Obj(fields))
  {
    if "children" in props {
      assert props["children" := children.layout] == props;
    }
    assert fields["props" := Obj(props)] == fields;
  }

  /** The element type does not depend on a node's props. */
  lemma ElementTypeIgnoresProps(fields: map<string, JsVal>, props: JsVal, window: JsVal)
    ensures ElementType(window, Obj(fields["props" := props])) == ElementType(window, Obj(fields))
  {
    assert OwnProp(Obj(fields["props" := props]), "namespace") == OwnProp(Obj(fields), "namespace");
    assert OwnProp(Obj(fields["props" := props]), "type") == OwnProp(Obj(fields), "type");
  }

  /** Once written, the key is not written again, even after the children
      were replaced. */
  lemma WithKeyStable(props: map<string, JsVal>, index: JsVal, children: JsVal)
    ensures WithKey(WithKey(props, index), index) == WithKey(props, index)
    ensures WithKey(WithKey(props, index)["children" := children], index) == WithKey(props, index)["children" := children]
  {
  }
}
