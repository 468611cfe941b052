/** The layout renderer of src/index.js (lines 69-117): a layout value is
    turned into elements, arrays of them, or passed through.

    What the module imports from the UI library and its helpers is a
    `Host` record: the registry lookup, the simple-value test, the id
    stringifier and the "not loading" state. */
module Renderer {
  import opened JsValues

  /** The collaborators `renderDashComponent` calls but that are not part of
      this model: `Registry.resolve` (which throws for an unknown namespace
      or type), `isSimpleComponent`, `stringifyId` and `NOT_LOADING`. */
  datatype Host = Host(
    resolve: JsVal -> Result<JsVal>,
    isSimpleComponent: JsVal -> bool,
    stringifyId: JsVal -> string,
    notLoading: JsVal)

  /** ramda's `isEmpty`: the empty string, the empty array and the object
      with no own properties. `null`, `undefined` and `""` in a `String`
      object are not empty. */
  predicate IsEmpty(v: JsVal) {
    v == Str("") || v == Arr([]) || v == Obj(map[])
  }

  /** The props every node gets on top of its own: not loading, and a
      `setProps` that does nothing and returns `null`. */
  function ExtraProps(host: Host): map<string, JsVal> {
    map["loading_state" := host.notLoading, "setProps" := Fn(ConstFn(Null))]
  }

  /** The props handed to a node's element: its own props without
      `children`, with an object `id` replaced by its string form. */
  function CleanProps(props: map<string, JsVal>, host: Host): (r: map<string, JsVal>)
    ensures r.Keys == props.Keys - {"children"}
    ensures forall k :: k in r && k != "id" ==> r[k] == props[k]
    ensures "id" in r ==> r["id"] == (if ClassTag(props["id"]) == "Object" then Str(host.stringifyId(props["id"])) else props["id"])
  {
    var base := props - {"children"};
    if "id" in base && ClassTag(base["id"]) == "Object" then base["id" := Str(host.stringifyId(base["id"]))]
    else base
  }

  /** `renderDashComponent(component, index)`. */
  function RenderDashComponent(component: JsVal, index: JsVal, host: Host): Result<JsVal>
    decreases IsContainer(component), component, if component.Arr? then |component.items| + 1 else 0
  {
    if IsEmpty(component) then Success(Null)
    else if host.isSimpleComponent(component) then Success(component)
    else if component.Arr? then
      var rendered :- RenderItems(component.items, 0, host);
      Success(Arr(rendered))
    else
      var element :- host.resolve(component);
      var props :- GetProp(component, "props");
      // `dissoc` copies the own enumerable properties of `props`
      var copied := EnumerableOwnProps(props);
      if copied.None? then Failure(Unmodelled("props given as an element record"))
      else
        var childrenValue :- GetProp(props, "children");
        var children :- RenderDashComponent(childrenValue, Null, host);
        Success(Elem(Checked(element, CleanProps(copied.value, host), children,
                             ExtraProps(host), OwnProp(component, "type"), index)))
  }

  /** `items.map((item, i) => renderDashComponent(item, i))` from position
      `from` on: the first element that throws stops the map. */
  function RenderItems(items: seq<JsVal>, from: nat, host: Host): (r: Result<seq<JsVal>>)
    requires from <= |items|
    ensures r.Success? <==> forall j {:trigger items[j]} :: from <= j < |items| ==> RenderDashComponent(items[j], Num(j), host).Success?
    ensures r.Success? ==> |r.value| == |items| - from
    ensures r.Success? ==> forall j {:trigger items[j]} :: from <= j < |items| ==> r.value[j - from] == RenderDashComponent(items[j], Num(j), host).value
    decreases true, Arr(items), |items| - from
  {
    if from == |items| then Success([])
    else
      var first :- RenderDashComponent(items[from], Num(from), host);
      var rest :- RenderItems(items, from + 1, host);
      Success([first] + rest)
  }

  /** Empty input renders to `null`; a non-empty value that the host calls
      simple renders to itself. */
  lemma RenderLeaves(component: JsVal, index: JsVal, host: Host)
    ensures IsEmpty(component) ==> RenderDashComponent(component, index, host) == Success(Null)
    ensures !IsEmpty(component) && host.isSimpleComponent(component) ==> RenderDashComponent(component, index, host) == Success(component)
  {
  }

  /** A non-empty array renders element by element, each with its position
      as index, into an array of the same length; it throws exactly when
      one of its elements does. */
  lemma RenderArray(items: seq<JsVal>, index: JsVal, host: Host)
    requires items != []
    requires !host.isSimpleComponent(Arr(items))
    ensures RenderDashComponent(Arr(items), index, host).Success? <==>
      forall j {:trigger items[j]} :: 0 <= j < |items| ==> RenderDashComponent(items[j], Num(j), host).Success?
    ensures RenderDashComponent(Arr(items), index, host).Success? ==>
      && RenderDashComponent(Arr(items), index, host).value.Arr?
      && |RenderDashComponent(Arr(items), index, host).value.items| == |items|
      && forall j {:trigger items[j]} :: 0 <= j < |items| ==>
           RenderDashComponent(Arr(items), index, host).value.items[j] == RenderDashComponent(items[j], Num(j), host).value
  {
  }

  /** A node renders to one checked element that holds what the registry
      resolved, the properties `dissoc` copied from its `props` cleaned by
      `CleanProps`, its rendered children, the two extra props, its type and the
      index as key. A primitive `props` has no properties to copy. */
  lemma RenderNode(fields: map<string, JsVal>, index: JsVal, host: Host)
    requires fields != map[] && !host.isSimpleComponent(Obj(fields))
    requires host.resolve(Obj(fields)).Success?
    requires "props" in fields && !IsNullish(fields["props"]) && !fields["props"].Elem?
    requires RenderDashComponent(OwnProp(fields["props"], "children"), Null, host).Success?
    ensures RenderDashComponent(Obj(fields), index, host).Success?
    ensures var r := RenderDashComponent(Obj(fields), index, host).value;
      var props := EnumerableOwnProps(fields["props"]).value;
      && r.Elem? && r.e.Checked?
      && r.e.component == host.resolve(Obj(fields)).value
      && r.e.props == CleanProps(props, host)
      && r.e.children == RenderDashComponent(OwnProp(fields["props"], "children"), Null, host).value
      && r.e.extraProps == ExtraProps(host)
      && r.e.typeName == OwnProp(Obj(fields), "type")
      && r.e.key == index
  {
    var props := fields["props"];
    assert !IsEmpty(Obj(fields));
    assert OwnProp(Obj(fields), "props") == props;
    var children := RenderDashComponent(OwnProp(props, "children"), Null, host);
    assert RenderDashComponent(Obj(fields), index, host) ==
      Success(Elem(Checked(host.resolve(Obj(fields)).value, CleanProps(EnumerableOwnProps(props).value, host), children.value,
                           ExtraProps(host), OwnProp(Obj(fields), "type"), index)));
  }

  /** A node with a boolean or number as `props` still renders: to an element
      with no props of its own and the rendering of `undefined` as children. */
  lemma RenderPrimitiveProps(fields: map<string, JsVal>, index: JsVal, host: Host)
    requires !host.isSimpleComponent(Obj(fields)) && host.resolve(Obj(fields)).Success?
    requires "props" in fields && (fields["props"].Bool? || fields["props"].Num?)
    requires RenderDashComponent(Undef, Null, host).Success?
    ensures RenderDashComponent(Obj(fields), index, host).Success?
    ensures var r := RenderDashComponent(Obj(fields), index, host).value;
      && r.Elem? && r.e.Checked? && r.e.props == map[]
      && r.e.children == RenderDashComponent(Undef, Null, host).value
  {
    assert !IsEmpty(Obj(fields));
  }

  /** `setProps` every node gets returns `null` whatever it is called with. */
  lemma SetPropsIsNoOp(host: Host, args: seq<JsVal>, native: (string, seq<JsVal>) -> Result<JsVal>)
    ensures ExtraProps(host).Keys == {"loading_state", "setProps"}
    ensures ExtraProps(host)["setProps"].Fn?
    ensures Apply(ExtraProps(host)["setProps"].f, args, native) == Success(Null)
  {
  }

  /** A value that is not empty, simple or an array throws exactly when the
      registry throws (with its error), when it or its `props` is `null` or
      `undefined` (a `TypeError`), or when its children throw (with their
      error). */
  lemma RenderNodeErrors(component: JsVal, index: JsVal, host: Host)
    requires !IsEmpty(component) && !host.isSimpleComponent(component) && !component.Arr?
    ensures RenderDashComponent(component, index, host).Failure? <==>
      || host.resolve(component).Failure?
      || IsNullish(OwnProp(component, "props"))
      || OwnProp(component, "props").Elem?
      || RenderDashComponent(OwnProp(OwnProp(component, "props"), "children"), Null, host).Failure?
    ensures host.resolve(component).Failure? ==>
      RenderDashComponent(component, index, host) == Failure(host.resolve(component).error)
    ensures host.resolve(component).Success? && IsNullish(OwnProp(component, "props")) ==>
      RenderDashComponent(component, index, host).Failure? && RenderDashComponent(component, index, host).error.TypeError?
    ensures host.resolve(component).Success? && !IsNullish(OwnProp(component, "props")) && !OwnProp(component, "props").Elem? &&
            RenderDashComponent(OwnProp(OwnProp(component, "props"), "children"), Null, host).Failure? ==>
      RenderDashComponent(component, index, host) ==
        Failure(RenderDashComponent(OwnProp(OwnProp(component, "props"), "children"), Null, host).error)
  {
  }

  /** The mutable object whose own properties `renderDashComponents`
      rewrites. */
  class PropsObject {
    var entries: map<string, JsVal>

    constructor (entries: map<string, JsVal>)
      ensures this.entries == entries
    {
      this.entries := entries;
    }
  }

  /** The state of an object after `renderDashComponents`, and what it threw
      (an object the loop stopped on keeps the renderings done before). */
  datatype Outcome = Outcome(entries: map<string, JsVal>, thrown: Option<Error>)

  /** `renderDashComponents` over the names still to visit: an own key is
      replaced by its rendering, any other name is skipped. */
  function RenderedProps(props: map<string, JsVal>, names: seq<string>, host: Host): Outcome {
    if names == [] then Outcome(props, None)
    else
      var key := names[0];
      if key in props then
        match RenderDashComponent(props[key], Null, host)
        case Failure(e) => Outcome(props, Some(e))
        case Success(v) => RenderedProps(props[key := v], names[1..], host)
      else RenderedProps(props, names[1..], host)
  }

  /** `renderDashComponents`: rewrites the listed own keys of `props` in
      place and returns the same object. */
  method RenderDashComponents(props: PropsObject, propsToRender: seq<string>, host: Host) returns (r: Result<PropsObject>)
    modifies props
    ensures props.entries == RenderedProps(old(props.entries), propsToRender, host).entries
    ensures RenderedProps(old(props.entries), propsToRender, host).thrown.None? ==> r == Success(props)
    ensures RenderedProps(old(props.entries), propsToRender, host).thrown.Some? ==>
      r == Failure(RenderedProps(old(props.entries), propsToRender, host).thrown.value)
  {
    for i := 0 to |propsToRender|
      invariant RenderedProps(props.entries, propsToRender[i..], host) == RenderedProps(old(props.entries), propsToRender, host)
    {
      var key := propsToRender[i];
      assert propsToRender[i..][1..] == propsToRender[i + 1..];
      if key in props.entries {
        var rendered := RenderDashComponent(props.entries[key], Null, host);
        if rendered.Failure? {
          return Failure(rendered.error);
        }
        props.entries := props.entries[key := rendered.value];
      }
    }
    assert propsToRender[|propsToRender|..] == [];
    return Success(props);
  }

  /** `renderDashComponents` never adds or removes a key, and a key that is
      not listed keeps its value, whether or not the loop threw. */
  lemma {:induction false} RenderedPropsFrame(props: map<string, JsVal>, names: seq<string>, host: Host)
    ensures RenderedProps(props, names, host).entries.Keys == props.Keys
    ensures forall k :: k in props && k !in names ==> RenderedProps(props, names, host).entries[k] == props[k]
  {
    if names != [] {
      var key := names[0];
      if key in props && RenderDashComponent(props[key], Null, host).Success? {
        RenderedPropsFrame(props[key := RenderDashComponent(props[key], Null, host).value], names[1..], host);
      } else {
        RenderedPropsFrame(props, names[1..], host);
      }
    }
  }

  /** With no name listed twice, `renderDashComponents` completes exactly
      when every listed own key renders, and then each holds its rendering. */
  lemma {:induction false} RenderedPropsDistinct(props: map<string, JsVal>, names: seq<string>, host: Host)
    requires forall i, j :: 0 <= i < j < |names| ==> names[i] != names[j]
    ensures RenderedProps(props, names, host).thrown.None? <==>
      forall k :: k in props && k in names ==> RenderDashComponent(props[k], Null, host).Success?
    ensures RenderedProps(props, names, host).entries.Keys == props.Keys
    ensures RenderedProps(props, names, host).thrown.None? ==>
      forall k :: k in props && k in names ==>
        RenderedProps(props, names, host).entries[k] == RenderDashComponent(props[k], Null, host).value
  {
    RenderedPropsFrame(props, names, host);
    if names != [] {
      var key := names[0];
      var rest := names[1..];
      assert forall k :: k in names <==> k == key || k in rest;
      if key in props {
        var r := RenderDashComponent(props[key], Null, host);
        if r.Success? {
          var props' := props[key := r.value];
          RenderedPropsDistinct(props', rest, host);
          assert key !in rest;
          RenderedPropsFrame(props', rest, host);
        }
      } else {
        RenderedPropsDistinct(props, rest, host);
      }
    }
  }
}
