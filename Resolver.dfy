/** The prop resolver of src/index.js (lines 11-67). The root index.js
    (lines 4-60) carries a copy of the same five functions, character for
    character, so this module models both.

    `window` is an explicit, read-only parameter. */
module Resolver {
  import opened JsValues

  /** `isPlainObject`: the null, array and function tests come first, then
      `o.constructor === Date`, which throws for `undefined`. */
  function IsPlainObject(o: JsVal): (r: Result<bool>)
    ensures r.Failure? <==> o.Undef?
    ensures r.Success? ==> (r.value <==> o.Obj? || o.StrObj? || o.Elem?)
  {
    if o.Null? || o.Arr? || TypeOf(o) == "function" then Success(false)
    else if o.Undef? then Failure(TypeError("Cannot read properties of undefined (reading 'constructor')"))
    else if o.Date? then Success(false)
    else Success(TypeOf(o) == "object")
  }

  /** `isFunction`: a truthy value whose class tag is `Function`. */
  predicate IsFunction(v: JsVal)
    ensures IsFunction(v) <==> TypeOf(v) == "function"
  {
    Truthy(v) && "[object " + ClassTag(v) + "]" == "[object Function]"
  }

  /** The loop of `getDescendantProp`: look the next segment up and go on
      while the value found is truthy. */
  function Walk(obj: JsVal, segs: seq<string>): Result<JsVal>
    decreases |segs|
  {
    if segs == [] then Success(obj)
    else
      var next :- GetProp(obj, segs[0]);
      if Truthy(next) then Walk(next, segs[1..]) else Success(next)
  }

  /** What `getDescendantProp(obj, desc)` returns or throws. */
  function DescendantProp(obj: JsVal, desc: string): Result<JsVal> {
    Walk(obj, Split(desc))
  }

  /** `getDescendantProp`: shifts the segments of the path off one by one
      and reassigns `obj`, stopping at the first falsy value. */
  method GetDescendantProp(obj: JsVal, desc: string) returns (r: Result<JsVal>)
    ensures r == DescendantProp(obj, desc)
  {
    var arr := Split(desc);
    var cur := obj;
    while |arr| > 0
      invariant Walk(cur, arr) == DescendantProp(obj, desc)
    {
      var seg := arr[0];
      arr := arr[1..];
      var next := GetProp(cur, seg);
      if next.Failure? {
        return next;
      }
      cur := next.value;
      if !Truthy(cur) {
        return Success(cur);
      }
    }
    return Success(cur);
  }

  /** The plain path lookup `obj[segs[0]][segs[1]]...`, which does not stop
      early; the reference `Walk` is compared with. */
  function Lookup(obj: JsVal, segs: seq<string>): Result<JsVal>
    decreases |segs|
  {
    if segs == [] then Success(obj)
    else
      var next :- GetProp(obj, segs[0]);
      Lookup(next, segs[1..])
  }

  /** `getDescendantProp` returns the value at the first prefix of the path
      whose value is falsy, or the value of the whole path when every
      intermediate value is truthy. */
  lemma {:induction false} WalkStopsAtFirstFalsy(obj: JsVal, segs: seq<string>, k: nat)
    requires 1 <= k <= |segs|
    requires forall j :: 1 <= j < k ==> Lookup(obj, segs[..j]).Success? && Truthy(Lookup(obj, segs[..j]).value)
    requires Lookup(obj, segs[..k]).Success?
    requires k == |segs| || !Truthy(Lookup(obj, segs[..k]).value)
    ensures Walk(obj, segs) == Lookup(obj, segs[..k])
    decreases k
  {
    assert segs[..k][0] == segs[0] && segs[..k][1..] == segs[1..k];
    var next := GetProp(obj, segs[0]).value;
    assert Lookup(obj, segs[..k]) == Lookup(next, segs[1..k]);
    if k == 1 {
      assert segs[1..k] == [];
    } else {
      assert segs[..1][0] == segs[0] && segs[..1][1..] == [];
      assert Lookup(obj, segs[..1]) == Success(next);
      var rest := segs[1..];
      forall j | 1 <= j < k - 1
        ensures Lookup(next, rest[..j]).Success? && Truthy(Lookup(next, rest[..j]).value)
      {
        assert segs[..j + 1][0] == segs[0] && segs[..j + 1][1..] == rest[..j];
        assert Lookup(obj, segs[..j + 1]) == Lookup(next, rest[..j]);
      }
      assert rest[..k - 1] == segs[1..k];
      WalkStopsAtFirstFalsy(next, rest, k - 1);
    }
  }

  /** `getDescendantProp` throws only when the root itself is `null` or
      `undefined`: every later lookup is on a truthy value. */
  lemma {:induction false} WalkThrowsOnlyAtRoot(obj: JsVal, segs: seq<string>)
    ensures Walk(obj, segs).Failure? <==> segs != [] && IsNullish(obj)
    decreases |segs|
  {
    if segs != [] && !IsNullish(obj) {
      var next := GetProp(obj, segs[0]).value;
      if Truthy(next) {
        WalkThrowsOnlyAtRoot(next, segs[1..]);
      }
    }
  }

  /** The message `resolveVariable` throws when the path has no match. */
  function NoMatchMessage(path: string): string {
    "No match for [" + path + "] in the global window object."
  }

  /** The path a truthy `variable` property denotes, or the error of
      `desc.split` when the value has no `split` method. */
  function VariablePath(variable: JsVal): Result<string> {
    match variable
    case Str(s) => Success(s)
    case StrObj(s) => Success(s)
    case _ => Failure(TypeError("desc.split is not a function"))
  }

  /** `resolveVariable(prop, context)` for a plain object `prop` given by
      its own properties. */
  function ResolveVariable(prop: map<string, JsVal>, context: JsVal, window: JsVal): Result<JsVal> {
    var path :- VariablePath(OwnProp(Obj(prop), "variable"));
    var variable :- DescendantProp(window, path);
    if variable.Undef? then Failure(LookupError(NoMatchMessage(path)))
    else if IsFunction(variable) && Truthy(context) then Success(Fn(BoundFn(variable.f, context)))
    else Success(variable)
  }

  /** `resolveProp(prop, context)`. */
  function ResolveProp(prop: JsVal, context: JsVal, window: JsVal): Result<JsVal> {
    var plain :- IsPlainObject(prop);
    if !plain then Success(prop)
    else if Truthy(OwnProp(prop, "variable")) then ResolveVariable(prop.fields, context, window)
    else if Truthy(OwnProp(prop, "arrow")) then Success(Fn(ConstFn(OwnProp(prop, "arrow"))))
    else Success(prop)
  }

  /** `resolveVariable` throws the "No match" error exactly when the value
      found is `undefined`; `null`, `0`, `false` and `""` are returned. */
  lemma NoMatchIffUndefined(prop: map<string, JsVal>, context: JsVal, window: JsVal, path: string)
    requires VariablePath(OwnProp(Obj(prop), "variable")) == Success(path)
    requires DescendantProp(window, path).Success?
    ensures ResolveVariable(prop, context, window) == Failure(LookupError(NoMatchMessage(path)))
        <==> DescendantProp(window, path) == Success(Undef)
    ensures DescendantProp(window, path).value in {Null, Num(0), Bool(false), Str("")}
        ==> ResolveVariable(prop, context, window) == DescendantProp(window, path)
  {
  }

  /** `resolveVariable` throws only the error of the lookup itself, the
      `split` error, or the "No match" error for a result of `undefined`. */
  lemma ResolveVariableErrors(prop: map<string, JsVal>, context: JsVal, window: JsVal)
    ensures ResolveVariable(prop, context, window).Failure? <==>
      || VariablePath(OwnProp(Obj(prop), "variable")).Failure?
      || (var path := VariablePath(OwnProp(Obj(prop), "variable")).value;
          DescendantProp(window, path).Failure? || DescendantProp(window, path) == Success(Undef))
  {
  }

  /** A function found under the path, with a truthy context, is wrapped so
      that each call passes the context as one more, last, argument. */
  lemma ContextIsAppended(prop: map<string, JsVal>, context: JsVal, window: JsVal, g: Func,
                          args: seq<JsVal>, native: (string, seq<JsVal>) -> Result<JsVal>)
    requires VariablePath(OwnProp(Obj(prop), "variable")).Success?
    requires DescendantProp(window, VariablePath(OwnProp(Obj(prop), "variable")).value) == Success(Fn(g))
    requires Truthy(context)
    ensures ResolveVariable(prop, context, window).Success?
    ensures ResolveVariable(prop, context, window).value.Fn?
    ensures Apply(ResolveVariable(prop, context, window).value.f, args, native) == Apply(g, args + [context], native)
  {
  }

  /** Without a truthy context, or for a value that is not a function, the
      value found is returned as it is. */
  lemma RawValueWithoutContext(prop: map<string, JsVal>, context: JsVal, window: JsVal, v: JsVal)
    requires VariablePath(OwnProp(Obj(prop), "variable")).Success?
    requires DescendantProp(window, VariablePath(OwnProp(Obj(prop), "variable")).value) == Success(v)
    requires !v.Undef?
    requires !Truthy(context) || !v.Fn?
    ensures ResolveVariable(prop, context, window) == Success(v)
  {
  }

  /** `resolveProp` returns every value that is not a plain object as it is,
      except `undefined`, for which `isPlainObject` throws; a plain object
      with neither a truthy `variable` nor a truthy `arrow` is returned too. */
  lemma ResolvePropUnchanged(prop: JsVal, context: JsVal, window: JsVal)
    ensures prop.Undef? ==> ResolveProp(prop, context, window).Failure?
    ensures !prop.Undef? && !(prop.Obj? || prop.StrObj? || prop.Elem?) ==> ResolveProp(prop, context, window) == Success(prop)
    ensures !prop.Undef? && !Truthy(OwnProp(prop, "variable")) && !Truthy(OwnProp(prop, "arrow"))
        ==> ResolveProp(prop, context, window) == Success(prop)
  {
  }

  /** A truthy `variable` wins over `arrow`. */
  lemma VariableBeforeArrow(m: map<string, JsVal>, context: JsVal, window: JsVal)
    requires "variable" in m && Truthy(m["variable"])
    ensures ResolveProp(Obj(m), context, window) == ResolveVariable(m, context, window)
  {
  }

  /** A truthy `arrow` gives a function that returns `arrow` for every
      argument list, the empty one included; a falsy `arrow` is not wrapped. */
  lemma ArrowIgnoresArguments(m: map<string, JsVal>, context: JsVal, window: JsVal,
                              args: seq<JsVal>, native: (string, seq<JsVal>) -> Result<JsVal>)
    requires !("variable" in m && Truthy(m["variable"]))
    requires "arrow" in m
    ensures Truthy(m["arrow"]) ==>
      (&& ResolveProp(Obj(m), context, window).Success?
       && ResolveProp(Obj(m), context, window).value.Fn?
       && Apply(ResolveProp(Obj(m), context, window).value.f, args, native) == Success(m["arrow"]))
    ensures !Truthy(m["arrow"]) ==> ResolveProp(Obj(m), context, window) == Success(Obj(m))
  {
  }

  /** Resolving again changes nothing when the value did not name a variable:
      literals stay, and an arrow's function is not a plain object. */
  lemma ResolvePropIdempotent(prop: JsVal, context: JsVal, window: JsVal)
    requires !Truthy(OwnProp(prop, "variable"))
    requires ResolveProp(prop, context, window).Success?
    ensures ResolveProp(ResolveProp(prop, context, window).value, context, window) == ResolveProp(prop, context, window)
  {
  }

  /** `resolveProps` over the names still to visit: a name whose current
      value is truthy is resolved in place, every other name is skipped. */
  function ResolvedProps(props: map<string, JsVal>, names: seq<string>, context: JsVal, window: JsVal): Result<map<string, JsVal>> {
    if names == [] then Success(props)
    else
      var name := names[0];
      if name in props && Truthy(props[name]) then
        var v :- ResolveProp(props[name], context, window);
        ResolvedProps(props[name := v], names[1..], context, window)
      else ResolvedProps(props, names[1..], context, window)
  }

  /** `resolveProps`: works on a copy of `props` and updates it name by name.
      The caller's `props` is a value here, so it cannot change. */
  method ResolveProps(props: map<string, JsVal>, functionalProps: seq<string>, context: JsVal, window: JsVal)
    returns (r: Result<map<string, JsVal>>)
    ensures r == ResolvedProps(props, functionalProps, context, window)
  {
    var nProps := props;
    for i := 0 to |functionalProps|
      invariant ResolvedProps(nProps, functionalProps[i..], context, window) == ResolvedProps(props, functionalProps, context, window)
    {
      var prop := functionalProps[i];
      assert functionalProps[i..][1..] == functionalProps[i + 1..];
      if prop in nProps && Truthy(nProps[prop]) {
        var resolved := ResolveProp(nProps[prop], context, window);
        if resolved.Failure? {
          return Failure(resolved.error);
        }
        nProps := nProps[prop := resolved.value];
      }
    }
    assert functionalProps[|functionalProps|..] == [];
    return Success(nProps);
  }

  /** `resolveProps` keeps the key set; a key that is not listed, or whose
      value is falsy, keeps its value. */
  lemma {:induction false} ResolvedPropsFrame(props: map<string, JsVal>, names: seq<string>, context: JsVal, window: JsVal)
    requires ResolvedProps(props, names, context, window).Success?
    ensures ResolvedProps(props, names, context, window).value.Keys == props.Keys
    ensures forall k :: (k in props && (k !in names || !Truthy(props[k])) ==>
      ResolvedProps(props, names, context, window).value[k] == props[k])
  {
    if names != [] {
      var name := names[0];
      if name in props && Truthy(props[name]) {
        var v := ResolveProp(props[name], context, window).value;
        ResolvedPropsFrame(props[name := v], names[1..], context, window);
      } else {
        ResolvedPropsFrame(props, names[1..], context, window);
      }
    }
  }

  /** With no name listed twice, `resolveProps` succeeds exactly when every
      listed key with a truthy value resolves, and then holds that key's
      resolution; every other key keeps its value. */
  lemma {:induction false} ResolvedPropsDistinct(props: map<string, JsVal>, names: seq<string>, context: JsVal, window: JsVal)
    requires forall i, j :: 0 <= i < j < |names| ==> names[i] != names[j]
    ensures ResolvedProps(props, names, context, window).Success? <==>
      forall k :: k in props && k in names && Truthy(props[k]) ==> ResolveProp(props[k], context, window).Success?
    ensures ResolvedProps(props, names, context, window).Success? ==>
      ResolvedProps(props, names, context, window).value.Keys == props.Keys
    ensures ResolvedProps(props, names, context, window).Success? ==>
      forall k :: k in props && k in names && Truthy(props[k]) ==>
        ResolvedProps(props, names, context, window).value[k] == ResolveProp(props[k], context, window).value
  {
    if ResolvedProps(props, names, context, window).Success? {
      ResolvedPropsFrame(props, names, context, window);
    }
    if names != [] {
      var name := names[0];
      var rest := names[1..];
      assert forall k :: k in names <==> k == name || k in rest;
      if name in props && Truthy(props[name]) {
        var r := ResolveProp(props[name], context, window);
        if r.Success? {
          var props' := props[name := r.value];
          ResolvedPropsDistinct(props', rest, context, window);
          assert name !in rest;
          if ResolvedProps(props', rest, context, window).Success? {
            ResolvedPropsFrame(props', rest, context, window);
          }
        }
      } else {
        ResolvedPropsDistinct(props, rest, context, window);
      }
    }
  }

  /** A name listed twice is resolved twice: a variable naming an arrow
      object becomes that object after one pass and a function after two. */
  lemma ListedTwiceResolvesTwice()
    ensures
      var window := Obj(map["a" := Obj(map["arrow" := Num(7)])]);
      var props := map["x" := Obj(map["variable" := Str("a")])];
      && ResolvedProps(props, ["x"], Null, window) == Success(map["x" := Obj(map["arrow" := Num(7)])])
      && ResolvedProps(props, ["x", "x"], Null, window) == Success(map["x" := Fn(ConstFn(Num(7)))])
  {
    var window := Obj(map["a" := Obj(map["arrow" := Num(7)])]);
    assert "a"[0] == 'a' && "a"[1..] == "" && Split("") == [""];
    assert ['a'] + "" == "a";
    assert Split("a") == ["a"];
    var arrowObj := Obj(map["arrow" := Num(7)]);
    var props := map["x" := Obj(map["variable" := Str("a")])];
    assert DescendantProp(window, "a") == Success(arrowObj);
    assert ResolveProp(props["x"], Null, window) == Success(arrowObj);
    assert props["x" := arrowObj] == map["x" := arrowObj];
    assert ["x"][1..] == [] && ["x", "x"][1..] == ["x"];
    assert ResolveProp(arrowObj, Null, window) == Success(Fn(ConstFn(Num(7))));
    assert map["x" := arrowObj]["x" := Fn(ConstFn(Num(7)))] == map["x" := Fn(ConstFn(Num(7)))];
    assert ResolvedProps(map["x" := arrowObj], ["x"], Null, window) == Success(map["x" := Fn(ConstFn(Num(7)))]);
  }
}
