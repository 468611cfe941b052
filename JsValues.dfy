/** JavaScript values as the adapter sees them, and the pieces of the
    language it relies on: truthiness, `typeof`, the class tag that
    `Object.prototype.toString` and ramda's `type` report, own-property
    lookup, property-key conversion, `String.prototype.split(".")` and
    calling the closures the resolver builds.

    Objects are values here. Only own properties are modelled: a lookup of
    a name that is not an own property (a prototype method such as `split`
    or `constructor`) yields `Undef`. */
module JsValues {

  /** A JavaScript value. `Obj` is an ordinary object given by its own
      enumerable properties, `StrObj` a boxed `String` object, `Elem` an
      element record built by one of the two renderers. Numbers are
      integers (floating point and NaN are not modelled). */
  datatype JsVal =
    | Undef
    | Null
    | Bool(b: bool)
    | Num(n: int)
    | Str(s: string)
    | StrObj(boxed: string)
    | Arr(items: seq<JsVal>)
    | Obj(fields: map<string, JsVal>)
    | Date(time: int)
    | Fn(f: Func)
    | Elem(e: Element)

  /** A callable value: a host function known by its name, the closure
      `(...args) => v` and the closure `(...args) => target(...args, ctx)`. */
  datatype Func =
    | Native(name: string)
    | ConstFn(result: JsVal)
    | BoundFn(target: Func, ctx: JsVal)

  /** What a renderer hands to the UI library: `Checked` is the
      `<CheckedComponent .../>` of src/index.js, `Created` the
      `React.createElement(type, props, children)` of the root index.js. */
  datatype Element =
    | Checked(component: JsVal, props: map<string, JsVal>, children: JsVal,
              extraProps: map<string, JsVal>, typeName: JsVal, key: JsVal)
    | Created(elementType: JsVal, props: map<string, JsVal>, children: JsVal)

  /** A thrown error. `HostError` is for errors raised by host functions;
      `Unmodelled` marks inputs whose JavaScript behaviour the value model
      does not capture (see the README). */
  datatype Error =
    | TypeError(message: string)
    | LookupError(message: string)
    | HostError(message: string)
    | Unmodelled(message: string)

  datatype Option<+T> = None | Some(value: T)

  /** The outcome of an operation that may throw. */
  datatype Result<+T> = Success(value: T) | Failure(error: Error) {
    predicate IsFailure() {
      Failure?
    }

    function PropagateFailure<U>(): Result<U>
      requires Failure?
    {
      Failure(error)
    }

    function Extract(): T
      requires Success?
    {
      value
    }
  }

  /** JavaScript's `ToBoolean`. */
  predicate Truthy(v: JsVal) {
    match v
    case Undef => false
    case Null => false
    case Bool(b) => b
    case Num(n) => n != 0
    case Str(s) => s != ""
    case _ => true
  }

  predicate IsNullish(v: JsVal) {
    v.Undef? || v.Null?
  }

  /** The values a renderer can recurse into: arrays and objects. */
  predicate IsContainer(v: JsVal) {
    v.Arr? || v.Obj?
  }

  /** The `typeof` operator. */
  function TypeOf(v: JsVal): string {
    match v
    case Undef => "undefined"
    case Bool(_) => "boolean"
    case Num(_) => "number"
    case Str(_) => "string"
    case Fn(_) => "function"
    case _ => "object"
  }

  /** The class tag: `Object.prototype.toString.call(v)` is
      `"[object " + ClassTag(v) + "]"`, and ramda's `type(v)` is `ClassTag(v)`. */
  function ClassTag(v: JsVal): string {
    match v
    case Undef => "Undefined"
    case Null => "Null"
    case Bool(_) => "Boolean"
    case Num(_) => "Number"
    case Str(_) => "String"
    case StrObj(_) => "String"
    case Arr(_) => "Array"
    case Obj(_) => "Object"
    case Date(_) => "Date"
    case Fn(_) => "Function"
    case Elem(_) => "Object"
  }

  predicate IsDigit(c: char) {
    '0' <= c <= '9'
  }

  predicate AllDigits(s: string) {
    forall i :: 0 <= i < |s| ==> IsDigit(s[i])
  }

  function DigitsValue(s: string): nat
    requires AllDigits(s)
  {
    if s == [] then 0 else DigitsValue(s[..|s| - 1]) * 10 + (s[|s| - 1] as int - '0' as int)
  }

  /** The array index a property name denotes: a canonical decimal numeral. */
  function CanonicalIndex(key: string): Option<nat> {
    if key != [] && AllDigits(key) && (key[0] != '0' || |key| == 1) then Some(DigitsValue(key)) else None
  }

  /** The decimal numeral of a natural number. */
  function NatToString(n: nat): (s: string)
    ensures s != [] && AllDigits(s)
  {
    if n < 10 then [('0' as int + n) as char]
    else NatToString(n / 10) + [('0' as int + n % 10) as char]
  }

  /** `String(n)` for an integer. */
  function IntToString(n: int): string {
    if n < 0 then "-" + NatToString(-n) else NatToString(n)
  }

  /** A natural number's numeral is the canonical index of that number,
      so `a.0`, `a.12` reach array elements. */
  lemma {:induction false} IndexOfNatToString(n: nat)
    ensures CanonicalIndex(NatToString(n)) == Some(n)
  {
    var s := NatToString(n);
    if n < 10 {
      assert s == [('0' as int + n) as char];
      assert s[..|s| - 1] == [];
      assert DigitsValue(s) == n;
    } else {
      IndexOfNatToString(n / 10);
      var t := NatToString(n / 10);
      assert s[..|s| - 1] == t;
      assert t[0] != '0';
      assert s[0] == t[0];
    }
  }

  /** Own property `key` of a value that is not `null` or `undefined`;
      `Undef` when there is none. */
  function OwnProp(v: JsVal, key: string): JsVal {
    match v
    case Obj(m) => if key in m then m[key] else Undef
    case Arr(xs) => IndexedProp(|xs|, key, i requires 0 <= i < |xs| => xs[i])
    case Str(s) => IndexedProp(|s|, key, i requires 0 <= i < |s| => Str([s[i]]))
    case StrObj(s) => IndexedProp(|s|, key, i requires 0 <= i < |s| => Str([s[i]]))
    case _ => Undef
  }

  /** Property lookup on an indexed value of length `len`: an index below
      `len`, or `length`. */
  function IndexedProp(len: nat, key: string, at: int --> JsVal): JsVal
    requires forall i :: 0 <= i < len ==> at.requires(i)
  {
    match CanonicalIndex(key)
    case Some(i) => if i < len then at(i) else Undef
    case None => if key == "length" then Num(len) else Undef
  }

  /** The property names of the positions `0 .. len-1`. */
  function IndexKeys(len: nat): set<string> {
    set i | 0 <= i < len :: NatToString(i)
  }

  /** The names in `IndexKeys(len)` are exactly the numerals of the
      positions, each the canonical index of its position. */
  lemma IndexKeysAreIndices(len: nat)
    ensures forall i :: 0 <= i < len ==> NatToString(i) in IndexKeys(len) && CanonicalIndex(NatToString(i)) == Some(i)
    ensures forall k :: k in IndexKeys(len) ==> CanonicalIndex(k).Some? && CanonicalIndex(k).value < len
  {
    forall i | 0 <= i < len
      ensures CanonicalIndex(NatToString(i)) == Some(i)
    {
      IndexOfNatToString(i);
    }
    forall k | k in IndexKeys(len)
      ensures CanonicalIndex(k).Some? && CanonicalIndex(k).value < len
    {
      var i :| 0 <= i < len && k == NatToString(i);
      IndexOfNatToString(i);
    }
  }

  /** The properties at the positions `0 .. len-1` of an indexed value. */
  function IndexedFields(v: JsVal, len: nat): (m: map<string, JsVal>)
    ensures m.Keys == IndexKeys(len)
    ensures forall i :: 0 <= i < len ==> NatToString(i) in m && m[NatToString(i)] == OwnProp(v, NatToString(i))
    ensures forall k :: k in m ==> CanonicalIndex(k).Some? && m[k] == OwnProp(v, k)
  {
    IndexKeysAreIndices(len);
    map k | k in IndexKeys(len) :: OwnProp(v, k)
  }

  /** The numeral of a position names the element there. */
  lemma OwnPropAtIndices(v: JsVal)
    ensures v.Arr? ==> forall i :: 0 <= i < |v.items| ==> OwnProp(v, NatToString(i)) == v.items[i]
    ensures v.Str? ==> forall i :: 0 <= i < |v.s| ==> OwnProp(v, NatToString(i)) == Str([v.s[i]])
    ensures v.StrObj? ==> forall i :: 0 <= i < |v.boxed| ==> OwnProp(v, NatToString(i)) == Str([v.boxed[i]])
  {
    forall i: nat
      ensures CanonicalIndex(NatToString(i)) == Some(i)
    {
      IndexOfNatToString(i);
    }
  }

  /** The own enumerable properties of `v`, as `for (p in v)` visits them
      (this is how ramda copies a value). Strings, `String` objects and
      arrays have their positions; `null`, `undefined`, booleans, numbers,
      dates and functions have none. An element record's are not modelled. */
  function EnumerableOwnProps(v: JsVal): (r: Option<map<string, JsVal>>)
    ensures r.None? <==> v.Elem?
    ensures v.Obj? ==> r == Some(v.fields)
    ensures v.Arr? ==> forall i :: 0 <= i < |v.items| ==> NatToString(i) in r.value && r.value[NatToString(i)] == v.items[i]
    ensures v.Str? ==> forall i :: 0 <= i < |v.s| ==> NatToString(i) in r.value && r.value[NatToString(i)] == Str([v.s[i]])
    ensures v.StrObj? ==> forall i :: 0 <= i < |v.boxed| ==> NatToString(i) in r.value && r.value[NatToString(i)] == Str([v.boxed[i]])
    ensures v.Arr? ==> r.value.Keys == IndexKeys(|v.items|)
    ensures v.Str? ==> r.value.Keys == IndexKeys(|v.s|)
    ensures v.StrObj? ==> r.value.Keys == IndexKeys(|v.boxed|)
    ensures (v.Arr? || v.Str? || v.StrObj?) ==> forall k :: k in r.value ==> CanonicalIndex(k).Some? && r.value[k] == OwnProp(v, k)
    ensures !(v.Obj? || v.Arr? || v.Str? || v.StrObj? || v.Elem?) ==> r == Some(map[])
  {
    match v
    case Obj(m) => Some(m)
    case Arr(xs) => OwnPropAtIndices(v); Some(IndexedFields(v, |xs|))
    case Str(s) => OwnPropAtIndices(v); Some(IndexedFields(v, |s|))
    case StrObj(s) => OwnPropAtIndices(v); Some(IndexedFields(v, |s|))
    case Elem(_) => None
    case _ => Some(map[])
  }

  /** `v[key]`: throws exactly when `v` is `null` or `undefined`. */
  function GetProp(v: JsVal, key: string): (r: Result<JsVal>)
    ensures r.Failure? <==> IsNullish(v)
    ensures r.Success? ==> r.value == OwnProp(v, key)
  {
    if v.Undef? then Failure(TypeError("Cannot read properties of undefined (reading '" + key + "')"))
    else if v.Null? then Failure(TypeError("Cannot read properties of null (reading '" + key + "')"))
    else Success(OwnProp(v, key))
  }

  /** `ToPropertyKey` for the values whose conversion needs no call into
      user code; arrays, dates and functions are not modelled. */
  function ToPropertyKey(v: JsVal): Result<string> {
    match v
    case Undef => Success("undefined")
    case Null => Success("null")
    case Bool(b) => Success(if b then "true" else "false")
    case Num(n) => Success(IntToString(n))
    case Str(s) => Success(s)
    case StrObj(s) => Success(s)
    case Obj(_) => Success("[object Object]")
    case Elem(_) => Success("[object Object]")
    case _ => Failure(Unmodelled("conversion of an array, date or function to a property key"))
  }

  /** `s.split(".")`. */
  function Split(s: string): (parts: seq<string>)
    ensures |parts| >= 1
  {
    if s == [] then [""]
    else if s[0] == '.' then [""] + Split(s[1..])
    else
      var rest := Split(s[1..]);
      [[s[0]] + rest[0]] + rest[1..]
  }

  /** `parts.join(".")`, the inverse of `Split`. */
  function Join(parts: seq<string>): string
    requires |parts| >= 1
  {
    if |parts| == 1 then parts[0] else parts[0] + "." + Join(parts[1..])
  }

  predicate NoDot(p: string) {
    forall i :: 0 <= i < |p| ==> p[i] != '.'
  }

  /** Splitting yields dot-free segments that join back to the path. */
  lemma {:induction false} SplitJoin(s: string)
    ensures Join(Split(s)) == s
    ensures forall j :: 0 <= j < |Split(s)| ==> NoDot(Split(s)[j])
  {
    if s != [] {
      SplitJoin(s[1..]);
      var rest := Split(s[1..]);
      if s[0] == '.' {
        assert Split(s)[1..] == rest;
        assert s == "" + "." + s[1..];
      } else {
        var parts := Split(s);
        assert parts[0] == [s[0]] + rest[0];
        if |rest| == 1 {
          assert s == [s[0]] + rest[0];
        } else {
          assert parts[1..] == rest[1..];
          assert Join(rest) == rest[0] + "." + Join(rest[1..]);
          assert s == [s[0]] + s[1..];
        }
        forall j | 0 <= j < |parts|
          ensures NoDot(parts[j])
        {
          if j > 0 {
            assert parts[j] == rest[j];
          }
        }
      }
    }
  }

  /** Joining dot-free segments and splitting again gives the segments back. */
  lemma {:induction false} JoinSplit(parts: seq<string>)
    requires |parts| >= 1
    requires forall j :: 0 <= j < |parts| ==> NoDot(parts[j])
    ensures Split(Join(parts)) == parts
  {
    if |parts| == 1 {
      SplitNoDot(parts[0], []);
    } else {
      JoinSplit(parts[1..]);
      SplitNoDot(parts[0], parts[1..]);
    }
  }

  /** Splitting a dot-free head followed by `"." + Join(tail)`. */
  lemma {:induction false} SplitNoDot(head: string, tail: seq<string>)
    requires NoDot(head)
    requires |tail| >= 1 ==> Split(Join(tail)) == tail
    ensures |tail| == 0 ==> Split(head) == [head]
    ensures |tail| >= 1 ==> Split(head + "." + Join(tail)) == [head] + tail
  {
    if head == [] {
      if |tail| >= 1 {
        assert head + "." + Join(tail) == "." + Join(tail);
        assert ("." + Join(tail))[1..] == Join(tail);
      }
    } else {
      SplitNoDot(head[1..], tail);
      if |tail| == 0 {
        assert head[1..] != [] ==> Split(head[1..]) == [head[1..]];
        assert [head[0]] + head[1..] == head;
      } else {
        var s := head + "." + Join(tail);
        assert s[1..] == head[1..] + "." + Join(tail);
        assert [head[0]] + head[1..] == head;
      }
    }
  }

  /** Calling a function value with `args`; `native` gives the behaviour of
      the host's own functions. */
  function Apply(f: Func, args: seq<JsVal>, native: (string, seq<JsVal>) -> Result<JsVal>): Result<JsVal> {
    match f
    case Native(name) => native(name, args)
    case ConstFn(v) => Success(v)
    case BoundFn(target, ctx) => Apply(target, args + [ctx], native)
  }
}
