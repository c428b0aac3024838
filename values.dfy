/** The runtime's values, property descriptors, objects and the heap that
    holds them, together with the abrupt completions the operations can end
    with and the host services they depend on. */
module Values {
  import opened Wrappers
  import opened Numbers

  /** Objects live in a heap and are referred to by identity. */
  type ObjId = nat

  /** A runtime value: the five primitive types and object references. */
  datatype Value = Undefined | Null | Bool(b: bool) | Number(n: Num) | Str(s: string) | Ref(id: ObjId)

  predicate IsPrimitive(v: Value) {
    !v.Ref?
  }

  /** A property descriptor: the dictionary of up to six keys the runtime
      stores per property (`value`, `writable`, `get`, `set`, `enumerable`,
      `configurable`); a key that is absent is None. */
  datatype Desc = Desc(
    value: Option<Value>,
    writable: Option<bool>,
    getter: Option<Value>,
    setter: Option<Value>,
    enumerable: Option<bool>,
    configurable: Option<bool>)

  const EmptyDesc := Desc(None, None, None, None, None, None)

  /** An empty dictionary is false in a boolean context. */
  predicate IsEmptyDesc(d: Desc) {
    d == EmptyDesc
  }

  predicate IsDataDesc(d: Desc) {
    !IsEmptyDesc(d) && (d.value.Some? || d.writable.Some?)
  }

  predicate IsAccessorDesc(d: Desc) {
    !IsEmptyDesc(d) && (d.getter.Some? || d.setter.Some?)
  }

  predicate IsGenericDesc(d: Desc) {
    !IsEmptyDesc(d) && !(IsDataDesc(d) || IsAccessorDesc(d))
  }

  /** A request to define a property, as the property-descriptor
      conversion of its callers builds it: the data keys and the accessor
      keys are not mixed, and a getter or setter is undefined or an
      object. */
  predicate WellFormedRequest(d: Desc) {
    && !(IsDataDesc(d) && IsAccessorDesc(d))
    && (d.getter.Some? ==> IsAccessorValue(d.getter.value))
    && (d.setter.Some? ==> IsAccessorValue(d.setter.value))
  }

  /** What a getter or setter entry may hold. */
  predicate IsAccessorValue(v: Value) {
    v.Undefined? || v.Ref?
  }

  /** The shape every stored descriptor has: both flags, and either the
      two data keys or the two accessor keys, the latter undefined or
      objects. */
  predicate StoredOk(d: Desc) {
    && d.enumerable.Some? && d.configurable.Some?
    && ((d.value.Some? && d.writable.Some? && d.getter.None? && d.setter.None?)
        || (d.getter.Some? && d.setter.Some? && d.value.None? && d.writable.None?
            && IsAccessorValue(d.getter.value) && IsAccessorValue(d.setter.value)))
  }

  /** The object classes whose behaviour differs: arrays redefine
      `[[DefineOwnProperty]]`, dates reverse the default conversion order. */
  datatype ObjClass = Ordinary | ArrayClass | DateClass

  datatype Obj = Obj(
    own: map<string, Desc>,
    proto: Option<ObjId>,
    extensible: bool,
    cls: ObjClass,
    callable: bool)

  type Heap = map<ObjId, Obj>

  /** A value whose object, if it refers to one, is in the heap. */
  predicate Live(h: Heap, v: Value) {
    v.Ref? ==> v.id in h
  }

  /** Every prototype was allocated before the object that points to it,
      so prototype chains are finite. */
  predicate ChainOk(h: Heap, id: ObjId)
    requires id in h
  {
    match h[id].proto
    case None => true
    case Some(p) => p < id && p in h
  }

  /** Every value a descriptor holds is live. */
  predicate DescLive(h: Heap, d: Desc) {
    && (d.value.Some? ==> Live(h, d.value.value))
    && (d.getter.Some? ==> Live(h, d.getter.value))
    && (d.setter.Some? ==> Live(h, d.setter.value))
  }

  /** The heap invariant: finite prototype chains, and stored descriptors
      of the stored shape holding live values. */
  predicate HeapOk(h: Heap) {
    forall id :: id in h ==>
      && ChainOk(h, id)
      && forall k :: k in h[id].own ==> StoredOk(h[id].own[k]) && DescLive(h, h[id].own[k])
  }

  predicate IsCallable(h: Heap, v: Value) {
    v.Ref? && v.id in h && h[v.id].callable
  }

  datatype ErrorKind = TypeError | RangeError | ReferenceError

  /** Host exceptions that escape from the runtime itself; script code
      cannot catch them. */
  datatype HostCause = AttributeError | KeyError | HostTypeError

  datatype Abrupt =
    | JsError(kind: ErrorKind)
    | JsThrow(thrown: Value)
    | HostFault(cause: HostCause)

  datatype Completion<+T> = Ok(value: T) | Err(abrupt: Abrupt) {
    predicate IsFailure() { Err? }

    function PropagateFailure<U>(): Completion<U>
      requires Err?
    {
      Err(abrupt)
    }

    function Extract(): T
      requires Ok?
    {
      value
    }
  }

  /** What the runtime asks of its host: running a callable object (a
      getter, a setter, `toString`, `valueOf`) on a heap, `this` and
      arguments; rendering a non-integral number; and the decimal parser. */
  datatype Host = Host(
    invoke: (Heap, ObjId, Value, seq<Value>) -> Completion<Value>,
    render: real -> string,
    parseFloat: string -> Option<Num>)

  /** `f.call(this, args)`: only objects that can be called have a `call`
      method; on anything else the attribute lookup fails. */
  function Call(h: Heap, host: Host, f: Value, self: Value, args: seq<Value>): Completion<Value> {
    if IsCallable(h, f) then host.invoke(h, f.id, self, args) else Err(HostFault(AttributeError))
  }
}
