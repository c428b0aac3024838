/** Reading properties: the own table, the prototype chain walk, `get`,
    `can_put` and `has_property` of the base object. */
module Lookup {
  import opened Wrappers
  import opened Values

  /** `if cand:` on a looked-up descriptor: present and not the empty
      dictionary. */
  predicate Found(o: Option<Desc>) {
    o.Some? && !IsEmptyDesc(o.value)
  }

  function GetOwnProperty(h: Heap, id: ObjId, prop: string): (r: Option<Desc>)
    requires id in h
    ensures r.Some? <==> prop in h[id].own
    ensures r.Some? ==> r.value == h[id].own[prop]
  {
    if prop in h[id].own then Some(h[id].own[prop]) else None
  }

  /** The objects a lookup visits, starting at `id` and following
      prototypes to the end of the chain. */
  function Chain(h: Heap, id: ObjId): (c: seq<ObjId>)
    requires HeapOk(h) && id in h
    ensures |c| > 0 && c[0] == id
    ensures forall k :: 0 <= k < |c| ==> c[k] in h
    decreases id
  {
    assert ChainOk(h, id);
    match h[id].proto
    case None => [id]
    case Some(p) => [id] + Chain(h, p)
  }

  /** `get_property`: the own descriptor if there is one, otherwise the
      prototype's answer. What it finds is always a stored descriptor. */
  function GetProperty(h: Heap, id: ObjId, prop: string): (r: Option<Desc>)
    requires HeapOk(h) && id in h
    ensures r.Some? ==> StoredOk(r.value)
    decreases id
  {
    var cand := GetOwnProperty(h, id, prop);
    if Found(cand) then cand
    else
      assert ChainOk(h, id);
      match h[id].proto
      case None => None
      case Some(p) => GetProperty(h, p, prop)
  }

  /** The lookup returns the descriptor of the first object on the chain
      that has the property as its own, and nothing when none has it. */
  lemma {:induction false} GetPropertyFindsFirst(h: Heap, id: ObjId, prop: string)
    requires HeapOk(h) && id in h
    ensures GetProperty(h, id, prop).None? ==>
      forall k :: 0 <= k < |Chain(h, id)| ==> prop !in h[Chain(h, id)[k]].own
    ensures GetProperty(h, id, prop).Some? ==>
      exists k :: 0 <= k < |Chain(h, id)| && prop in h[Chain(h, id)[k]].own
        && GetProperty(h, id, prop).value == h[Chain(h, id)[k]].own[prop]
        && forall j :: 0 <= j < k ==> prop !in h[Chain(h, id)[j]].own
    decreases id
  {
    var c := Chain(h, id);
    if prop in h[id].own {
      assert StoredOk(h[id].own[prop]);
      assert !IsEmptyDesc(h[id].own[prop]);
      assert prop in h[c[0]].own;
    } else {
      assert ChainOk(h, id);
      match h[id].proto
      case None =>
      case Some(p) =>
        GetPropertyFindsFirst(h, p, prop);
        var c' := Chain(h, p);
        assert c == [id] + c';
        assert forall k :: 1 <= k < |c| ==> c[k] == c'[k - 1];
        if GetProperty(h, p, prop).Some? {
          var k :| 0 <= k < |c'| && prop in h[c'[k]].own
            && GetProperty(h, p, prop).value == h[c'[k]].own[prop]
            && forall j :: 0 <= j < k ==> prop !in h[c'[j]].own;
          assert c[k + 1] == c'[k];
          assert forall j :: 0 <= j < k + 1 ==> prop !in h[c[j]].own by {
            forall j | 0 <= j < k + 1
              ensures prop !in h[c[j]].own
            {
              if j > 0 {
                assert c[j] == c'[j - 1];
              }
            }
          }
          assert prop in h[c[k + 1]].own;
        } else {
          forall k | 0 <= k < |c|
            ensures prop !in h[c[k]].own
          {
            if k > 0 {
              assert c[k] == c'[k - 1];
            }
          }
        }
    }
  }

  function HasProperty(h: Heap, id: ObjId, prop: string): (b: bool)
    requires HeapOk(h) && id in h
    ensures b <==> exists k :: 0 <= k < |Chain(h, id)| && prop in h[Chain(h, id)[k]].own
  {
    GetPropertyFindsFirst(h, id, prop);
    GetProperty(h, id, prop).Some?
  }

  /** `get` on an object: undefined when the chain has no such property,
      the stored value for a data property, undefined for an accessor
      without getter, and otherwise whatever calling the getter with the
      object as `this` completes with. */
  function Get(h: Heap, host: Host, id: ObjId, prop: string): (r: Completion<Value>)
    requires HeapOk(h) && id in h
    ensures !HasProperty(h, id, prop) ==> r == Ok(Undefined)
    ensures prop in h[id].own && IsDataDesc(h[id].own[prop]) ==> r == Ok(h[id].own[prop].value.value)
    ensures r.Err? ==> GetProperty(h, id, prop).Some? && IsAccessorDesc(GetProperty(h, id, prop).value)
  {
    match GetProperty(h, id, prop)
    case None => Ok(Undefined)
    case Some(d) =>
      if IsDataDesc(d) then Ok(d.value.value)
      else if d.getter.value.Undefined? then Ok(Undefined)
      else Call(h, host, d.getter.value, Ref(id), [])
  }

  /** `get` answers from the first object on the chain that owns the
      property, own or inherited: its stored value for a data property,
      undefined for an accessor without getter, and otherwise the getter
      called with the object that was asked, not the owner, as `this`. */
  lemma GetFromChain(h: Heap, host: Host, id: ObjId, prop: string, k: nat)
    requires HeapOk(h) && id in h && k < |Chain(h, id)|
    requires prop in h[Chain(h, id)[k]].own
    requires forall j :: 0 <= j < k ==> prop !in h[Chain(h, id)[j]].own
    ensures var d := h[Chain(h, id)[k]].own[prop];
      && (d.value.Some? ==> Get(h, host, id, prop) == Ok(d.value.value))
      && (d.getter.Some? && d.getter.value.Undefined? ==> Get(h, host, id, prop) == Ok(Undefined))
      && (d.getter.Some? && !d.getter.value.Undefined? ==>
            Get(h, host, id, prop) == Call(h, host, d.getter.value, Ref(id), []))
  {
    var c := Chain(h, id);
    GetPropertyFindsFirst(h, id, prop);
    assert GetProperty(h, id, prop).Some?;
    var k' :| 0 <= k' < |c| && prop in h[c[k']].own
      && GetProperty(h, id, prop).value == h[c[k']].own[prop]
      && forall j :: 0 <= j < k' ==> prop !in h[c[j]].own;
    assert k' == k;
    assert StoredOk(h[c[k]].own[prop]);
  }

  /** `can_put`: an own accessor is writable when its setter can be called,
      an own data property when it is writable. Without an own property the
      prototype is checked the wrong way round (the inherited property is
      consulted only when there is no prototype, where it cannot exist), so
      the answer is the object's extensibility. */
  function CanPut(h: Heap, id: ObjId, prop: string): (b: bool)
    requires HeapOk(h) && id in h
    ensures b ==> prop in h[id].own || h[id].extensible
  {
    var desc := GetOwnProperty(h, id, prop);
    if Found(desc) then
      if IsAccessorDesc(desc.value) then IsCallable(h, desc.value.setter.value)
      else desc.value.writable.value
    else if h[id].proto.Some? then h[id].extensible
    else
      // With neither an own property nor a prototype, the inherited lookup
      // the source performs next finds nothing, and that branch answers
      // with the extensibility as well.
      h[id].extensible
  }

  /** Without an own property, `can_put` is the object's extensibility,
      whatever the chain holds. */
  lemma CanPutWithoutOwn(h: Heap, id: ObjId, prop: string)
    requires HeapOk(h) && id in h && prop !in h[id].own
    ensures CanPut(h, id, prop) == h[id].extensible
    ensures h[id].extensible ==> CanPut(h, id, prop)
  {
  }

  /** With an own property, `can_put` is its setter's callability or its
      writability. */
  lemma CanPutWithOwn(h: Heap, id: ObjId, prop: string)
    requires HeapOk(h) && id in h && prop in h[id].own
    ensures var d := h[id].own[prop];
      CanPut(h, id, prop) == if IsAccessorDesc(d) then IsCallable(h, d.setter.value) else d.writable.value
  {
    assert StoredOk(h[id].own[prop]);
  }
}
