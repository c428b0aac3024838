/** The scope chain of running code. The global scope is an object of the
    heap whose properties are the global variables; a local scope is a flat
    table from names to values that hands every name it does not bind to
    the scope enclosing it. */
module Scoping {
  import opened Wrappers
  import opened Values
  import opened Lookup
  import opened Descriptors
  import opened Runtime

  /** A scope: the global one, or a local frame by number. */
  datatype ScopeRef = Global | Local(fid: nat)

  /** A local scope: its bindings and the scope enclosing it. */
  datatype Frame = Frame(vars: map<string, Value>, parent: ScopeRef)

  function Rank(s: ScopeRef): nat {
    match s
    case Global => 0
    case Local(f) => f + 1
  }

  /** Every enclosing scope exists and was created before the scope it
      encloses, so chains of scopes end at the global one. */
  predicate ShapeOk(frames: map<nat, Frame>) {
    forall f :: f in frames ==> match frames[f].parent
      case Global => true
      case Local(p) => p < f && p in frames
  }

  predicate FramesOk(frames: map<nat, Frame>, h: Heap) {
    && ShapeOk(frames)
    && forall f, k :: f in frames && k in frames[f].vars ==> Live(h, frames[f].vars[k])
  }

  predicate RefOk(frames: map<nat, Frame>, s: ScopeRef) {
    s.Local? ==> s.fid in frames
  }

  /** The scope that holds `name` as seen from `s`: the first local frame
      on the chain binding it, and otherwise the global scope. */
  function Binder(frames: map<nat, Frame>, s: ScopeRef, name: string): (b: ScopeRef)
    requires ShapeOk(frames) && RefOk(frames, s)
    ensures b.Local? ==> b.fid in frames && name in frames[b.fid].vars
    decreases Rank(s)
  {
    match s
    case Global => Global
    case Local(f) => if name in frames[f].vars then s else Binder(frames, frames[f].parent, name)
  }

  /** The binder of a name is the first frame on the chain from `s` that
      binds it: a local binder lies on the chain and no frame before it
      binds the name, and when the binder is the global scope no frame on
      the chain binds it. */
  lemma {:induction false} BinderIsFirst(frames: map<nat, Frame>, s: ScopeRef, name: string)
    requires ShapeOk(frames) && RefOk(frames, s)
    ensures Binder(frames, s, name).Global? ==> forall f :: f in frames && OnChain(frames, s, f) ==> name !in frames[f].vars
    ensures Binder(frames, s, name).Local? ==> OnChain(frames, s, Binder(frames, s, name).fid)
    ensures Binder(frames, s, name).Local? ==>
      forall f :: f in frames && OnChain(frames, s, f) && !OnChain(frames, Binder(frames, s, name), f) ==> name !in frames[f].vars
    decreases Rank(s)
  {
    if s.Local? && name !in frames[s.fid].vars {
      BinderIsFirst(frames, frames[s.fid].parent, name);
    }
  }

  /** Frame `f` lies on the chain from `s`. */
  predicate OnChain(frames: map<nat, Frame>, s: ScopeRef, f: nat)
    requires ShapeOk(frames) && RefOk(frames, s)
    decreases Rank(s)
  {
    match s
    case Global => false
    case Local(g) => g == f || OnChain(frames, frames[g].parent, f)
  }

  /** The descriptor `register` gives a new global variable. */
  const DeclaredDesc := Desc(Some(Undefined), Some(true), None, None, Some(true), Some(false))

  /** The scopes stay well formed when the heap only gains objects. */
  lemma FramesOkGrow(frames: map<nat, Frame>, h0: Heap, h1: Heap)
    requires FramesOk(frames, h0) && h0.Keys <= h1.Keys
    ensures FramesOk(frames, h1)
  {
    forall f, k | f in frames && k in frames[f].vars
      ensures Live(h1, frames[f].vars[k])
    {
      assert Live(h0, frames[f].vars[k]);
    }
  }

  /** The bindings after `registers` on a local scope: each name not yet
      bound is added as undefined, in order. */
  function Declared(vars: map<string, Value>, names: seq<string>): map<string, Value>
    decreases |names|
  {
    if names == [] then vars
    else
      var last := names[|names| - 1];
      var before := Declared(vars, names[..|names| - 1]);
      if last in before then before else before[last := Undefined]
  }

  lemma DeclaredAppend(vars: map<string, Value>, names: seq<string>, name: string)
    ensures Declared(vars, names + [name]) ==
      if name in Declared(vars, names) then Declared(vars, names) else Declared(vars, names)[name := Undefined]
  {
    assert (names + [name])[..|names|] == names;
  }

  /** `registers` binds exactly the names it is given on top of the
      existing bindings, never changes an existing binding, and binds every
      new name to undefined. */
  lemma {:induction false} DeclaredSpec(vars: map<string, Value>, names: seq<string>)
    ensures forall k :: k in Declared(vars, names) <==> k in vars || k in names
    ensures forall k :: k in vars ==> Declared(vars, names)[k] == vars[k]
    ensures forall k :: k in Declared(vars, names) && k !in vars ==> Declared(vars, names)[k] == Undefined
    decreases |names|
  {
    if names != [] {
      var init := names[..|names| - 1];
      DeclaredSpec(vars, init);
      assert names == init + [names[|names| - 1]];
    }
  }

  class Scopes {
    const realm: Realm
    const global: ObjId
    var frames: map<nat, Frame>
    var nextFrame: nat

    ghost predicate Valid()
      reads this, realm
    {
      && realm.Valid() && global in realm.heap
      && realm.heap[global].proto.None? && realm.heap[global].cls == Ordinary
      && FramesOk(frames, realm.heap)
      && forall f :: f in frames ==> f < nextFrame
    }

    /** The global scope, created from its items, with no local scope yet. */
    constructor (realm: Realm, items: map<string, Value>)
      requires realm.Valid() && forall k :: k in items ==> Live(realm.heap, items[k])
      modifies realm
      ensures Valid() && this.realm == realm && frames == map[]
      ensures global !in old(realm.heap)
      ensures realm.heap == old(realm.heap)[global := Obj(FrozenTable(items), None, true, Ordinary, false)]
    {
      var g := realm.NewGlobal(items);
      this.realm := realm;
      global := g;
      frames := map[];
      nextFrame := 0;
    }

    /** A new local scope with the given bindings, enclosed by `parent`. */
    method NewLocal(vars: map<string, Value>, parent: ScopeRef) returns (s: ScopeRef)
      requires Valid() && RefOk(frames, parent) && forall k :: k in vars ==> Live(realm.heap, vars[k])
      modifies this
      ensures Valid() && s.Local? && s.fid !in old(frames)
      ensures frames == old(frames)[s.fid := Frame(vars, parent)]
    {
      s := Local(nextFrame);
      frames := frames[nextFrame := Frame(vars, parent)];
      nextFrame := nextFrame + 1;
    }

    /** `register`: at the global scope an existing variable is made
        non-configurable and a new one is defined as a writable,
        enumerable, non-configurable undefined; a local scope adds the name
        bound to undefined only if it does not bind it already. */
    method Register(s: ScopeRef, name: string)
      requires Valid() && RefOk(frames, s)
      modifies this, realm
      ensures Valid()
      ensures s.Global? ==> frames == old(frames) && OwnOnly(old(realm.heap), realm.heap, global)
      ensures s.Global? && name in old(realm.heap[global].own) ==>
        realm.heap[global].own == old(realm.heap[global].own)[name := old(realm.heap[global].own[name]).(configurable := Some(false))]
      ensures s.Global? && name !in old(realm.heap[global].own) && old(realm.heap[global].extensible) ==>
        realm.heap[global].own == old(realm.heap[global].own)[name := DeclaredDesc]
      ensures s.Global? && name !in old(realm.heap[global].own) && !old(realm.heap[global].extensible) ==>
        realm.heap == old(realm.heap)
      ensures s.Local? ==> realm.heap == old(realm.heap)
      ensures s.Local? && name in old(frames[s.fid].vars) ==> frames == old(frames)
      ensures s.Local? && name !in old(frames[s.fid].vars) ==>
        frames == old(frames)[s.fid := old(frames[s.fid]).(vars := old(frames[s.fid].vars)[name := Undefined])]
    {
      if s.Global? {
        DeclareGlobal(name);
      } else if name !in frames[s.fid].vars {
        frames := frames[s.fid := frames[s.fid].(vars := frames[s.fid].vars[name := Undefined])];
      }
    }

    /** `register` at the global scope: the variable becomes a property of
        the global object. */
    method DeclareGlobal(name: string)
      requires Valid()
      modifies realm
      ensures Valid() && OwnOnly(old(realm.heap), realm.heap, global)
      ensures name in old(realm.heap[global].own) ==>
        realm.heap[global].own == old(realm.heap[global].own)[name := old(realm.heap[global].own[name]).(configurable := Some(false))]
      ensures name !in old(realm.heap[global].own) && old(realm.heap[global].extensible) ==>
        realm.heap[global].own == old(realm.heap[global].own)[name := DeclaredDesc]
      ensures name !in old(realm.heap[global].own) && !old(realm.heap[global].extensible) ==>
        realm.heap == old(realm.heap)
    {
      ghost var h0 := realm.heap;
      if name in realm.heap[global].own {
        var d := realm.heap[global].own[name].(configurable := Some(false));
        StoreKeeps(realm.heap, global, name, d);
        realm.heap := StoreDesc(realm.heap, global, name, d);
      } else {
        DefineNew(realm.heap, realm.host, realm.heap[global].extensible, DeclaredDesc);
        var ignored := realm.DefineOwnProperty(global, name, DeclaredDesc);
      }
      FramesOkGrow(frames, h0, realm.heap);
    }

    /** `registers`: `register` of each name in turn. */
    method Registers(s: ScopeRef, names: seq<string>)
      requires Valid() && RefOk(frames, s)
      modifies this, realm
      ensures Valid()
      ensures s.Local? ==>
        && realm.heap == old(realm.heap)
        && frames == old(frames)[s.fid := old(frames[s.fid]).(vars := Declared(old(frames[s.fid].vars), names))]
      ensures s.Global? ==> frames == old(frames) && OwnOnly(old(realm.heap), realm.heap, global)
    {
      var i := 0;
      while i < |names|
        invariant 0 <= i <= |names| && Valid() && RefOk(frames, s)
        invariant s.Local? ==>
          && realm.heap == old(realm.heap)
          && frames == old(frames)[s.fid := old(frames[s.fid]).(vars := Declared(old(frames[s.fid].vars), names[..i]))]
        invariant s.Global? ==> frames == old(frames) && OwnOnly(old(realm.heap), realm.heap, global)
      {
        ghost var hb := realm.heap;
        Register(s, names[i]);
        if s.Global? {
          OwnOnlyTrans(old(realm.heap), hb, realm.heap, global);
        } else {
          DeclaredAppend(old(frames[s.fid].vars), names[..i], names[i]);
          assert names[..i + 1] == names[..i] + [names[i]];
        }
        i := i + 1;
      }
      assert names[..i] == names;
    }

    /** `put` on a scope: the local frame binding the name, if any, takes
        the new value; otherwise it is the `put` of the global object:
        refused, a new property, a new value for an own data property, or
        a call of the setter. */
    method Put(s: ScopeRef, name: string, val: Value) returns (r: Completion<Value>)
      requires Valid() && RefOk(frames, s) && Live(realm.heap, val)
      modifies this, realm
      ensures Valid()
      ensures r.Ok? ==> r.value == val
      ensures old(Binder(frames, s, name)).Local? ==>
        && r == Ok(val) && realm.heap == old(realm.heap)
        && var f := old(Binder(frames, s, name)).fid;
           frames == old(frames)[f := old(frames[f]).(vars := old(frames[f].vars)[name := val])]
      ensures old(Binder(frames, s, name)).Global? ==> frames == old(frames) && OwnOnly(old(realm.heap), realm.heap, global)
      ensures old(Binder(frames, s, name)).Global? && !old(CanPut(realm.heap, global, name)) ==>
        r == Ok(val) && realm.heap == old(realm.heap)
      ensures old(Binder(frames, s, name)).Global? && name !in old(realm.heap[global].own) && old(realm.heap[global].extensible) ==>
        r == Ok(val) && realm.heap == StoreDesc(old(realm.heap), global, name, NewDataDesc(val))
      ensures old(Binder(frames, s, name)).Global? && old(CanPut(realm.heap, global, name)) && old(OwnData(realm.heap, global, name)) ==>
        r == Ok(val) && realm.heap == StoreDesc(old(realm.heap), global, name, old(realm.heap[global].own[name]).(value := Some(val)))
      ensures old(Binder(frames, s, name)).Global? && old(CanPut(realm.heap, global, name))
              && old(!OwnData(realm.heap, global, name) && ChainAccessor(realm.heap, global, name)) ==>
        && r == AfterSetter(old(Call(realm.heap, realm.host, GetProperty(realm.heap, global, name).value.setter.value, Ref(global), [val])), val)
        && realm.heap == old(realm.heap)
      decreases Rank(s)
    {
      match s
      case Global =>
        ghost var h0 := realm.heap;
        r := realm.Put(global, name, val);
        FramesOkGrow(frames, h0, realm.heap);
      case Local(f) =>
        if name in frames[f].vars {
          frames := frames[f := frames[f].(vars := frames[f].vars[name := val])];
          return Ok(val);
        }
        r := Put(frames[f].parent, name, val);
    }

    /** `force_own_put`: the name is bound in this very scope, as a
        writable, enumerable data property of the given configurability
        at the global scope. */
    method ForceOwnPut(s: ScopeRef, name: string, val: Value, configurable: bool)
      requires Valid() && RefOk(frames, s) && Live(realm.heap, val)
      modifies this, realm
      ensures Valid()
      ensures s.Global? ==>
        && frames == old(frames)
        && realm.heap == StoreDesc(old(realm.heap), global, name, Desc(Some(val), Some(true), None, None, Some(true), Some(configurable)))
      ensures s.Local? ==>
        && realm.heap == old(realm.heap)
        && frames == old(frames)[s.fid := old(frames[s.fid]).(vars := old(frames[s.fid].vars)[name := val])]
    {
      if s.Global? {
        var d := Desc(Some(val), Some(true), None, None, Some(true), Some(configurable));
        ghost var h0 := realm.heap;
        StoreKeeps(realm.heap, global, name, d);
        realm.heap := StoreDesc(realm.heap, global, name, d);
        FramesOkGrow(frames, h0, realm.heap);
      } else {
        frames := frames[s.fid := frames[s.fid].(vars := frames[s.fid].vars[name := val])];
      }
    }

    /** `get` on a scope: the value of the local frame binding the name;
        at the global scope a ReferenceError for a name it does not have
        as its own, and otherwise the object's `get`. */
    function Get(s: ScopeRef, name: string): (r: Completion<Value>)
      reads this, realm
      requires Valid() && RefOk(frames, s)
      ensures Binder(frames, s, name).Local? ==> r == Ok(frames[Binder(frames, s, name).fid].vars[name])
      ensures Binder(frames, s, name).Global? && name !in realm.heap[global].own ==> r == Err(JsError(ReferenceError))
      ensures Binder(frames, s, name).Global? && name in realm.heap[global].own ==> r == Lookup.Get(realm.heap, realm.host, global, name)
      decreases Rank(s)
    {
      match s
      case Global =>
        if name !in realm.heap[global].own then Err(JsError(ReferenceError))
        else Lookup.Get(realm.heap, realm.host, global, name)
      case Local(f) =>
        if name in frames[f].vars then Ok(frames[f].vars[name]) else Get(frames[f].parent, name)
    }

    /** `delete` on a scope: a name bound by a local frame on the way cannot
        be deleted and stays; at the global scope it is the object's
        `delete`. */
    method Delete(s: ScopeRef, name: string) returns (r: bool)
      requires Valid() && RefOk(frames, s)
      modifies this, realm
      ensures Valid() && frames == old(frames)
      ensures old(Binder(frames, s, name)).Local? ==> !r && realm.heap == old(realm.heap)
      ensures old(Binder(frames, s, name)).Global? ==> OwnOnly(old(realm.heap), realm.heap, global)
      ensures old(Binder(frames, s, name)).Global? && name !in old(realm.heap[global].own) ==> r && realm.heap == old(realm.heap)
      ensures old(Binder(frames, s, name)).Global? && name in old(realm.heap[global].own) ==>
        && (r <==> old(realm.heap[global].own[name]).configurable == Some(true))
        && (r ==> realm.heap == RemoveKey(old(realm.heap), global, name))
        && (!r ==> realm.heap == old(realm.heap))
      decreases Rank(s)
    {
      match s
      case Global =>
        ghost var h0 := realm.heap;
        r := realm.Delete(global, name);
        FramesOkGrow(frames, h0, realm.heap);
      case Local(f) =>
        if name in frames[f].vars {
          return false;
        }
        r := Delete(frames[f].parent, name);
    }
  }
}
