/** The mutable object store: the heap of objects, and the operations of
    the base object and of arrays that change it in place. */
module Runtime {
  import opened Wrappers
  import opened Numbers
  import opened NumberText
  import opened Values
  import opened Lookup
  import opened Coercion
  import opened Operators
  import opened Descriptors

  /** A value the `length` of an array can hold: a whole number from 0 to
      2^32 (the top value is reached by writing index 2^32 - 1). */
  predicate IsLengthValue(v: Value) {
    v.Number? && v.n.Fin? && v.n.r == v.n.r.Floor as real && 0.0 <= v.n.r <= Two32 as real
  }

  /** An array's `length` is a non-configurable data property holding a
      length value. */
  predicate LengthOk(d: Desc) {
    d.value.Some? && IsLengthValue(d.value.value) && d.writable.Some? && d.configurable == Some(false)
  }

  predicate ArraysOk(h: Heap) {
    forall id :: id in h && h[id].cls == ArrayClass ==> "length" in h[id].own && LengthOk(h[id].own["length"])
  }

  /** `old_len_desc['value'].value`. */
  function ArrayLength(h: Heap, id: ObjId): nat
    requires ArraysOk(h) && id in h && h[id].cls == ArrayClass
  {
    h[id].own["length"].value.value.n.r.Floor
  }

  /** A request the base `[[DefineOwnProperty]]` may apply to an array's
      `length`: one that does not carry a value, or carries a length
      value. */
  predicate LengthSafe(h: Heap, id: ObjId, prop: string, req: Desc)
    requires id in h
  {
    h[id].cls == ArrayClass && prop == "length" ==> req.value.None? || IsLengthValue(req.value.value)
  }

  /** The heap after `self.own[prop] = d` on object `id`. */
  function StoreDesc(h: Heap, id: ObjId, prop: string, d: Desc): Heap
    requires id in h
  {
    h[id := h[id].(own := h[id].own[prop := d])]
  }

  /** The heap after `del self.own[prop]` on object `id`. */
  function RemoveKey(h: Heap, id: ObjId, prop: string): Heap
    requires id in h
  {
    h[id := h[id].(own := h[id].own - {prop})]
  }

  /** The heap after a successful `define_own_property`, by outcome. */
  function Apply(h: Heap, id: ObjId, prop: string, out: Outcome): Heap
    requires id in h
  {
    if out.Store? then StoreDesc(h, id, prop, out.d) else h
  }

  /** What `define_own_property` answers for an outcome. */
  function Answer(out: Completion<Outcome>): Completion<bool> {
    match out
    case Err(a) => Err(a)
    case Ok(o) => Ok(!o.Reject?)
  }

  /** A define of one name leaves every other name of the object as it
      was. */
  lemma OtherKeyKept(h: Heap, id: ObjId, prop: string, out: Outcome, key: string)
    requires id in h && key != prop
    ensures id in Apply(h, id, prop, out)
    ensures key in Apply(h, id, prop, out)[id].own <==> key in h[id].own
    ensures key in h[id].own ==> Apply(h, id, prop, out)[id].own[key] == h[id].own[key]
  {
  }

  /** A store after changes confined to one object's own table is still
      confined to it. */
  lemma OwnOnlyStore(h0: Heap, h1: Heap, id: ObjId, prop: string, d: Desc)
    requires id in h0 && OwnOnly(h0, h1, id)
    ensures OwnOnly(h0, StoreDesc(h1, id, prop, d), id)
  {
  }

  lemma OwnOnlyTrans(h0: Heap, h1: Heap, h2: Heap, id: ObjId)
    requires id in h0 && OwnOnly(h0, h1, id) && OwnOnly(h1, h2, id)
    ensures OwnOnly(h0, h2, id)
  {
  }

  /** The walk of `has_instance` up the prototype chain of `start`:
      whether `target` is met above `start` itself. */
  method ProperAncestor(h: Heap, start: ObjId, target: ObjId) returns (found: bool)
    requires HeapOk(h) && start in h
    ensures found <==> target in Chain(h, start)[1..]
  {
    ghost var ch := Chain(h, start);
    ghost var i := 0;
    var c := start;
    while h[c].proto.Some?
      invariant c in h && 0 <= i < |ch| && ch[i..] == Chain(h, c)
      invariant forall j :: 1 <= j <= i ==> ch[j] != target
      decreases c
    {
      assert ChainOk(h, c);
      assert ch[i + 1..] == Chain(h, h[c].proto.value);
      c := h[c].proto.value;
      i := i + 1;
      if c == target {
        assert ch[i] == c;
        return true;
      }
    }
    assert |ch| == i + 1;
    return false;
  }

  /** Storing a descriptor that invariants allow keeps the invariants. */
  lemma StoreKeeps(h: Heap, id: ObjId, prop: string, d: Desc)
    requires HeapOk(h) && ArraysOk(h) && id in h && StoredOk(d) && DescLive(h, d)
    requires h[id].cls == ArrayClass && prop == "length" ==> LengthOk(d)
    ensures HeapOk(StoreDesc(h, id, prop, d)) && ArraysOk(StoreDesc(h, id, prop, d))
  {
    var h' := StoreDesc(h, id, prop, d);
    forall o | o in h'
      ensures ChainOk(h', o)
    {
      assert ChainOk(h, o);
    }
  }

  /** Whatever the base `[[DefineOwnProperty]]` stores keeps the store's
      invariants: in particular an array's `length` stays a
      non-configurable data property holding a length value. */
  lemma StoreKeepsLength(h: Heap, host: Host, id: ObjId, prop: string, req: Desc)
    requires HeapOk(h) && ArraysOk(h) && id in h && WellFormedRequest(req) && DescLive(h, req)
    requires LengthSafe(h, id, prop, req)
    ensures var out := DefineOutcome(h, host, GetOwnProperty(h, id, prop), h[id].extensible, req);
      out.Ok? && out.value.Store? ==> HeapOk(StoreDesc(h, id, prop, out.value.d)) && ArraysOk(StoreDesc(h, id, prop, out.value.d))
  {
    var cur := GetOwnProperty(h, id, prop);
    var out := DefineOutcome(h, host, cur, h[id].extensible, req);
    if out.Ok? && out.value.Store? {
      if h[id].cls == ArrayClass && prop == "length" {
        assert LengthOk(cur.value);
        NonConfigurableStore(h, host, cur.value, h[id].extensible, req);
        assert LengthOk(out.value.d);
      }
      StoreKeeps(h, id, prop, out.value.d);
    }
  }

  /** Only the own table of object `id` differs between the two heaps. */
  predicate OwnOnly(h0: Heap, h1: Heap, id: ObjId)
    requires id in h0
  {
    && h1.Keys == h0.Keys
    && h1[id] == h0[id].(own := h1[id].own)
    && forall o :: o in h0 && o != id ==> h1[o] == h0[o]
  }

  /** The descriptor `put` creates: `{value, writable, configurable,
      enumerable}` all true. */
  function NewDataDesc(v: Value): Desc {
    Desc(Some(v), Some(true), None, None, Some(true), Some(true))
  }

  /** The object has `prop` as an own data property. */
  predicate OwnData(h: Heap, id: ObjId, prop: string)
    requires id in h
  {
    prop in h[id].own && IsDataDesc(h[id].own[prop])
  }

  /** The lookup of `prop` from `id` finds an accessor. */
  predicate ChainAccessor(h: Heap, id: ObjId, prop: string)
    requires HeapOk(h) && id in h
  {
    GetProperty(h, id, prop).Some? && IsAccessorDesc(GetProperty(h, id, prop).value)
  }

  /** What `put` answers after calling a setter: the value put, or the
      setter's failure. */
  function AfterSetter(c: Completion<Value>, val: Value): Completion<Value> {
    match c
    case Ok(_) => Ok(val)
    case Err(a) => Err(a)
  }

  /** The names of the indices `lo` .. `hi - 1`. */
  function IndexKeys(lo: nat, hi: nat): set<string> {
    set j: nat | lo <= j < hi :: NatToString(j)
  }

  lemma IndexKeyNotLength(j: nat)
    ensures NatToString(j) != "length"
  {
    NatToStringRoundTrip(j);
    assert IsDigit(NatToString(j)[0]);
  }

  lemma LengthNotIndexKey(lo: nat, hi: nat)
    ensures "length" !in IndexKeys(lo, hi)
  {
    if "length" in IndexKeys(lo, hi) {
      var j: nat :| lo <= j < hi && NatToString(j) == "length";
      IndexKeyNotLength(j);
    }
  }

  /** The name of an index below the range is not in it. */
  lemma BelowIndexKeys(k: nat, lo: nat, hi: nat)
    requires k < lo
    ensures NatToString(k) !in IndexKeys(lo, hi)
  {
    if NatToString(k) in IndexKeys(lo, hi) {
      var j: nat :| lo <= j < hi && NatToString(j) == NatToString(k);
      NatToStringInjective(j, k);
    }
  }

  lemma IndexKeysStep(lo: nat, hi: nat)
    requires lo < hi
    ensures IndexKeys(lo, hi) == IndexKeys(lo + 1, hi) + {NatToString(lo)}
  {
  }

  /** The new length a `length` request asks for: its `to_uint32`, which
      must equal its `to_number` or the request is a RangeError. The
      source converts twice; both conversions are the same `to_number`,
      so the model runs it once. */
  function NewLength(h: Heap, host: Host, v: Value): (r: Completion<nat>)
    requires HeapOk(h) && Live(h, v)
    ensures r.Ok? ==> r.value < Two32
    ensures ToNumeric(h, host, v).Err? ==> r == Err(ToNumeric(h, host, v).abrupt)
  {
    match ToNumeric(h, host, v)
    case Err(a) => Err(a)
    case Ok(n) =>
      var u := NumberToUint32(n);
      Uint32Range(n);
      if NumEq(Fin(u as real), n) then Ok(u) else Err(JsError(RangeError))
  }

  /** A length request succeeds exactly on a whole number from 0 to
      2^32 - 1, and gives that number; any other number is a RangeError. */
  lemma NewLengthSpec(h: Heap, host: Host, v: Value)
    requires HeapOk(h) && Live(h, v)
    ensures var n := ToNumeric(h, host, v);
      NewLength(h, host, v).Ok? <==> n.Ok? && n.value.Fin? && n.value.r == (n.value.r.Floor as real) && 0.0 <= n.value.r < Two32 as real
    ensures NewLength(h, host, v).Ok? ==> ToNumeric(h, host, v) == Ok(Fin(NewLength(h, host, v).value as real))
    ensures ToNumeric(h, host, v).Ok? && NewLength(h, host, v).Err? ==> NewLength(h, host, v) == Err(JsError(RangeError))
  {
    if ToNumeric(h, host, v).Ok? {
      Uint32Exact(ToNumeric(h, host, v).value);
    }
  }

  /** The base define refuses a new value for a writable, non-configurable
      `length` exactly when the request asks for `configurable: true` or
      for a different `enumerable`. */
  predicate LengthRefused(len: Desc, req: Desc) {
    req.configurable == Some(true) || (req.enumerable.Some? && req.enumerable != len.enumerable)
  }

  /** Changing the number a writable, non-configurable `length` holds is
      refused only for asking `configurable: true` or a different
      `enumerable`; otherwise the request is merged into the descriptor. */
  lemma LengthChangeOutcome(h: Heap, host: Host, cur: Desc, extensible: bool, req: Desc, x: real, y: real)
    requires HeapOk(h) && DescLive(h, req) && WellFormedRequest(req)
    requires StoredOk(cur) && DescLive(h, cur) && IsDataDesc(cur)
    requires cur.configurable == Some(false) && cur.writable == Some(true)
    requires req.value == Some(Number(Fin(x))) && cur.value == Some(Number(Fin(y))) && x != y
    ensures DefineOutcome(h, host, Some(cur), extensible, req) ==
      if LengthRefused(cur, req) then Ok(Reject) else Ok(Store(Update(cur, req)))
  {
    assert LooseEq(h, host, Number(Fin(x)), Number(Fin(y))) == Ok(false);
    assert EntryEq(h, host, req.value, cur.value) == Ok(false);
    assert DescEquals(h, host, req, cur) == Ok(false);
  }

  /** Merging an accepted new value into a writable, non-configurable
      `length` changes only its value and writability. */
  lemma LengthUpdate(cur: Desc, req: Desc)
    requires StoredOk(cur) && IsDataDesc(cur) && cur.configurable == Some(false)
    requires WellFormedRequest(req) && req.value.Some? && !LengthRefused(cur, req)
    ensures Update(cur, req) == cur.(value := req.value, writable := Override(req.writable, cur.writable))
  {
    assert IsDataDesc(req) && req.getter.None? && req.setter.None?;
    assert req.configurable != Some(true);
    if req.configurable.Some? {
      assert !req.configurable.value;
    }
    assert Override(req.configurable, cur.configurable) == cur.configurable;
    assert Override(req.enumerable, cur.enumerable) == cur.enumerable;
  }

  /** After the deletions of indices [lo, hi) the own table is the old
      one without those names and with `length` replaced. */
  predicate Shrunk(own0: map<string, Desc>, own1: map<string, Desc>, lo: nat, hi: nat, len: Desc) {
    own1 == (own0 - IndexKeys(lo, hi))["length" := len]
  }

  /** The table a failed deletion leaves: the indices [lo, hi) gone and
      `length` rewritten, stated against the starting table. */
  lemma StopShrunk(own0: map<string, Desc>, before: map<string, Desc>, after: map<string, Desc>,
                   lo: nat, hi: nat, v: Option<Value>, w: Option<bool>)
    requires "length" in own0 && "length" !in IndexKeys(lo, hi)
    requires before == own0 - IndexKeys(lo, hi)
    requires after == before["length" := before["length"].(value := v, writable := w)]
    ensures Shrunk(own0, after, lo, hi, own0["length"].(value := v, writable := w))
  {
    assert before["length"] == own0["length"];
  }

  /** The table the deletion loop leaves on success, with `length` made
      read-only or left writable. */
  lemma DoneShrunk(own0: map<string, Desc>, own: map<string, Desc>, lo: nat, hi: nat)
    requires "length" in own0 && "length" !in IndexKeys(lo, hi)
    requires own == own0 - IndexKeys(lo, hi) && own0["length"].writable == Some(true)
    ensures Shrunk(own0, own, lo, hi, own0["length"].(writable := Some(true)))
    ensures Shrunk(own0, own["length" := own["length"].(writable := Some(false))], lo, hi,
      own0["length"].(writable := Some(false)))
  {
    assert own["length"] == own0["length"];
    assert own0["length"].(writable := Some(true)) == own0["length"];
    assert own["length" := own0["length"]] == own;
  }

  /** What defining index `index` (named `prop`) leaves when the length
      does not refuse it: the answer is the base define's; a define that
      does not answer true changes nothing; one that does stores its
      descriptor and, for an index at or beyond the length, sets `length`
      to one past the index. */
  ghost predicate IndexStored(h0: Heap, h1: Heap, host: Host, id: ObjId, prop: string, req: Desc,
                              index: nat, r: Completion<bool>)
    requires HeapOk(h0) && ArraysOk(h0) && id in h0 && h0[id].cls == ArrayClass
    requires WellFormedRequest(req) && DescLive(h0, req)
  {
    var out := DefineOutcome(h0, host, GetOwnProperty(h0, id, prop), h0[id].extensible, req);
    && r == Answer(out)
    && (r != Ok(true) ==> h1 == h0)
    && (r == Ok(true) && index < ArrayLength(h0, id) ==> h1 == Apply(h0, id, prop, out.value))
    && (r == Ok(true) && index >= ArrayLength(h0, id) ==>
          h1 == StoreDesc(Apply(h0, id, prop, out.value), id, "length",
            h0[id].own["length"].(value := Some(Number(Fin((index + 1) as real))))))
  }

  /** Index `k` is present and cannot be deleted. */
  predicate Undeletable(own: map<string, Desc>, k: nat) {
    NatToString(k) in own && own[NatToString(k)].configurable == Some(false)
  }

  /** One step of the deletion loop: deleting the name of index `k` from
      the table already missing [k + 1, hi) gives the table missing
      [k, hi), and a failed deletion sees the entry of the starting
      table. */
  lemma DeleteStep(own0: map<string, Desc>, own: map<string, Desc>, k: nat, hi: nat)
    requires k < hi && own == own0 - IndexKeys(k + 1, hi)
    ensures own - {NatToString(k)} == own0 - IndexKeys(k, hi)
    ensures NatToString(k) in own <==> NatToString(k) in own0
    ensures NatToString(k) in own ==> own[NatToString(k)] == own0[NatToString(k)]
    ensures "length" !in IndexKeys(k, hi)
  {
    BelowIndexKeys(k, k + 1, hi);
    IndexKeysStep(k, hi);
    LengthNotIndexKey(k, hi);
  }

  /** What a shrinking `length` write to `newLen` (request `req`) leaves,
      by answer: a read-only `length`, or a request the base define
      refuses, changes nothing; otherwise the indices are deleted from the
      top down. Success, exactly when no index in [newLen, old length) is
      undeletable, removes all of them, leaves length `newLen` and
      `length` writable as `w` says; otherwise the deletion stops at the
      highest undeletable index, with the indices above it removed and
      length one past it. No other name changes. */
  ghost predicate ShrinkDone(h0: Heap, h1: Heap, id: ObjId, newLen: nat, req: Desc, r: bool, w: bool)
    requires ArraysOk(h0) && id in h0 && h0[id].cls == ArrayClass
  {
    var oldLen := ArrayLength(h0, id);
    var own0 := h0[id].own;
    var refused := own0["length"].writable == Some(false) || LengthRefused(own0["length"], req);
    && OwnOnly(h0, h1, id) && ArraysOk(h1)
    && (refused ==> !r && h1 == h0)
    && (r ==> && (forall j :: newLen <= j < oldLen ==> !Undeletable(own0, j))
              && h1[id].own - {"length"} == own0 - {"length"} - IndexKeys(newLen, oldLen)
              && ArrayLength(h1, id) == newLen && h1[id].own["length"].writable == Some(w)
              && h1[id].own["length"] == own0["length"].(value := Some(Number(Fin(newLen as real))), writable := Some(w)))
    && (!r && !refused ==>
          exists stop: nat ::
            && newLen <= stop < oldLen && Undeletable(own0, stop)
            && (forall j :: stop < j < oldLen ==> !Undeletable(own0, j))
            && h1[id].own - {"length"} == own0 - {"length"} - IndexKeys(stop + 1, oldLen)
            && ArrayLength(h1, id) == stop + 1 && h1[id].own["length"].writable == Some(w)
            && h1[id].own["length"] == own0["length"].(value := Some(Number(Fin((stop + 1) as real))), writable := Some(w)))
  }

  /** A refused shrink changes nothing and answers false. */
  lemma ShrinkRefused(h0: Heap, id: ObjId, newLen: nat, req: Desc, w: bool)
    requires ArraysOk(h0) && id in h0 && h0[id].cls == ArrayClass
    requires h0[id].own["length"].writable == Some(false) || LengthRefused(h0[id].own["length"], req)
    ensures ShrinkDone(h0, h0, id, newLen, req, false, w)
  {
  }

  /** Index names are never `length`, so a table that differs from
      another only at `length` has the same undeletable indices. */
  lemma UndeletableBesideLength(own0: map<string, Desc>, own1: map<string, Desc>)
    requires own1 - {"length"} == own0 - {"length"}
    ensures forall j :: Undeletable(own0, j) <==> Undeletable(own1, j)
  {
    forall j: nat
      ensures Undeletable(own0, j) <==> Undeletable(own1, j)
    {
      var key := NatToString(j);
      IndexKeyNotLength(j);
      assert key in own0 <==> key in own0 - {"length"};
      assert key in own1 <==> key in own1 - {"length"};
      if key in own0 {
        assert (own0 - {"length"})[key] == own0[key];
        assert (own1 - {"length"})[key] == own1[key];
      }
    }
  }

  /** The deletion loop's result, stated against the table it started
      from, as a result against the table before `length` was first
      changed. */
  lemma ShrinkDoneFromLoop(h0: Heap, h1: Heap, h2: Heap, id: ObjId, newLen: nat, req: Desc, r: bool, w: bool)
    requires ArraysOk(h0) && ArraysOk(h2) && id in h0 && h0[id].cls == ArrayClass
    requires newLen < ArrayLength(h0, id) && h0[id].own["length"].writable == Some(true)
    requires !LengthRefused(h0[id].own["length"], req)
    requires OwnOnly(h0, h1, id) && OwnOnly(h1, h2, id)
    requires "length" in h1[id].own && h1[id].own - {"length"} == h0[id].own - {"length"}
    requires h1[id].own["length"] == h0[id].own["length"].(value := Some(Number(Fin(newLen as real))), writable := Some(true))
    requires r ==> Shrunk(h1[id].own, h2[id].own, newLen, ArrayLength(h0, id),
      h1[id].own["length"].(writable := Some(w)))
    requires r ==> forall j :: newLen <= j < ArrayLength(h0, id) ==> !Undeletable(h1[id].own, j)
    requires !r ==> exists stop: nat ::
        (&& newLen <= stop < ArrayLength(h0, id) && Undeletable(h1[id].own, stop)
         && (forall j :: stop < j < ArrayLength(h0, id) ==> !Undeletable(h1[id].own, j))
         && Shrunk(h1[id].own, h2[id].own, stop + 1, ArrayLength(h0, id),
              h1[id].own["length"].(value := Some(Number(Fin((stop + 1) as real))), writable := Some(w))))
    ensures ShrinkDone(h0, h2, id, newLen, req, r, w)
  {
    if r {
      DoneFromLoop(h0, h1, h2, id, newLen, req, w);
    } else {
      var stop: nat :| && newLen <= stop < ArrayLength(h0, id) && Undeletable(h1[id].own, stop)
        && (forall j :: stop < j < ArrayLength(h0, id) ==> !Undeletable(h1[id].own, j))
        && Shrunk(h1[id].own, h2[id].own, stop + 1, ArrayLength(h0, id),
             h1[id].own["length"].(value := Some(Number(Fin((stop + 1) as real))), writable := Some(w)));
      StopFromLoop(h0, h1, h2, id, newLen, req, w, stop);
    }
  }

  /** A completed deletion loop, stated against the table before `length`
      was first changed. */
  lemma DoneFromLoop(h0: Heap, h1: Heap, h2: Heap, id: ObjId, newLen: nat, req: Desc, w: bool)
    requires ArraysOk(h0) && ArraysOk(h2) && id in h0 && h0[id].cls == ArrayClass
    requires newLen < ArrayLength(h0, id) && h0[id].own["length"].writable == Some(true)
    requires !LengthRefused(h0[id].own["length"], req)
    requires OwnOnly(h0, h1, id) && OwnOnly(h1, h2, id)
    requires "length" in h1[id].own && h1[id].own - {"length"} == h0[id].own - {"length"}
    requires h1[id].own["length"] == h0[id].own["length"].(value := Some(Number(Fin(newLen as real))), writable := Some(true))
    requires Shrunk(h1[id].own, h2[id].own, newLen, ArrayLength(h0, id), h1[id].own["length"].(writable := Some(w)))
    requires forall j :: newLen <= j < ArrayLength(h0, id) ==> !Undeletable(h1[id].own, j)
    ensures ShrinkDone(h0, h2, id, newLen, req, true, w)
  {
    UndeletableBesideLength(h0[id].own, h1[id].own);
    LengthNotIndexKey(newLen, ArrayLength(h0, id));
  }

  /** A deletion loop stopped at index `stop`, stated against the table
      before `length` was first changed. */
  lemma StopFromLoop(h0: Heap, h1: Heap, h2: Heap, id: ObjId, newLen: nat, req: Desc, w: bool, stop: nat)
    requires ArraysOk(h0) && ArraysOk(h2) && id in h0 && h0[id].cls == ArrayClass
    requires newLen < ArrayLength(h0, id) && h0[id].own["length"].writable == Some(true)
    requires !LengthRefused(h0[id].own["length"], req)
    requires OwnOnly(h0, h1, id) && OwnOnly(h1, h2, id)
    requires "length" in h1[id].own && h1[id].own - {"length"} == h0[id].own - {"length"}
    requires h1[id].own["length"] == h0[id].own["length"].(value := Some(Number(Fin(newLen as real))), writable := Some(true))
    requires newLen <= stop < ArrayLength(h0, id) && Undeletable(h1[id].own, stop)
    requires forall j :: stop < j < ArrayLength(h0, id) ==> !Undeletable(h1[id].own, j)
    requires Shrunk(h1[id].own, h2[id].own, stop + 1, ArrayLength(h0, id),
      h1[id].own["length"].(value := Some(Number(Fin((stop + 1) as real))), writable := Some(w)))
    ensures ShrinkDone(h0, h2, id, newLen, req, false, w)
  {
    var oldLen := ArrayLength(h0, id);
    UndeletableBesideLength(h0[id].own, h1[id].own);
    LengthNotIndexKey(stop + 1, oldLen);
    assert h2[id].own - {"length"} == h0[id].own - {"length"} - IndexKeys(stop + 1, oldLen);
  }

  /** The descriptor every item of the global scope starts with: the
      value, read-only, not enumerable, not configurable. */
  function FrozenDesc(v: Value): Desc {
    Desc(Some(v), Some(false), None, None, Some(false), Some(false))
  }

  /** The own table the global scope is created with. */
  function FrozenTable(items: map<string, Value>): map<string, Desc> {
    FrozenPart(items, items.Keys)
  }

  /** The part of the global table made of the items in `done`. */
  function FrozenPart(items: map<string, Value>, done: set<string>): map<string, Desc> {
    map k | k in items && k in done :: FrozenDesc(items[k])
  }

  /** Defining one more item adds exactly its frozen descriptor. */
  lemma FrozenStep(items: map<string, Value>, done: set<string>, k: string)
    requires k in items && k !in done
    ensures k !in FrozenPart(items, done)
    ensures FrozenPart(items, done + {k}) == FrozenPart(items, done)[k := FrozenDesc(items[k])]
  {
  }

  /** One step of building the global object: storing the next item's
      frozen descriptor gives the object holding one more item. */
  lemma GlobalStep(h0: Heap, h: Heap, g: ObjId, items: map<string, Value>, done: set<string>, k: string)
    requires h == h0[g := Obj(FrozenPart(items, done), None, true, Ordinary, false)]
    requires k in items && k !in done
    ensures GetOwnProperty(h, g, k).None?
    ensures StoreDesc(h, g, k, FrozenDesc(items[k])) == h0[g := Obj(FrozenPart(items, done + {k}), None, true, Ordinary, false)]
  {
    FrozenStep(items, done, k);
  }

  /** `str(old_len)` in the deletion loop as base.py writes it. A
      `length` write stores the new length as a host float, and the loop
      decrements that float, so the name it deletes is `k.0` rather than
      `k`; a length grown by an index write is a host integer and renders
      as `k`. */
  function ShrinkKeyAsWritten(k: nat, storedAsFloat: bool): string {
    if storedAsFloat then NatToString(k) + ".0" else NatToString(k)
  }

  /** The deletion loop as written, on a table whose entries are all
      configurable: it removes the names `ShrinkKeyAsWritten(j)` for j
      from `k - 1` down to `lo`. */
  function DeleteLoopAsWritten(own: map<string, Desc>, lo: nat, k: nat, storedAsFloat: bool): map<string, Desc>
    decreases k
  {
    if k <= lo then own
    else DeleteLoopAsWritten(own - {ShrinkKeyAsWritten(k - 1, storedAsFloat)}, lo, k - 1, storedAsFloat)
  }

  /** A float length renders as a name that is neither an index nor
      `length`. */
  lemma FloatKeyIsNoIndex(k: nat)
    ensures !IsDigits(ShrinkKeyAsWritten(k, true)) && ShrinkKeyAsWritten(k, true) != "length"
  {
    var key := ShrinkKeyAsWritten(k, true);
    assert key[|key| - 2] == '.';
    assert key[|key| - 1] == '0';
  }

  /** On an array table (index names and `length`), the loop as written
      deletes nothing once the length is stored as a float: shrinking
      such an array leaves every element in place, where the corrected
      loop (`ShrinkLength`) removes every index at or above the new
      length. */
  lemma {:induction false} DeleteLoopAsWrittenKeepsAll(own: map<string, Desc>, lo: nat, k: nat)
    requires forall name :: name in own ==> IsDigits(name) || name == "length"
    ensures DeleteLoopAsWritten(own, lo, k, true) == own
    decreases k
  {
    if k > lo {
      FloatKeyIsNoIndex(k - 1);
      assert own - {ShrinkKeyAsWritten(k - 1, true)} == own;
      DeleteLoopAsWrittenKeepsAll(own, lo, k - 1);
    }
  }

  /** The payload of the number object held in an array's `length`: a
      host float, as `Js` makes it, or the host integer that an index write
      at or past the length stores there directly. On a host whose `int`
      is 64 bits wide, `int(prop) % 2**32` is such an integer. */
  datatype LengthPayload = FloatPayload(n: Num) | IntPayload(k: int)

  /** The payload an index write at `index` leaves in `length`, as written:
      the host integer index + 1. */
  function GrownPayloadAsWritten(index: nat): LengthPayload {
    IntPayload(index + 1)
  }

  /** `to_string` on the `length` number object: the whole-number test
      calls `is_integer`, which a host integer does not have. */
  function PayloadToString(host: Host, p: LengthPayload): Completion<string> {
    match p
    case FloatPayload(n) => Ok(NumberToString(host, n))
    case IntPayload(_) => Err(HostFault(AttributeError))
  }

  function PayloadNum(p: LengthPayload): Num {
    match p
    case FloatPayload(n) => n
    case IntPayload(k) => Fin(k as real)
  }

  /** `/` on two `length` payloads: the host divides two integers with
      the floor, and anything else as numbers. */
  function PayloadDivide(a: LengthPayload, b: LengthPayload): Num {
    if a.IntPayload? && b.IntPayload? && b.k != 0 then Fin(Floor(a.k as real / b.k as real) as real)
    else Divide(PayloadNum(a), PayloadNum(b))
  }

  /** After `[1,2,3]` is built, its `length` holds the host integer 3: as
      written, converting it to a string fails, and dividing it by the
      `length` 2 of `[1,2]` gives 1. The number that `GrowLength` stores
      instead converts to "3" and divides to 1.5. */
  lemma GrownPayloadCounterexample(host: Host)
    ensures PayloadToString(host, GrownPayloadAsWritten(2)) == Err(HostFault(AttributeError))
    ensures PayloadDivide(GrownPayloadAsWritten(2), GrownPayloadAsWritten(1)) == Fin(1.0)
    ensures PayloadToString(host, FloatPayload(Fin(3.0))) == Ok("3")
    ensures PayloadDivide(FloatPayload(Fin(3.0)), FloatPayload(Fin(2.0))) == Fin(1.5)
  {
    assert Floor(3.0 / 2.0) == 1;
    WholeNumberTextRoundTrip(host, 3);
    assert NatToString(3) == "3";
  }

  /** The length `GrowLength` stores after an index write reads back as
      the decimal numeral of index + 1, and divides as a number. */
  lemma GrownLengthReads(host: Host, index: nat, other: Num)
    ensures PayloadToString(host, FloatPayload(Fin((index + 1) as real))) == Ok(IntToString(index + 1))
    ensures PayloadDivide(FloatPayload(Fin((index + 1) as real)), FloatPayload(other)) == Divide(Fin((index + 1) as real), other)
  {
    WholeNumberTextRoundTrip(host, index + 1);
  }

  class Realm {
    var heap: Heap
    /** The next object id to hand out; every id in use is below it. */
    var next: nat
    const host: Host

    ghost predicate Valid()
      reads this
    {
      HeapOk(heap) && ArraysOk(heap) && forall id :: id in heap ==> id < next
    }

    constructor (h: Heap, next: nat, host: Host)
      requires HeapOk(h) && ArraysOk(h) && forall id :: id in h ==> id < next
      ensures Valid() && heap == h && this.host == host
    {
      heap := h;
      this.next := next;
      this.host := host;
    }

    /** A new empty extensible object, not callable. */
    method NewObject(proto: Option<ObjId>, cls: ObjClass) returns (id: ObjId)
      requires Valid() && cls != ArrayClass && (proto.Some? ==> proto.value in heap)
      modifies this
      ensures Valid() && id !in old(heap)
      ensures heap == old(heap)[id := Obj(map[], proto, true, cls, false)]
    {
      id := next;
      next := next + 1;
      heap := heap[id := Obj(map[], proto, true, cls, false)];
      forall o | o in heap
        ensures ChainOk(heap, o)
      {
        if o != id {
          assert ChainOk(old(heap), o);
        }
      }
    }

    /** The global scope object: a new object whose own properties are the
        given items, each defined read-only, not enumerable and not
        configurable. The items are defined one by one in no particular
        order; the result does not depend on it. */
    method NewGlobal(items: map<string, Value>) returns (g: ObjId)
      requires Valid() && forall k :: k in items ==> Live(heap, items[k])
      modifies this
      ensures Valid() && g !in old(heap)
      ensures heap == old(heap)[g := Obj(FrozenTable(items), None, true, Ordinary, false)]
    {
      g := NewObject(None, Ordinary);
      ghost var h0 := old(heap);
      ghost var done: set<string> := {};
      var rest := items.Keys;
      while rest != {}
        invariant Valid() && g in heap && heap.Keys == h0.Keys + {g}
        invariant rest <= items.Keys && done == items.Keys - rest
        invariant heap == h0[g := Obj(FrozenPart(items, done), None, true, Ordinary, false)]
        decreases rest
      {
        label Step:
        var k :| k in rest;
        GlobalStep(h0, heap, g, items, done, k);
        var req := FrozenDesc(items[k]);
        assert Live(heap, items[k]);
        DefineNew(heap, host, true, req);
        assert Decide(g, k, req) == Ok(Store(req));
        var ignored := BaseDefine(g, k, req);
        assert heap == StoreDesc(old@Step(heap), g, k, req);
        rest := rest - {k};
        done := done + {k};
      }
      assert done == items.Keys;
    }

    /** The decision the base `[[DefineOwnProperty]]` takes on the current
        heap. */
    function Decide(id: ObjId, prop: string, req: Desc): Completion<Outcome>
      reads this
      requires Valid() && id in heap && WellFormedRequest(req) && DescLive(heap, req)
    {
      var cur := GetOwnProperty(heap, id, prop);
      DefineOutcome(heap, host, cur, heap[id].extensible, req)
    }

    /** `PyJs.define_own_property` on object `id`: the steps decide, and
        a stored descriptor replaces the property in the object's own
        table. */
    method BaseDefine(id: ObjId, prop: string, req: Desc) returns (r: Completion<bool>)
      requires Valid() && id in heap && WellFormedRequest(req) && DescLive(heap, req)
      requires LengthSafe(heap, id, prop, req)
      modifies this
      ensures Valid() && OwnOnly(old(heap), heap, id)
      ensures r == Answer(old(Decide(id, prop, req)))
      ensures old(Decide(id, prop, req)).Ok? ==> heap == Apply(old(heap), id, prop, old(Decide(id, prop, req)).value)
      ensures old(Decide(id, prop, req)).Err? ==> heap == old(heap)
    {
      StoreKeepsLength(heap, host, id, prop, req);
      var out := DefineSteps(heap, host, GetOwnProperty(heap, id, prop), heap[id].extensible, req);
      match out
      case Err(a) =>
        r := Err(a);
      case Ok(o) =>
        if o.Store? {
          heap := StoreDesc(heap, id, prop, o.d);
        }
        r := Ok(!o.Reject?);
    }

    /** `put` on an ordinary object: nothing happens where `can_put`
        refuses; an own data property gets the new value; an accessor found
        on the chain has its setter called with the object as `this`;
        otherwise a new own data property is created. The value put is
        what `put` answers. */
    method Put(id: ObjId, prop: string, val: Value) returns (r: Completion<Value>)
      requires Valid() && id in heap && Live(heap, val)
      modifies this
      ensures Valid() && OwnOnly(old(heap), heap, id)
      ensures r.Ok? ==> r.value == val
      ensures !old(CanPut(heap, id, prop)) ==> r == Ok(val) && heap == old(heap)
      ensures old(CanPut(heap, id, prop) && heap[id].cls != ArrayClass && OwnData(heap, id, prop)) ==>
        r == Ok(val) && heap == StoreDesc(old(heap), id, prop, old(heap)[id].own[prop].(value := Some(val)))
      ensures old(CanPut(heap, id, prop) && !OwnData(heap, id, prop) && ChainAccessor(heap, id, prop)) ==>
        r == AfterSetter(old(Call(heap, host, GetProperty(heap, id, prop).value.setter.value, Ref(id), [val])), val)
        && heap == old(heap)
      ensures old(CanPut(heap, id, prop) && heap[id].cls != ArrayClass && !OwnData(heap, id, prop) && !ChainAccessor(heap, id, prop)) ==>
        r == Ok(val) && heap == StoreDesc(old(heap), id, prop, NewDataDesc(val))
    {
      if !CanPut(heap, id, prop) {
        return Ok(val);
      }
      var ownDesc := GetOwnProperty(heap, id, prop);
      if ownDesc.Some? && IsDataDesc(ownDesc.value) {
        r := PutOwn(id, prop, val);
      } else {
        r := PutInherited(id, prop, val);
      }
    }

    /** `put` where the object holds `prop` as an own data property: only
        its value changes. */
    method PutOwn(id: ObjId, prop: string, val: Value) returns (r: Completion<Value>)
      requires Valid() && id in heap && Live(heap, val) && OwnData(heap, id, prop)
      modifies this
      ensures Valid() && OwnOnly(old(heap), heap, id)
      ensures r.Ok? ==> r.value == val
      ensures old(heap)[id].cls != ArrayClass ==>
        r == Ok(val) && heap == StoreDesc(old(heap), id, prop, old(heap)[id].own[prop].(value := Some(val)))
    {
      var d := heap[id].own[prop].(value := Some(val));
      if heap[id].cls == ArrayClass {
        var ignored :- DefineOwnProperty(id, prop, EmptyDesc.(value := Some(val)));
      } else {
        StoreKeeps(heap, id, prop, d);
        heap := StoreDesc(heap, id, prop, d);
      }
      return Ok(val);
    }

    /** `put` where the object has no own data property `prop`: a setter
        found on the chain is called, else a new data property is made. */
    method PutInherited(id: ObjId, prop: string, val: Value) returns (r: Completion<Value>)
      requires Valid() && id in heap && Live(heap, val) && !OwnData(heap, id, prop)
      modifies this
      ensures Valid() && OwnOnly(old(heap), heap, id)
      ensures r.Ok? ==> r.value == val
      ensures old(ChainAccessor(heap, id, prop)) ==>
        r == AfterSetter(old(Call(heap, host, GetProperty(heap, id, prop).value.setter.value, Ref(id), [val])), val)
        && heap == old(heap)
      ensures old(heap[id].cls != ArrayClass && !ChainAccessor(heap, id, prop)) ==>
        r == Ok(val) && heap == StoreDesc(old(heap), id, prop, NewDataDesc(val))
    {
      var desc := GetProperty(heap, id, prop);
      if desc.Some? && IsAccessorDesc(desc.value) {
        var called := Call(heap, host, desc.value.setter.value, Ref(id), [val]);
        return AfterSetter(called, val);
      }
      var created := NewDataDesc(val);
      if heap[id].cls == ArrayClass {
        var ignored :- DefineOwnProperty(id, prop, created);
      } else {
        StoreKeeps(heap, id, prop, created);
        heap := StoreDesc(heap, id, prop, created);
      }
      return Ok(val);
    }

    /** `define_own_property`, dispatched on the object's class. */
    method DefineOwnProperty(id: ObjId, prop: string, req: Desc) returns (r: Completion<bool>)
      requires Valid() && id in heap && WellFormedRequest(req) && DescLive(heap, req)
      modifies this
      ensures Valid() && OwnOnly(old(heap), heap, id)
      ensures old(heap)[id].cls != ArrayClass ==>
        && r == Answer(old(Decide(id, prop, req)))
        && (old(Decide(id, prop, req)).Ok? ==> heap == Apply(old(heap), id, prop, old(Decide(id, prop, req)).value))
        && (old(Decide(id, prop, req)).Err? ==> heap == old(heap))
    {
      if heap[id].cls == ArrayClass {
        r := ArrayDefine(id, prop, req);
      } else {
        r := BaseDefine(id, prop, req);
      }
    }

    /** `PyJsArray.define_own_property` (section 15.4.5.1): `length` with
        a value and index names have their own paths; every other request
        is the base one. */
    method ArrayDefine(id: ObjId, prop: string, req: Desc) returns (r: Completion<bool>)
      requires Valid() && id in heap && heap[id].cls == ArrayClass && WellFormedRequest(req) && DescLive(heap, req)
      modifies this
      ensures Valid() && OwnOnly(old(heap), heap, id)
      ensures (prop == "length" && req.value.None?) || (prop != "length" && !IsDigits(prop)) ==>
        && r == Answer(old(Decide(id, prop, req)))
        && (old(Decide(id, prop, req)).Ok? ==> heap == Apply(old(heap), id, prop, old(Decide(id, prop, req)).value))
        && (old(Decide(id, prop, req)).Err? ==> heap == old(heap))
    {
      if prop == "length" {
        if req.value.None? {
          r := BaseDefine(id, prop, req);
        } else {
          r := DefineLength(id, req);
        }
      } else if IsDigits(prop) {
        r := DefineIndex(id, prop, req);
      } else {
        r := BaseDefine(id, prop, req);
      }
    }

    /** Writing `length` with a value: a value that is not a whole number
        below 2^32 is a RangeError; growing (or keeping) the length is the
        base define; shrinking is `ShrinkTo`. */
    method DefineLength(id: ObjId, req: Desc) returns (r: Completion<bool>)
      requires Valid() && id in heap && heap[id].cls == ArrayClass && WellFormedRequest(req) && DescLive(heap, req)
      requires req.value.Some?
      modifies this
      ensures Valid() && OwnOnly(old(heap), heap, id)
      ensures old(NewLength(heap, host, req.value.value)).Err? ==>
        r == Err(old(NewLength(heap, host, req.value.value)).abrupt) && heap == old(heap)
      ensures old(NewLength(heap, host, req.value.value)).Ok? ==>
        var n := old(NewLength(heap, host, req.value.value)).value;
        var newDesc := req.(value := Some(Number(Fin(n as real))));
        && (n >= old(ArrayLength(heap, id)) ==>
              && r == Answer(old(Decide(id, "length", newDesc)))
              && (old(Decide(id, "length", newDesc)).Ok? ==> heap == Apply(old(heap), id, "length", old(Decide(id, "length", newDesc)).value)))
        && (n < old(ArrayLength(heap, id)) ==> r.Ok? && ShrinkDone(old(heap), heap, id, n, req, r.value, req.writable != Some(false)))
    {
      var oldLen := ArrayLength(heap, id);
      var newLen :- NewLength(heap, host, req.value.value);
      var newDesc := req.(value := Some(Number(Fin(newLen as real))));
      if newLen >= oldLen {
        r := BaseDefine(id, "length", newDesc);
        return;
      }
      var done := ShrinkTo(id, newLen, newDesc);
      return Ok(done);
    }

    /** Shrinking `length` to `newLen`: a read-only `length` refuses;
        otherwise `ShrinkWritable`. */
    method ShrinkTo(id: ObjId, newLen: nat, newDesc: Desc) returns (r: bool)
      requires Valid() && id in heap && heap[id].cls == ArrayClass && WellFormedRequest(newDesc) && DescLive(heap, newDesc)
      requires newLen < ArrayLength(heap, id) && newDesc.value == Some(Number(Fin(newLen as real)))
      modifies this
      ensures Valid()
      ensures ShrinkDone(old(heap), heap, id, newLen, newDesc, r, newDesc.writable != Some(false))
    {
      if !heap[id].own["length"].writable.value {
        ShrinkRefused(heap, id, newLen, newDesc, newDesc.writable != Some(false));
        return false;
      }
      r := ShrinkWritable(id, newLen, newDesc);
    }

    /** Shrinking a writable `length`: `length` is set to the new value
        (kept writable for the time of the deletions), then the indices
        above it are deleted. */
    method ShrinkWritable(id: ObjId, newLen: nat, newDesc: Desc) returns (r: bool)
      requires Valid() && id in heap && heap[id].cls == ArrayClass && WellFormedRequest(newDesc) && DescLive(heap, newDesc)
      requires newLen < ArrayLength(heap, id) && newDesc.value == Some(Number(Fin(newLen as real)))
      requires heap[id].own["length"].writable == Some(true)
      modifies this
      ensures Valid()
      ensures ShrinkDone(old(heap), heap, id, newLen, newDesc, r, newDesc.writable != Some(false))
    {
      var oldLen := ArrayLength(heap, id);
      var newWritable := newDesc.writable.None? || newDesc.writable == Some(true);
      if !newWritable {
        assert !newDesc.writable.value;
      }
      assert newWritable == (newDesc.writable != Some(false));
      var desc := if newWritable then newDesc else newDesc.(writable := Some(true));
      ghost var h0 := heap;
      var ok := StartShrink(id, newLen, desc);
      if !ok {
        ShrinkRefused(h0, id, newLen, newDesc, newWritable);
        return false;
      }
      r := ShrinkStarted(id, newLen, oldLen, desc, newWritable, h0, newDesc);
    }

    /** The deletions of a shrink whose first step stored the new length
        in `h0`'s `length`, stated against `h0`. */
    method ShrinkStarted(id: ObjId, newLen: nat, oldLen: nat, desc: Desc, newWritable: bool,
                         ghost h0: Heap, ghost req: Desc) returns (r: bool)
      requires Valid() && id in heap && heap[id].cls == ArrayClass
      requires ArraysOk(h0) && id in h0 && h0[id].cls == ArrayClass
      requires oldLen == ArrayLength(h0, id) && newLen < oldLen <= Two32
      requires h0[id].own["length"].writable == Some(true) && !LengthRefused(h0[id].own["length"], req)
      requires OwnOnly(h0, heap, id)
      requires "length" in heap[id].own && heap[id].own - {"length"} == h0[id].own - {"length"}
      requires heap[id].own["length"] == h0[id].own["length"].(value := desc.value, writable := Some(true))
      requires WellFormedRequest(desc) && DescLive(heap, desc)
      requires desc.value == Some(Number(Fin(newLen as real)))
      requires desc.configurable != Some(true)
      requires desc.writable.None? || desc.writable == Some(true)
      requires heap[id].own["length"].value == desc.value
      requires heap[id].own["length"].writable == Some(true)
      requires desc.enumerable.None? || desc.enumerable == heap[id].own["length"].enumerable
      modifies this
      ensures Valid()
      ensures ShrinkDone(h0, heap, id, newLen, req, r, newWritable)
    {
      ghost var h1 := heap;
      r := ShrinkLength(id, newLen, oldLen, desc, newWritable);
      ShrinkDoneFromLoop(h0, h1, heap, id, newLen, req, r, newWritable);
    }

    /** The first step of a shrink: `length` takes the new value through
        the base define. */
    method StartShrink(id: ObjId, newLen: nat, desc: Desc) returns (ok: bool)
      requires Valid() && id in heap && heap[id].cls == ArrayClass && WellFormedRequest(desc) && DescLive(heap, desc)
      requires newLen < ArrayLength(heap, id) && desc.value == Some(Number(Fin(newLen as real)))
      requires heap[id].own["length"].writable == Some(true)
      modifies this
      ensures Valid() && OwnOnly(old(heap), heap, id)
      ensures ok <==> Answer(old(Decide(id, "length", desc))) == Ok(true)
      ensures ok <==> !LengthRefused(old(heap)[id].own["length"], desc)
      ensures !ok ==> heap == old(heap)
      ensures ok ==> heap == StoreDesc(old(heap), id, "length", Update(old(heap)[id].own["length"], desc))
      ensures ok ==> && heap[id].own["length"].value == desc.value
                     && heap[id].own["length"].writable == Override(desc.writable, Some(true))
                     && heap[id].own["length"].enumerable == old(heap)[id].own["length"].enumerable
                     && heap[id].own["length"] == old(heap)[id].own["length"].(value := desc.value, writable := Override(desc.writable, Some(true)))
                     && heap[id].own - {"length"} == old(heap)[id].own - {"length"}
    {
      var len := heap[id].own["length"];
      LengthChangeOutcome(heap, host, len, heap[id].extensible, desc, newLen as real, ArrayLength(heap, id) as real);
      if !LengthRefused(len, desc) {
        LengthUpdate(len, desc);
      }
      var res := BaseDefine(id, "length", desc);
      ok := res == Ok(true);
    }

    /** Defining an index property: an index at or beyond the length is
        refused when `length` is read-only; otherwise the base define, and
        on success `length` grows to one past the index. */
    method DefineIndex(id: ObjId, prop: string, req: Desc) returns (r: Completion<bool>)
      requires Valid() && id in heap && heap[id].cls == ArrayClass && WellFormedRequest(req) && DescLive(heap, req)
      requires IsDigits(prop)
      modifies this
      ensures Valid() && OwnOnly(old(heap), heap, id)
      ensures var index := DigitsValue(prop) % Two32;
        index >= old(ArrayLength(heap, id)) && old(heap)[id].own["length"].writable == Some(false) ==>
        r == Ok(false) && heap == old(heap)
      ensures var index := DigitsValue(prop) % Two32;
        !(index >= old(ArrayLength(heap, id)) && old(heap)[id].own["length"].writable == Some(false)) ==>
        IndexStored(old(heap), heap, host, id, prop, req, index, r)
    {
      var oldLenDesc := heap[id].own["length"];
      var oldLen := ArrayLength(heap, id);
      var index := DigitsValue(prop) % Two32;
      if index >= oldLen && !oldLenDesc.writable.value {
        return Ok(false);
      }
      r := StoreIndex(id, prop, req, index);
    }

    /** The define of an index that is not refused, followed by the
        growth of `length` to one past the index when the define succeeds
        and the index is at or beyond the length. */
    method StoreIndex(id: ObjId, prop: string, req: Desc, index: nat) returns (r: Completion<bool>)
      requires Valid() && id in heap && heap[id].cls == ArrayClass && WellFormedRequest(req) && DescLive(heap, req)
      requires IsDigits(prop) && index < Two32
      modifies this
      ensures Valid() && OwnOnly(old(heap), heap, id)
      ensures IndexStored(old(heap), heap, host, id, prop, req, index, r)
    {
      assert prop != "length" by {
        assert !IsDigit("length"[0]);
      }
      var oldLen := ArrayLength(heap, id);
      r := BaseDefine(id, prop, req);
      if r == Ok(true) && index >= oldLen {
        ghost var out := old(Decide(id, prop, req)).value;
        OtherKeyKept(old(heap), id, prop, out, "length");
        ghost var mid := heap;
        ghost var grown := old(heap)[id].own["length"].(value := Some(Number(Fin((index + 1) as real))));
        GrowLength(id, index);
        OwnOnlyStore(old(heap), mid, id, "length", grown);
      }
    }

    /** `old_len_desc['value'].value = index + 1`: the array's `length`
        now holds one past the index written. */
    method GrowLength(id: ObjId, index: nat)
      requires Valid() && id in heap && heap[id].cls == ArrayClass && index < Two32
      modifies this
      ensures Valid()
      ensures heap == StoreDesc(old(heap), id, "length",
        old(heap)[id].own["length"].(value := Some(Number(Fin((index + 1) as real)))))
    {
      var d := heap[id].own["length"].(value := Some(Number(Fin((index + 1) as real))));
      StoreKeeps(heap, id, "length", d);
      heap := StoreDesc(heap, id, "length", d);
    }

    /** The rollback of a shrink stopped by an index that cannot be
        deleted: `length` is set to one past that index, and made read-only
        if the request asked for that. */
    method RollBack(id: ObjId, newLen: nat, stop: nat, newDesc: Desc, newWritable: bool)
      requires Valid() && id in heap && heap[id].cls == ArrayClass
      requires newLen < stop <= Two32
      requires WellFormedRequest(newDesc) && DescLive(heap, newDesc)
      requires newDesc.value == Some(Number(Fin(newLen as real)))
      requires newDesc.configurable != Some(true)
      requires newDesc.writable.None? || newDesc.writable == Some(true)
      requires heap[id].own["length"].value == newDesc.value
      requires heap[id].own["length"].writable == Some(true)
      requires newDesc.enumerable.None? || newDesc.enumerable == heap[id].own["length"].enumerable
      modifies this
      ensures Valid() && OwnOnly(old(heap), heap, id)
      ensures heap[id].own == old(heap)[id].own["length" := old(heap)[id].own["length"].(value := Some(Number(Fin(stop as real))), writable := Some(newWritable))]
    {
      var req := newDesc.(value := Some(Number(Fin(stop as real))));
      if !newWritable {
        req := req.(writable := Some(false));
      }
      var len := heap[id].own["length"];
      LengthChangeOutcome(heap, host, len, heap[id].extensible, req, stop as real, newLen as real);
      var ignored := BaseDefine(id, "length", req);
    }

    /** The deletion loop: indices are deleted from the top down to
        `newLen`, stopping at the first that cannot be deleted. */
    method DeleteDown(id: ObjId, newLen: nat, oldLen: nat, ghost own0: map<string, Desc>) returns (done: bool, k: nat)
      requires Valid() && id in heap && newLen <= oldLen && heap[id].own == own0
      modifies this
      ensures Valid() && OwnOnly(old(heap), heap, id)
      ensures done ==> k == newLen && heap[id].own == own0 - IndexKeys(newLen, oldLen)
      ensures !done ==> && newLen <= k < oldLen && Undeletable(own0, k)
                        && heap[id].own == own0 - IndexKeys(k + 1, oldLen)
      ensures done ==> forall j :: newLen <= j < oldLen ==> !Undeletable(own0, j)
      ensures !done ==> forall j :: k < j < oldLen ==> !Undeletable(own0, j)
      ensures "length" !in IndexKeys(k + 1, oldLen)
    {
      k := oldLen;
      LengthNotIndexKey(k, oldLen);
      LengthNotIndexKey(k + 1, oldLen);
      while newLen < k
        invariant newLen <= k <= oldLen
        invariant Valid() && id in heap
        invariant OwnOnly(old(heap), heap, id)
        invariant heap[id].own == own0 - IndexKeys(k, oldLen)
        invariant forall j :: k <= j < oldLen ==> !Undeletable(own0, j)
        decreases k
      {
        k := k - 1;
        ghost var hb := heap;
        var deleted := DeleteIndexKey(id, k, oldLen, own0);
        OwnOnlyTrans(old(heap), hb, heap, id);
        if !deleted {
          LengthNotIndexKey(k + 1, oldLen);
          return false, k;
        }
      }
      LengthNotIndexKey(k + 1, oldLen);
      return true, k;
    }

    /** One step of the deletion loop: index `k` is deleted unless it is
        there and cannot be. */
    method DeleteIndexKey(id: ObjId, k: nat, oldLen: nat, ghost own0: map<string, Desc>) returns (deleted: bool)
      requires Valid() && id in heap && k < oldLen
      requires heap[id].own == own0 - IndexKeys(k + 1, oldLen)
      modifies this
      ensures Valid() && OwnOnly(old(heap), heap, id)
      ensures deleted ==> heap[id].own == own0 - IndexKeys(k, oldLen)
      ensures deleted <==> !Undeletable(own0, k)
      ensures !deleted ==> heap == old(heap)
      ensures "length" !in IndexKeys(k, oldLen)
    {
      var key := NatToString(k);
      ghost var before := heap[id].own;
      DeleteStep(own0, before, k, oldLen);
      deleted := Delete(id, key);
      if !deleted {
        assert StoredOk(before[key]) && before[key].configurable != Some(true);
        assert !before[key].configurable.value;
      } else if key !in before {
        assert before - {key} == before;
      }
    }

    /** The end of the deletion loop at an index that cannot be deleted:
        `length` is rolled back to one past it. */
    method StopAt(id: ObjId, newLen: nat, k: nat, oldLen: nat, newDesc: Desc, newWritable: bool,
                  ghost own0: map<string, Desc>)
      requires Valid() && id in heap && heap[id].cls == ArrayClass
      requires newLen <= k < oldLen <= Two32
      requires WellFormedRequest(newDesc) && DescLive(heap, newDesc)
      requires newDesc.value == Some(Number(Fin(newLen as real)))
      requires newDesc.configurable != Some(true)
      requires newDesc.writable.None? || newDesc.writable == Some(true)
      requires "length" in own0 && "length" !in IndexKeys(k + 1, oldLen)
      requires heap[id].own == own0 - IndexKeys(k + 1, oldLen)
      requires own0["length"].value == newDesc.value && own0["length"].writable == Some(true)
      requires newDesc.enumerable.None? || newDesc.enumerable == own0["length"].enumerable
      modifies this
      ensures Valid() && OwnOnly(old(heap), heap, id)
      ensures Shrunk(own0, heap[id].own, k + 1, oldLen,
        own0["length"].(value := Some(Number(Fin((k + 1) as real))), writable := Some(newWritable)))
    {
      ghost var before := heap[id].own;
      assert before["length"] == own0["length"];
      RollBack(id, newLen, k + 1, newDesc, newWritable);
      StopShrunk(own0, before, heap[id].own, k + 1, oldLen,
        Some(Number(Fin((k + 1) as real))), Some(newWritable));
    }

    /** The deletion loop of a shrinking `length` write, entered once
        `length` already holds the new length: indices are deleted from
        the old length downwards. On success every index in
        [new length, old length) is gone and `length` is made read-only if
        the request asked for that; when an index cannot be deleted, the
        indices above it are gone, `length` is set to one past it and the
        answer is false. */
    method ShrinkLength(id: ObjId, newLen: nat, oldLen: nat, newDesc: Desc, newWritable: bool) returns (r: bool)
      requires Valid() && id in heap && heap[id].cls == ArrayClass
      requires newLen < oldLen <= Two32
      requires WellFormedRequest(newDesc) && DescLive(heap, newDesc)
      requires newDesc.value == Some(Number(Fin(newLen as real)))
      requires newDesc.configurable != Some(true)
      requires newDesc.writable.None? || newDesc.writable == Some(true)
      requires heap[id].own["length"].value == newDesc.value
      requires heap[id].own["length"].writable == Some(true)
      requires newDesc.enumerable.None? || newDesc.enumerable == heap[id].own["length"].enumerable
      modifies this
      ensures Valid() && OwnOnly(old(heap), heap, id)
      ensures r ==> Shrunk(old(heap)[id].own, heap[id].own, newLen, oldLen, old(heap)[id].own["length"].(writable := Some(newWritable)))
      ensures r ==> forall j :: newLen <= j < oldLen ==> !Undeletable(old(heap)[id].own, j)
      ensures !r ==> exists stop: nat ::
        (&& newLen <= stop < oldLen && Undeletable(old(heap)[id].own, stop)
         && (forall j :: stop < j < oldLen ==> !Undeletable(old(heap)[id].own, j))
         && Shrunk(old(heap)[id].own, heap[id].own, stop + 1, oldLen,
              old(heap)[id].own["length"].(value := Some(Number(Fin((stop + 1) as real))), writable := Some(newWritable))))
    {
      ghost var own0 := heap[id].own;
      ghost var h0 := heap;
      var done, k := DeleteDown(id, newLen, oldLen, own0);
      if !done {
        ghost var hs := heap;
        StopAt(id, newLen, k, oldLen, newDesc, newWritable, own0);
        OwnOnlyTrans(h0, hs, heap, id);
        return false;
      }
      DoneShrunk(own0, heap[id].own, newLen, oldLen);
      if !newWritable {
        var d := heap[id].own["length"].(writable := Some(false));
        StoreKeeps(heap, id, "length", d);
        OwnOnlyStore(h0, heap, id, "length", d);
        heap := StoreDesc(heap, id, "length", d);
      }
      return true;
    }

    /** `has_instance` of a function object: a primitive is never an
        instance; the function's `prototype` must be an object (the host
        raises its own TypeError otherwise); then the answer is whether
        that object is a proper ancestor of `other` on its prototype
        chain. */
    method HasInstance(fid: ObjId, other: Value) returns (r: Completion<bool>)
      requires Valid() && fid in heap && Live(heap, other)
      ensures !other.Ref? ==> r == Ok(false)
      ensures other.Ref? && Get(heap, host, fid, "prototype").Err? ==> r == Err(Get(heap, host, fid, "prototype").abrupt)
      ensures other.Ref? && Get(heap, host, fid, "prototype").Ok? && !Get(heap, host, fid, "prototype").value.Ref? ==>
        r == Err(HostFault(HostTypeError))
      ensures other.Ref? && Get(heap, host, fid, "prototype").Ok? && Get(heap, host, fid, "prototype").value.Ref? ==>
        r == Ok(Get(heap, host, fid, "prototype").value.id in Chain(heap, other.id)[1..])
    {
      if !other.Ref? {
        return Ok(false);
      }
      var proto :- Get(heap, host, fid, "prototype");
      if !proto.Ref? {
        return Err(HostFault(HostTypeError));
      }
      var found := ProperAncestor(heap, other.id, proto.id);
      return Ok(found);
    }

    /** `delete`: an absent property is deleted trivially; a configurable
        one is removed and nothing else changes; a non-configurable one
        stays and the answer is false. */
    method Delete(id: ObjId, prop: string) returns (r: bool)
      requires Valid() && id in heap
      modifies this
      ensures Valid() && OwnOnly(old(heap), heap, id)
      ensures prop !in old(heap)[id].own ==> r && heap == old(heap)
      ensures prop in old(heap)[id].own ==> (r <==> old(heap)[id].own[prop].configurable == Some(true))
      ensures prop in old(heap)[id].own && r ==> heap == RemoveKey(old(heap), id, prop)
      ensures prop in old(heap)[id].own && !r ==> heap == old(heap)
    {
      var desc := GetOwnProperty(heap, id, prop);
      if desc.None? {
        return true;
      }
      if desc.value.configurable.value {
        heap := RemoveKey(heap, id, prop);
        return true;
      }
      return false;
    }
  }
}
