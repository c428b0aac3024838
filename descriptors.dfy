/** The decision of `[[DefineOwnProperty]]` for one property of the base
    object (ECMA-262 5.1 section 8.12.9 as the runtime writes it): reject,
    keep the current descriptor, or store a new one. */
module Descriptors {
  import opened Wrappers
  import opened Values
  import opened Lookup
  import opened Operators
  import opened Numbers
  import opened NumberText

  /** The starting point of a new data property. */
  const DefaultData: Desc := Desc(Some(Undefined), Some(false), None, None, Some(false), Some(false))

  /** The starting point of a new accessor property. */
  const DefaultAccessor: Desc := Desc(None, None, Some(Undefined), Some(Undefined), Some(false), Some(false))

  function Override<T>(a: Option<T>, b: Option<T>): Option<T> {
    if a.Some? then a else b
  }

  /** `current.update(desc)`: every key of the request replaces or adds its
      value; the other keys stay. */
  function Update(cur: Desc, req: Desc): Desc {
    Desc(
      Override(req.value, cur.value),
      Override(req.writable, cur.writable),
      Override(req.getter, cur.getter),
      Override(req.setter, cur.setter),
      Override(req.enumerable, cur.enumerable),
      Override(req.configurable, cur.configurable))
  }

  predicate SameKeys(a: Desc, b: Desc) {
    && a.value.Some? == b.value.Some?
    && a.writable.Some? == b.writable.Some?
    && a.getter.Some? == b.getter.Some?
    && a.setter.Some? == b.setter.Some?
    && a.enumerable.Some? == b.enumerable.Some?
    && a.configurable.Some? == b.configurable.Some?
  }

  /** Comparing the entries one key holds in two dictionaries with the
      same keys: the runtime's `==` on values. */
  function EntryEq(h: Heap, host: Host, a: Option<Value>, b: Option<Value>): Completion<bool>
    requires HeapOk(h) && (a.Some? ==> Live(h, a.value)) && (b.Some? ==> Live(h, b.value))
  {
    if a.Some? && b.Some? then LooseEq(h, host, a.value, b.value) else Ok(a == b)
  }

  /** `desc == current` on two dictionaries, as the host compares them:
      unequal sizes are unequal at once; otherwise the request's keys are
      visited in the order of its hash table, and a key the current
      descriptor lacks ends the comparison with false. For the keys of a
      data descriptor that order is `writable`, `enumerable`, `value`,
      `configurable`, so a value comparison, the only one that can run
      conversions and fail, comes before `configurable` is looked at;
      getters and setters compare by identity and cannot fail, so their
      place in the order does not matter. When the sizes agree but the keys
      do not, the request cannot share a `value` key with the current
      descriptor, so no comparison runs before the answer false. */
  function DescEquals(h: Heap, host: Host, req: Desc, cur: Desc): (r: Completion<bool>)
    requires HeapOk(h) && DescLive(h, req) && DescLive(h, cur)
    ensures !SameKeys(req, cur) ==> r == Ok(false)
    ensures r == Ok(true) ==>
      && SameKeys(req, cur) && req.writable == cur.writable
      && req.enumerable == cur.enumerable && req.configurable == cur.configurable
  {
    if !SameKeys(req, cur) then Ok(false)
    else if req.writable != cur.writable || req.enumerable != cur.enumerable then Ok(false)
    else
      var v :- EntryEq(h, host, req.value, cur.value);
      if !v || req.configurable != cur.configurable then Ok(false)
      else
        var g :- EntryEq(h, host, req.getter, cur.getter);
        if !g then Ok(false) else EntryEq(h, host, req.setter, cur.setter)
  }

  /** The value is compared before `configurable`: a request whose value
      is hexadecimal text, made against a frozen number property, faults
      in the comparison although it also asks for `configurable: true`. */
  lemma ValueComparedFirst(h: Heap, host: Host)
    requires HeapOk(h)
    ensures var cur := Desc(Some(Number(Fin(16.0))), Some(false), None, None, Some(false), Some(false));
      var req := Desc(Some(Str("0x10")), Some(false), None, None, Some(false), Some(true));
      && DescEquals(h, host, req, cur) == Err(HostFault(AttributeError))
      && DefineOutcome(h, host, Some(cur), true, req) == Err(HostFault(AttributeError))
  {
    HexNumeral(host.parseFloat, "10");
    assert "0x" + "10" == "0x10";
    assert EntryEq(h, host, Some(Str("0x10")), Some(Number(Fin(16.0)))) == Err(HostFault(AttributeError));
  }

  /** Only the comparison of the two `value` entries can fail: getters and
      setters are undefined or objects, which `==` compares by identity. */
  lemma DescEqualsFailsOnValues(h: Heap, host: Host, req: Desc, cur: Desc)
    requires HeapOk(h) && DescLive(h, req) && DescLive(h, cur)
    requires WellFormedRequest(req) && StoredOk(cur)
    ensures DescEquals(h, host, req, cur).Err? ==> req.value.Some? && cur.value.Some?
  {
    if req.getter.Some? && cur.getter.Some? {
      AccessorEntryEq(h, host, req.getter.value, cur.getter.value);
    }
    if req.setter.Some? && cur.setter.Some? {
      AccessorEntryEq(h, host, req.setter.value, cur.setter.value);
    }
  }

  datatype Outcome = Reject | Unchanged | Store(d: Desc)

  /** Whether a request tries to make a non-writable data property
      writable, a request without `writable` not asking for it. */
  predicate WritableGuard(cur: Desc, req: Desc)
    requires cur.writable.Some?
  {
    !cur.writable.value && req.writable == Some(true)
  }

  /** The same test as base.py writes it: the request's `writable` is
      read without checking that the request has one, so a request
      without it faults once the current property is non-writable. */
  function WritableGuardAsWritten(cur: Desc, req: Desc): Completion<bool>
    requires cur.writable.Some?
  {
    if cur.writable.value then Ok(false)
    else if req.writable.None? then Err(HostFault(KeyError))
    else Ok(req.writable.value)
  }

  /** The test as written faults exactly on a non-writable property and a
      request without `writable`; where it does not fault it agrees with
      the corrected test. */
  lemma WritableGuardAgrees(cur: Desc, req: Desc)
    requires cur.writable.Some?
    ensures WritableGuardAsWritten(cur, req).Err? <==> !cur.writable.value && req.writable.None?
    ensures WritableGuardAsWritten(cur, req).Ok? ==> (WritableGuardAsWritten(cur, req).value <==> WritableGuard(cur, req))
  {
  }

  /** A value change requested on a frozen data property: the corrected
      define refuses it, where the test as written raises KeyError. */
  lemma WritableGuardCounterexample(h: Heap, host: Host, extensible: bool)
    requires HeapOk(h)
    ensures var cur := Desc(Some(Number(Fin(1.0))), Some(false), None, None, Some(false), Some(false));
      var req := EmptyDesc.(value := Some(Number(Fin(2.0))));
      && WritableGuardAsWritten(cur, req) == Err(HostFault(KeyError))
      && DefineOutcome(h, host, Some(cur), extensible, req) == Ok(Reject)
  {
    var cur := Desc(Some(Number(Fin(1.0))), Some(false), None, None, Some(false), Some(false));
    var req := EmptyDesc.(value := Some(Number(Fin(2.0))));
    assert DescEquals(h, host, req, cur) == Ok(false);
    assert LooseEq(h, host, Number(Fin(1.0)), Number(Fin(2.0))) == Ok(false);
  }

  /** `define_own_property` of the base object, given the current own
      descriptor (if any), the object's extensibility and the request. */
  function DefineOutcome(h: Heap, host: Host, current: Option<Desc>, extensible: bool, req: Desc): (r: Completion<Outcome>)
    requires HeapOk(h) && DescLive(h, req) && WellFormedRequest(req)
    requires current.Some? ==> StoredOk(current.value) && DescLive(h, current.value)
    ensures r.Ok? && r.value.Store? ==> StoredOk(r.value.d) && DescLive(h, r.value.d)
    ensures r.Err? ==> current.Some? && req.value.Some?
  {
    if !Found(current) then
      if !extensible then Ok(Reject)
      else if IsDataDesc(req) || IsGenericDesc(req) then Ok(Store(Update(DefaultData, req)))
      else Ok(Store(Update(DefaultAccessor, req)))
    else
      var cur := current.value;
      if IsEmptyDesc(req) then Ok(Unchanged)
      else
        DescEqualsFailsOnValues(h, host, req, cur);
        var same :- DescEquals(h, host, req, cur);
        if same then Ok(Unchanged)
        else
          var configurable := cur.configurable.value;
          if !configurable && req.configurable == Some(true) then Ok(Reject)
          else if !configurable && req.enumerable.Some? && req.enumerable != cur.enumerable then Ok(Reject)
          else if IsGenericDesc(req) then Ok(Store(Update(cur, req)))
          else if IsDataDesc(cur) != IsDataDesc(req) then
            if !configurable then Ok(Reject)
            else if IsDataDesc(cur) then
              Ok(Store(Update(cur.(value := None, writable := None, getter := Some(Undefined), setter := Some(Undefined)), req)))
            else
              Ok(Store(Update(cur.(getter := None, setter := None, value := Some(Undefined), writable := Some(false)), req)))
          else if IsDataDesc(cur) then
            if !configurable && WritableGuard(cur, req) then Ok(Reject)
            else if !cur.writable.value && req.value.Some? then
              var eq :- LooseEq(h, host, cur.value.value, req.value.value);
              if !eq then Ok(Reject) else Ok(Store(Update(cur, req)))
            else Ok(Store(Update(cur, req)))
          else if !configurable && req.setter.Some? && req.setter != cur.setter then Ok(Reject)
          else if !configurable && req.getter.Some? && req.getter != cur.getter then Ok(Reject)
          else Ok(Store(Update(cur, req)))
  }

  /** The steps of `define_own_property` (section 8.12.9) as base.py takes
      them, the current descriptor being updated in place: they end with an
      early refusal, an early success, or `current.update(desc)`. */
  method DefineSteps(h: Heap, host: Host, current: Option<Desc>, extensible: bool, req: Desc) returns (r: Completion<Outcome>)
    requires HeapOk(h) && DescLive(h, req) && WellFormedRequest(req)
    requires current.Some? ==> StoredOk(current.value) && DescLive(h, current.value)
    ensures r == DefineOutcome(h, host, current, extensible, req)
  {
    if !Found(current) {
      if !extensible {
        return Ok(Reject);
      }
      var d := if IsDataDesc(req) || IsGenericDesc(req) then Update(DefaultData, req) else Update(DefaultAccessor, req);
      return Ok(Store(d));
    }
    var cur := current.value;
    if IsEmptyDesc(req) {
      return Ok(Unchanged);
    }
    var same :- DescEquals(h, host, req, cur);
    if same {
      return Ok(Unchanged);
    }
    var configurable := cur.configurable.value;
    if !configurable {
      if req.configurable == Some(true) {
        return Ok(Reject);
      }
      if req.enumerable.Some? && req.enumerable != cur.enumerable {
        return Ok(Reject);
      }
    }
    if IsGenericDesc(req) {
    } else if IsDataDesc(cur) != IsDataDesc(req) {
      if !configurable {
        return Ok(Reject);
      }
      if IsDataDesc(cur) {
        cur := cur.(value := None, writable := None);
        cur := cur.(setter := Some(Undefined), getter := Some(Undefined));
      } else {
        cur := cur.(setter := None, getter := None);
        cur := cur.(value := Some(Undefined), writable := Some(false));
      }
    } else if IsDataDesc(cur) && IsDataDesc(req) {
      if !configurable && !cur.writable.value && req.writable == Some(true) {
        return Ok(Reject);
      }
      if !cur.writable.value && req.value.Some? {
        var eq :- LooseEq(h, host, cur.value.value, req.value.value);
        if !eq {
          return Ok(Reject);
        }
      }
    } else if IsAccessorDesc(cur) && IsAccessorDesc(req) {
      if !configurable {
        if req.setter.Some? && req.setter != cur.setter {
          return Ok(Reject);
        }
        if req.getter.Some? && req.getter != cur.getter {
          return Ok(Reject);
        }
      }
    }
    return Ok(Store(Update(cur, req)));
  }

  /** A new property: nothing happens on an object that is not extensible.
      Otherwise a data (or generic) request installs a data property whose
      missing keys default to undefined and false, and any other request,
      the empty one included, an accessor property with the accessor
      defaults. */
  lemma DefineNew(h: Heap, host: Host, extensible: bool, req: Desc)
    requires HeapOk(h) && DescLive(h, req) && WellFormedRequest(req)
    ensures !extensible ==> DefineOutcome(h, host, None, extensible, req) == Ok(Reject)
    ensures extensible && (IsDataDesc(req) || IsGenericDesc(req)) ==>
      DefineOutcome(h, host, None, extensible, req) == Ok(Store(Desc(
        Some(req.value.GetOr(Undefined)), Some(req.writable.GetOr(false)), None, None,
        Some(req.enumerable.GetOr(false)), Some(req.configurable.GetOr(false)))))
    ensures extensible && IsAccessorDesc(req) ==>
      DefineOutcome(h, host, None, extensible, req) == Ok(Store(Desc(
        None, None, Some(req.getter.GetOr(Undefined)), Some(req.setter.GetOr(Undefined)),
        Some(req.enumerable.GetOr(false)), Some(req.configurable.GetOr(false)))))
    ensures extensible && IsEmptyDesc(req) ==>
      DefineOutcome(h, host, None, extensible, req) == Ok(Store(DefaultAccessor))
  {
  }

  /** The runtime's `==` on two getters or setters (undefined or objects)
      is identity. */
  lemma AccessorEntryEq(h: Heap, host: Host, a: Value, b: Value)
    requires HeapOk(h) && Live(h, a) && Live(h, b)
    requires IsAccessorValue(a) && IsAccessorValue(b)
    ensures LooseEq(h, host, a, b) == Ok(a == b)
  {
  }

  /** Against a non-configurable property, each of these requests is
      rejected: one asking for `configurable: true` (unless comparing its
      `value` with the current one fails first), one changing
      `enumerable`, one switching between data and accessor, one supplying
      a getter or setter other than the current one, and one making a
      non-writable data property writable. */
  lemma NonConfigurableRejects(h: Heap, host: Host, cur: Desc, extensible: bool, req: Desc)
    requires HeapOk(h) && DescLive(h, req) && WellFormedRequest(req)
    requires StoredOk(cur) && DescLive(h, cur) && cur.configurable == Some(false)
    ensures req.configurable == Some(true) ==>
      DefineOutcome(h, host, Some(cur), extensible, req) ==
        match DescEquals(h, host, req, cur)
        case Ok(_) => Ok(Reject)
        case Err(a) => Err(a)
    ensures req.enumerable.Some? && req.enumerable != cur.enumerable ==>
      DefineOutcome(h, host, Some(cur), extensible, req) == Ok(Reject)
    ensures !IsEmptyDesc(req) && !IsGenericDesc(req) && IsDataDesc(cur) != IsDataDesc(req) ==>
      DefineOutcome(h, host, Some(cur), extensible, req) == Ok(Reject)
    ensures (&& IsAccessorDesc(cur) && IsAccessorDesc(req)
             && ((req.getter.Some? && req.getter != cur.getter) || (req.setter.Some? && req.setter != cur.setter))) ==>
      DefineOutcome(h, host, Some(cur), extensible, req) == Ok(Reject)
    ensures IsDataDesc(cur) && cur.writable == Some(false) && req.writable == Some(true) ==>
      DefineOutcome(h, host, Some(cur), extensible, req) == Ok(Reject)
  {
    if IsAccessorDesc(cur) && IsAccessorDesc(req) && SameKeys(req, cur) {
      AccessorEntryEq(h, host, req.getter.value, cur.getter.value);
      AccessorEntryEq(h, host, req.setter.value, cur.setter.value);
    }
  }

  /** A non-writable data property refuses a different value even when it
      is configurable. */
  lemma NonWritableRejectsNewValue(h: Heap, host: Host, cur: Desc, extensible: bool, req: Desc)
    requires HeapOk(h) && DescLive(h, req) && WellFormedRequest(req)
    requires StoredOk(cur) && DescLive(h, cur) && cur.configurable == Some(true)
    requires IsDataDesc(cur) && cur.writable == Some(false)
    requires IsDataDesc(req) && req.value.Some?
    requires LooseEq(h, host, cur.value.value, req.value.value) == Ok(false)
    ensures DefineOutcome(h, host, Some(cur), extensible, req) == Ok(Reject)
  {
    LooseEqSymmetric(h, host, cur.value.value, req.value.value);
  }

  /** An empty request, or one equal to the current descriptor, leaves the
      property as it is. */
  lemma DefineNoChange(h: Heap, host: Host, cur: Desc, extensible: bool, req: Desc)
    requires HeapOk(h) && DescLive(h, req) && WellFormedRequest(req)
    requires StoredOk(cur) && DescLive(h, cur)
    ensures IsEmptyDesc(req) ==> DefineOutcome(h, host, Some(cur), extensible, req) == Ok(Unchanged)
    ensures DescEquals(h, host, req, cur) == Ok(true) ==>
      DefineOutcome(h, host, Some(cur), extensible, req) == Ok(Unchanged)
  {
  }

  /** Whatever is stored over a non-configurable property is the current
      descriptor updated by the request, and stays non-configurable. */
  lemma NonConfigurableStore(h: Heap, host: Host, cur: Desc, extensible: bool, req: Desc)
    requires HeapOk(h) && DescLive(h, req) && WellFormedRequest(req)
    requires StoredOk(cur) && DescLive(h, cur) && cur.configurable == Some(false)
    ensures var out := DefineOutcome(h, host, Some(cur), extensible, req);
      out.Ok? && out.value.Store? ==>
        && out.value.d == Update(cur, req)
        && out.value.d.configurable == Some(false)
        && IsDataDesc(out.value.d) == IsDataDesc(cur)
  {
    var out := DefineOutcome(h, host, Some(cur), extensible, req);
    if out.Ok? && out.value.Store? {
      assert req.configurable != Some(true);
      if req.configurable.Some? {
        assert !req.configurable.value;
      }
    }
  }
}
