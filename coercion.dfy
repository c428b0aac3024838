/** The type conversions of the base object (ECMA-262 5.1 section 9 as the
    runtime implements it): ToPrimitive through `default_value`, ToBoolean,
    ToNumber, ToString and the integer conversions. */
module Coercion {
  import opened Wrappers
  import opened Numbers
  import opened NumberText
  import opened Values
  import opened Lookup

  /** The preferred type passed to ToPrimitive. */
  datatype Hint = NoHint | NumberHint | StringHint

  /** The order in which `default_value` tries the two conversion methods:
      `toString` first, unless the hint is Number, or there is no hint and
      the object is a Date. */
  function MethodOrder(h: Heap, id: ObjId, hint: Hint): (names: seq<string>)
    requires id in h
    ensures |names| == 2 && names[0] != names[1]
    ensures multiset(names) == multiset{"toString", "valueOf"}
    ensures names[0] == "valueOf" <==> hint == NumberHint || (hint == NoHint && h[id].cls == DateClass)
  {
    if hint == NumberHint || (hint == NoHint && h[id].cls == DateClass) then ["valueOf", "toString"]
    else ["toString", "valueOf"]
  }

  /** The loop of `default_value` over the remaining method names: a
      callable method whose result is primitive ends it. */
  function TryMethods(h: Heap, host: Host, id: ObjId, names: seq<string>): (r: Completion<Value>)
    requires HeapOk(h) && id in h
    ensures r.Ok? ==> IsPrimitive(r.value)
    ensures names == [] ==> r == Err(JsError(TypeError))
    decreases |names|
  {
    if names == [] then Err(JsError(TypeError))
    else
      var m :- Get(h, host, id, names[0]);
      if IsCallable(h, m) then
        var cand :- Call(h, host, m, Ref(id), []);
        if IsPrimitive(cand) then Ok(cand) else TryMethods(h, host, id, names[1..])
      else TryMethods(h, host, id, names[1..])
  }

  /** Trying the method `name` moves on to the next one: reading it
      succeeds, and it is not callable or calling it gives an object. */
  predicate Skips(h: Heap, host: Host, id: ObjId, name: string)
    requires HeapOk(h) && id in h
  {
    && Get(h, host, id, name).Ok?
    && var m := Get(h, host, id, name).value;
       !IsCallable(h, m) || (Call(h, host, m, Ref(id), []).Ok? && !IsPrimitive(Call(h, host, m, Ref(id), []).value))
  }

  /** What trying a method that does not skip gives: the failure of
      reading it, or whatever calling it with the object as `this`
      completes with. */
  function Attempt(h: Heap, host: Host, id: ObjId, name: string): Completion<Value>
    requires HeapOk(h) && id in h
  {
    var m :- Get(h, host, id, name);
    Call(h, host, m, Ref(id), [])
  }

  /** The first method name that does not skip decides the loop, with its
      failure or its primitive result; when every name skips the answer is
      a TypeError. */
  lemma {:induction false} TryMethodsFirst(h: Heap, host: Host, id: ObjId, names: seq<string>, k: nat)
    requires HeapOk(h) && id in h && k <= |names|
    requires forall j :: 0 <= j < k ==> Skips(h, host, id, names[j])
    ensures k == |names| ==> TryMethods(h, host, id, names) == Err(JsError(TypeError))
    ensures k < |names| && !Skips(h, host, id, names[k]) ==>
      TryMethods(h, host, id, names) == Attempt(h, host, id, names[k])
    decreases k
  {
    if k > 0 {
      assert Skips(h, host, id, names[0]);
      assert TryMethods(h, host, id, names) == TryMethods(h, host, id, names[1..]);
      assert forall j :: 0 <= j < k - 1 ==> names[1..][j] == names[j + 1];
      TryMethodsFirst(h, host, id, names[1..], k - 1);
      if k < |names| {
        assert names[1..][k - 1] == names[k];
      }
    }
  }

  /** `default_value` (section 8.12.8): a primitive, or the failure of
      the methods it tries. */
  function DefaultValue(h: Heap, host: Host, id: ObjId, hint: Hint): (r: Completion<Value>)
    requires HeapOk(h) && id in h
    ensures r.Ok? ==> IsPrimitive(r.value)
  {
    TryMethods(h, host, id, MethodOrder(h, id, hint))
  }

  /** Of the two methods, in the order the hint chooses, the first that
      does not skip gives the answer of `default_value`, its failures
      included; when both skip the answer is a TypeError. */
  lemma DefaultValueFirst(h: Heap, host: Host, id: ObjId, hint: Hint)
    requires HeapOk(h) && id in h
    ensures var names, r := MethodOrder(h, id, hint), DefaultValue(h, host, id, hint);
      && (!Skips(h, host, id, names[0]) ==> r == Attempt(h, host, id, names[0]))
      && (Skips(h, host, id, names[0]) && !Skips(h, host, id, names[1]) ==> r == Attempt(h, host, id, names[1]))
      && (Skips(h, host, id, names[0]) && Skips(h, host, id, names[1]) ==> r == Err(JsError(TypeError)))
  {
    var names := MethodOrder(h, id, hint);
    TryMethodsFirst(h, host, id, names, 0);
    if Skips(h, host, id, names[0]) {
      TryMethodsFirst(h, host, id, names, 1);
      if Skips(h, host, id, names[1]) {
        TryMethodsFirst(h, host, id, names, 2);
      }
    }
  }

  /** When neither method is a callable property, the conversion fails with
      a TypeError whatever the hint. */
  lemma DefaultValueNoMethods(h: Heap, host: Host, id: ObjId, hint: Hint)
    requires HeapOk(h) && id in h
    requires !HasProperty(h, id, "toString") && !HasProperty(h, id, "valueOf")
    ensures DefaultValue(h, host, id, hint) == Err(JsError(TypeError))
  {
    var names := MethodOrder(h, id, hint);
    var first, second := names[0], names[1];
    if hint == NumberHint || (hint == NoHint && h[id].cls == DateClass) {
      assert first == "valueOf" && second == "toString";
    } else {
      assert first == "toString" && second == "valueOf";
    }
    var rest := names[1..];
    assert rest[0] == second && rest[1..] == [];
    assert Get(h, host, id, second) == Ok(Undefined);
    assert TryMethods(h, host, id, rest) == Err(JsError(TypeError));
    assert Get(h, host, id, first) == Ok(Undefined);
  }

  /** `to_primitive` (section 9.1): primitives are returned as they are,
      objects are converted by `default_value`. */
  function ToPrimitive(h: Heap, host: Host, v: Value, hint: Hint): (r: Completion<Value>)
    requires HeapOk(h) && Live(h, v)
    ensures IsPrimitive(v) ==> r == Ok(v)
    ensures r.Ok? ==> IsPrimitive(r.value)
  {
    if IsPrimitive(v) then Ok(v) else DefaultValue(h, host, v.id, hint)
  }

  /** `to_boolean` (section 9.2). */
  function ToBoolean(v: Value): (b: bool)
    ensures !b <==> v in {Undefined, Null, Bool(false), Number(Fin(0.0)), Number(NaN), Str("")}
  {
    match v
    case Undefined => false
    case Null => false
    case Bool(b) => b
    case Number(n) => Truthy(n) && !n.NaN?
    case Str(s) => s != ""
    case Ref(_) => true
  }

  /** `to_number` on a primitive (section 9.3): text goes through the
      string grammar, whose hexadecimal form yields a raw host integer. */
  function PrimitiveToNumber(host: Host, p: Value): (r: NumberResult)
    requires IsPrimitive(p)
    ensures r.RawInt? ==> p.Str?
  {
    match p
    case Null => JsNumber(Fin(0.0))
    case Undefined => JsNumber(NaN)
    case Bool(b) => JsNumber(if b then Fin(1.0) else Fin(0.0))
    case Number(n) => JsNumber(n)
    case Str(s) => StringToNumber(host.parseFloat, s)
  }

  /** `to_number`: objects are first converted by `default_value` with
      the Number hint, whose failure is the answer. */
  function ToNumber(h: Heap, host: Host, v: Value): (r: Completion<NumberResult>)
    requires HeapOk(h) && Live(h, v)
    ensures IsPrimitive(v) ==> r == Ok(PrimitiveToNumber(host, v))
    ensures !IsPrimitive(v) ==> r == match DefaultValue(h, host, v.id, NumberHint)
      case Ok(p) => Ok(PrimitiveToNumber(host, p))
      case Err(a) => Err(a)
    ensures r.Ok? && r.value.RawInt? ==> v.Str? || v.Ref?
  {
    var p :- ToPrimitive(h, host, v, NumberHint);
    Ok(PrimitiveToNumber(host, p))
  }

  /** Reading `.value` (or calling `is_nan`) on what `to_number` returned:
      a raw host integer has no such attribute. */
  function AsNumber(r: NumberResult): Completion<Num> {
    match r
    case JsNumber(n) => Ok(n)
    case RawInt(_) => Err(HostFault(AttributeError))
  }

  /** `to_string` on a number: whole numbers are written without a
      fraction, other finite numbers by the host's rendering. */
  function NumberToString(host: Host, n: Num): (s: string)
    ensures n.NaN? ==> s == "NaN"
    ensures IsInfinite(n) || (n.Fin? && n.r == n.r.Floor as real) ==>
      StringToNumber(host.parseFloat, s) == JsNumber(n)
  {
    match n
    case NaN => "NaN"
    case PosInf => SignedInfinityText(host.parseFloat); "Infinity"
    case NegInf => SignedInfinityText(host.parseFloat); "-Infinity"
    case Fin(x) =>
      if x == x.Floor as real then
        WholeNumberRead(host.parseFloat, x.Floor);
        IntToString(x.Floor)
      else host.render(x)
  }

  /** `to_string` on a primitive (section 9.8). */
  function PrimitiveToString(host: Host, p: Value): (s: string)
    requires IsPrimitive(p)
    ensures p.Str? ==> s == p.s
    ensures p.Bool? ==> s == (if p.b then "true" else "false")
    ensures p.Number? && (IsInfinite(p.n) || (p.n.Fin? && p.n.r == p.n.r.Floor as real)) ==>
      StringToNumber(host.parseFloat, s) == JsNumber(p.n)
  {
    match p
    case Null => "null"
    case Undefined => "undefined"
    case Bool(b) => if b then "true" else "false"
    case Number(n) => NumberToString(host, n)
    case Str(s) => s
  }

  /** `to_string`: objects are first converted by `default_value` with
      the String hint, whose failure is the answer. */
  function ToString(h: Heap, host: Host, v: Value): (r: Completion<string>)
    requires HeapOk(h) && Live(h, v)
    ensures IsPrimitive(v) ==> r == Ok(PrimitiveToString(host, v))
    ensures !IsPrimitive(v) ==> r == match DefaultValue(h, host, v.id, StringHint)
      case Ok(p) => Ok(PrimitiveToString(host, p))
      case Err(a) => Err(a)
  {
    var p :- ToPrimitive(h, host, v, StringHint);
    Ok(PrimitiveToString(host, p))
  }

  /** A whole number is written as its decimal numeral, and reading the
      text back gives the number. */
  lemma WholeNumberTextRoundTrip(host: Host, k: int)
    ensures NumberToString(host, Fin(k as real)) == IntToString(k)
    ensures StringToNumber(host.parseFloat, IntToString(k)) == JsNumber(Fin(k as real))
  {
    assert (k as real).Floor == k;
    WholeNumberRead(host.parseFloat, k);
  }

  /** The decimal text of a whole number, signed or not, reads back as
      the number. */
  lemma WholeNumberRead(pf: string -> Option<Num>, k: int)
    ensures StringToNumber(pf, IntToString(k)) == JsNumber(Fin(k as real))
  {
    if k < 0 {
      var m: nat := -k;
      DecimalNumeral(pf, m);
      assert IntToString(k) == "-" + NatToString(m);
      assert -(m as real) == k as real;
    } else {
      var m: nat := k;
      DecimalNumeral(pf, m);
      assert IntToString(k) == NatToString(m);
    }
  }

  /** The integer conversions first run `to_number`; a raw host integer
      then fails on `is_nan`. */
  function ToNumeric(h: Heap, host: Host, v: Value): (r: Completion<Num>)
    requires HeapOk(h) && Live(h, v)
    ensures IsPrimitive(v) ==> (r.Err? <==> v.Str? && StringToNumber(host.parseFloat, v.s).RawInt?)
  {
    var n :- ToNumber(h, host, v);
    AsNumber(n)
  }

  /** `to_int32` as written (section 9.5 with the wrong offset): the result
      never goes negative and may be 2^31 itself. */
  function ToInt32(h: Heap, host: Host, v: Value): (r: Completion<int>)
    requires HeapOk(h) && Live(h, v)
    ensures r.Ok? ==> 0 <= r.value <= Two31
    ensures r.Err? <==> ToNumeric(h, host, v).Err?
    ensures ToNumeric(h, host, v).Ok? ==> r == Ok(NumberToInt32AsWritten(ToNumeric(h, host, v).value))
  {
    var n :- ToNumeric(h, host, v);
    Ok(NumberToInt32AsWritten(n))
  }

  /** `to_uint32` (section 9.6). */
  function ToUint32(h: Heap, host: Host, v: Value): (r: Completion<int>)
    requires HeapOk(h) && Live(h, v)
    ensures r.Ok? ==> 0 <= r.value < Two32
    ensures r.Err? <==> ToNumeric(h, host, v).Err?
    ensures ToNumeric(h, host, v).Ok? ==> r == Ok(NumberToUint32(ToNumeric(h, host, v).value))
  {
    var n :- ToNumeric(h, host, v);
    Uint32Range(n);
    Ok(NumberToUint32(n))
  }

  /** `to_uint16` (section 9.7). */
  function ToUint16(h: Heap, host: Host, v: Value): (r: Completion<int>)
    requires HeapOk(h) && Live(h, v)
    ensures r.Ok? ==> 0 <= r.value < Two16
    ensures r.Err? <==> ToNumeric(h, host, v).Err?
    ensures ToNumeric(h, host, v).Ok? ==> r == Ok(NumberToUint16(ToNumeric(h, host, v).value))
  {
    var n :- ToNumeric(h, host, v);
    Uint32Range(n);
    Ok(NumberToUint16(n))
  }

  /** `to_int`: NaN gives 0 and the infinities 10^20, but a finite number
      reaches `int()` on the runtime's number object, which the host
      refuses. */
  function ToInteger(h: Heap, host: Host, v: Value): (r: Completion<int>)
    requires HeapOk(h) && Live(h, v)
    ensures r.Ok? ==> r.value == 0 || r.value == 100_000_000_000_000_000_000
    ensures ToNumeric(h, host, v) == Ok(NaN) ==> r == Ok(0)
    ensures ToNumeric(h, host, v).Ok? && IsInfinite(ToNumeric(h, host, v).value) ==> r == Ok(100_000_000_000_000_000_000)
    ensures ToNumeric(h, host, v).Ok? && ToNumeric(h, host, v).value.Fin? ==> r == Err(HostFault(AttributeError))
    ensures ToNumeric(h, host, v).Err? ==> r == Err(ToNumeric(h, host, v).abrupt)
  {
    var n :- ToNumeric(h, host, v);
    match n
    case NaN => Ok(0)
    case PosInf => Ok(100_000_000_000_000_000_000)
    case NegInf => Ok(100_000_000_000_000_000_000)
    case Fin(_) => Err(HostFault(AttributeError))
  }
}
