/** The binary operators of the base object: `+`, `/`, `%`, the abstract
    relational comparison behind `<`, `<=`, `>`, `>=`, abstract equality
    (`==`) and strict equality (`===`, `!==`). */
module Operators {
  import opened Wrappers
  import opened Numbers
  import opened NumberText
  import opened Values
  import opened Lookup
  import opened Coercion

  /** `+` (section 11.6.1): both operands go to primitives without hint;
      if either is a string the two texts are joined, otherwise the numbers
      are added. */
  function Add(h: Heap, host: Host, x: Value, y: Value): (r: Completion<Value>)
    requires HeapOk(h) && Live(h, x) && Live(h, y)
    ensures r.Ok? ==> r.value.Str? || r.value.Number?
    ensures IsPrimitive(x) && IsPrimitive(y) ==> r.Ok?
    ensures x.Str? && IsPrimitive(y) ==> r == Ok(Str(x.s + PrimitiveToString(host, y)))
    ensures IsPrimitive(x) && y.Str? ==> r == Ok(Str(PrimitiveToString(host, x) + y.s))
    ensures IsPrimitive(x) && IsPrimitive(y) && !x.Str? && !y.Str? ==>
      r == Ok(Number(NumAdd(PrimitiveToNumber(host, x).n, PrimitiveToNumber(host, y).n)))
  {
    var a :- ToPrimitive(h, host, x, NoHint);
    var b :- ToPrimitive(h, host, y, NoHint);
    if a.Str? || b.Str? then Ok(Str(PrimitiveToString(host, a) + PrimitiveToString(host, b)))
    else
      // Only text is read as a raw host integer, so reading `.value` off
      // the two numbers cannot fail here.
      Ok(Number(NumAdd(PrimitiveToNumber(host, a).n, PrimitiveToNumber(host, b).n)))
  }

  /** `+` on any operands is `+` on their primitives, taken without hint
      and left operand first; a failed conversion is the answer. */
  lemma AddViaPrimitives(h: Heap, host: Host, x: Value, y: Value)
    requires HeapOk(h) && Live(h, x) && Live(h, y)
    ensures ToPrimitive(h, host, x, NoHint).Err? ==> Add(h, host, x, y) == Err(ToPrimitive(h, host, x, NoHint).abrupt)
    ensures ToPrimitive(h, host, x, NoHint).Ok? && ToPrimitive(h, host, y, NoHint).Err? ==>
      Add(h, host, x, y) == Err(ToPrimitive(h, host, y, NoHint).abrupt)
    ensures ToPrimitive(h, host, x, NoHint).Ok? && ToPrimitive(h, host, y, NoHint).Ok? ==>
      Add(h, host, x, y) == Add(h, host, ToPrimitive(h, host, x, NoHint).value, ToPrimitive(h, host, y, NoHint).value)
  {
  }

  /** On `true + 1`, `null + 1` and `undefined + 1` the booleans, null and
      undefined are read as numbers. */
  lemma AddNonTextPrimitives(h: Heap, host: Host)
    requires HeapOk(h)
    ensures Add(h, host, Bool(true), Number(Fin(1.0))) == Ok(Number(Fin(2.0)))
    ensures Add(h, host, Null, Number(Fin(1.0))) == Ok(Number(Fin(1.0)))
    ensures Add(h, host, Undefined, Number(Fin(1.0))) == Ok(Number(NaN))
  {
  }

  /** On two numbers, `+` is the number sum: commutative, with 0 as unit. */
  lemma AddNumbers(h: Heap, host: Host, a: Num, b: Num)
    requires HeapOk(h)
    ensures Add(h, host, Number(a), Number(b)) == Ok(Number(NumAdd(a, b)))
    ensures Add(h, host, Number(a), Number(b)) == Add(h, host, Number(b), Number(a))
    ensures Add(h, host, Number(a), Number(Fin(0.0))) == Ok(Number(a))
  {
    AddSpec(a, b);
  }

  /** `/` (section 11.5.2): both operands through `to_number().value`. */
  function Div(h: Heap, host: Host, x: Value, y: Value): (r: Completion<Value>)
    requires HeapOk(h) && Live(h, x) && Live(h, y)
    ensures r.Ok? <==> ToNumeric(h, host, x).Ok? && ToNumeric(h, host, y).Ok?
    ensures r.Ok? ==> r.value == Number(Divide(ToNumeric(h, host, x).value, ToNumeric(h, host, y).value))
  {
    var a :- ToNumeric(h, host, x);
    var b :- ToNumeric(h, host, y);
    Ok(Number(Divide(a, b)))
  }

  /** `%` (section 11.5.3). */
  function Mod(h: Heap, host: Host, x: Value, y: Value): (r: Completion<Value>)
    requires HeapOk(h) && Live(h, x) && Live(h, y)
    ensures r.Ok? <==> ToNumeric(h, host, x).Ok? && ToNumeric(h, host, y).Ok?
    ensures r.Ok? ==> r.value == Number(Remainder(ToNumeric(h, host, x).value, ToNumeric(h, host, y).value))
  {
    var a :- ToNumeric(h, host, x);
    var b :- ToNumeric(h, host, y);
    Ok(Number(Remainder(a, b)))
  }

  /** Dividing finite numbers by a nonzero number is exact; by zero it is an
      infinity of the dividend's sign, or NaN for 0 and NaN. The remainder
      of finite numbers takes the dividend's sign and truncates the
      quotient. */
  lemma DivModNumbers(h: Heap, host: Host, a: real, b: real)
    requires HeapOk(h)
    ensures b != 0.0 ==> Div(h, host, Number(Fin(a)), Number(Fin(b))) == Ok(Number(Fin(a / b)))
    ensures a > 0.0 ==> Div(h, host, Number(Fin(a)), Number(Fin(0.0))) == Ok(Number(PosInf))
    ensures a < 0.0 ==> Div(h, host, Number(Fin(a)), Number(Fin(0.0))) == Ok(Number(NegInf))
    ensures Div(h, host, Number(Fin(0.0)), Number(Fin(0.0))) == Ok(Number(NaN))
    ensures b != 0.0 ==>
      Mod(h, host, Number(Fin(a)), Number(Fin(b))) == Ok(Number(Fin(a - b * (Truncate(a / b) as real))))
    ensures Mod(h, host, Number(Fin(a)), Number(Fin(0.0))) == Ok(Number(NaN))
  {
    DivideSpec(Fin(a), Fin(b));
    DivideSpec(Fin(a), Fin(0.0));
    if b != 0.0 {
      RemainderIsTruncating(a, b);
    }
  }

  /** The outcome of the abstract relational comparison: true, false, or
      undefined when a NaN is involved. */
  datatype Comparison = Undef | Is(b: bool)

  /** Host string comparison: code point by code point, a proper prefix
      first. */
  predicate StrLess(a: string, b: string) {
    if a == [] then b != []
    else if b == [] then false
    else if a[0] != b[0] then a[0] < b[0]
    else StrLess(a[1..], b[1..])
  }

  /** String order is a strict total order. */
  lemma {:induction false} StrLessOrder(a: string, b: string)
    ensures !StrLess(a, a)
    ensures StrLess(a, b) ==> !StrLess(b, a)
    ensures StrLess(a, b) || a == b || StrLess(b, a)
  {
    if a != [] {
      StrLessOrder(a[1..], a[1..]);
      if b != [] && a[0] == b[0] {
        StrLessOrder(a[1..], b[1..]);
        if a[1..] == b[1..] {
          assert a == [a[0]] + a[1..] && b == [b[0]] + b[1..];
        }
      }
    }
  }

  /** `abstract_relational_comparison` (section 11.8.5): both operands are
      converted with the Number hint, left one first; then they are swapped
      when the question is whether the right one is smaller. Two strings are
      compared as text, everything else as numbers. */
  function Compare(h: Heap, host: Host, x: Value, y: Value, leftFirst: bool): (r: Completion<Comparison>)
    requires HeapOk(h) && Live(h, x) && Live(h, y)
    ensures ToPrimitive(h, host, x, NumberHint).Err? ==> r == Err(ToPrimitive(h, host, x, NumberHint).abrupt)
    ensures x.Str? && y.Str? ==> r == Ok(Is(if leftFirst then StrLess(x.s, y.s) else StrLess(y.s, x.s)))
    ensures x.Number? && y.Number? ==>
      r == if x.n.NaN? || y.n.NaN? then Ok(Undef) else Ok(Is(if leftFirst then NumLess(x.n, y.n) else NumLess(y.n, x.n)))
  {
    var px :- ToPrimitive(h, host, x, NumberHint);
    var py :- ToPrimitive(h, host, y, NumberHint);
    var p := if leftFirst then px else py;
    var q := if leftFirst then py else px;
    if !(p.Str? && q.Str?) then
      match PrimitiveToNumber(host, p)
      case RawInt(_) => Err(HostFault(AttributeError))
      case JsNumber(m) =>
        if m.NaN? then Ok(Undef)
        else match PrimitiveToNumber(host, q)
          case RawInt(_) => Err(HostFault(AttributeError))
          case JsNumber(n) => if n.NaN? then Ok(Undef) else Ok(Is(NumLess(m, n)))
    else Ok(Is(StrLess(p.s, q.s)))
  }

  /** An undefined comparison reads as false. */
  function Answered(c: Comparison, negate: bool): bool {
    match c
    case Undef => false
    case Is(b) => if negate then !b else b
  }

  /** `x < y`. */
  function Lt(h: Heap, host: Host, x: Value, y: Value): (r: Completion<bool>)
    requires HeapOk(h) && Live(h, x) && Live(h, y)
    ensures r.Err? <==> Compare(h, host, x, y, true).Err?
    ensures r == Ok(true) <==> Compare(h, host, x, y, true) == Ok(Is(true))
  {
    var c :- Compare(h, host, x, y, true);
    Ok(Answered(c, false))
  }

  /** `x <= y`: the answer to "is y smaller than x?", negated. */
  function Le(h: Heap, host: Host, x: Value, y: Value): (r: Completion<bool>)
    requires HeapOk(h) && Live(h, x) && Live(h, y)
    ensures r.Err? <==> Compare(h, host, x, y, false).Err?
    ensures r == Ok(true) <==> Compare(h, host, x, y, false) == Ok(Is(false))
  {
    var c :- Compare(h, host, x, y, false);
    Ok(Answered(c, true))
  }

  /** `x >= y`: the answer to "is x smaller than y?", negated. */
  function Ge(h: Heap, host: Host, x: Value, y: Value): (r: Completion<bool>)
    requires HeapOk(h) && Live(h, x) && Live(h, y)
    ensures r.Err? <==> Compare(h, host, x, y, true).Err?
    ensures r == Ok(true) <==> Compare(h, host, x, y, true) == Ok(Is(false))
  {
    var c :- Compare(h, host, x, y, true);
    Ok(Answered(c, true))
  }

  /** `x > y`. */
  function Gt(h: Heap, host: Host, x: Value, y: Value): (r: Completion<bool>)
    requires HeapOk(h) && Live(h, x) && Live(h, y)
    ensures r.Err? <==> Compare(h, host, x, y, false).Err?
    ensures r == Ok(true) <==> Compare(h, host, x, y, false) == Ok(Is(true))
  {
    var c :- Compare(h, host, x, y, false);
    Ok(Answered(c, false))
  }

  /** On two numbers: if either is NaN, all four comparisons are false;
      otherwise they are the number order, `<=` is the negation of `>` and
      `>=` the negation of `<`. */
  lemma RelationalNumbers(h: Heap, host: Host, a: Num, b: Num)
    requires HeapOk(h)
    ensures a.NaN? || b.NaN? ==>
      && Lt(h, host, Number(a), Number(b)) == Ok(false)
      && Le(h, host, Number(a), Number(b)) == Ok(false)
      && Gt(h, host, Number(a), Number(b)) == Ok(false)
      && Ge(h, host, Number(a), Number(b)) == Ok(false)
    ensures !a.NaN? && !b.NaN? ==>
      && Lt(h, host, Number(a), Number(b)) == Ok(NumLess(a, b))
      && Gt(h, host, Number(a), Number(b)) == Ok(NumLess(b, a))
      && Le(h, host, Number(a), Number(b)) == Ok(!NumLess(b, a))
      && Ge(h, host, Number(a), Number(b)) == Ok(!NumLess(a, b))
  {
  }

  /** Whatever the operands, `<=` and `>` ask the same question and `>=`
      and `<` too: both fail alike, and when they succeed they are each
      other's negation unless the comparison is undefined, which makes both
      false. */
  lemma RelationalPairs(h: Heap, host: Host, x: Value, y: Value)
    requires HeapOk(h) && Live(h, x) && Live(h, y)
    ensures Le(h, host, x, y).Ok? <==> Gt(h, host, x, y).Ok?
    ensures Ge(h, host, x, y).Ok? <==> Lt(h, host, x, y).Ok?
    ensures Le(h, host, x, y).Ok? ==>
      && (Compare(h, host, x, y, false).value.Undef? ==>
            Le(h, host, x, y).value == false && Gt(h, host, x, y).value == false)
      && (Compare(h, host, x, y, false).value.Is? ==>
            Le(h, host, x, y).value == !Gt(h, host, x, y).value)
    ensures Ge(h, host, x, y).Ok? ==>
      && (Compare(h, host, x, y, true).value.Undef? ==>
            Ge(h, host, x, y).value == false && Lt(h, host, x, y).value == false)
      && (Compare(h, host, x, y, true).value.Is? ==>
            Ge(h, host, x, y).value == !Lt(h, host, x, y).value)
  {
  }

  /** Two strings are compared as text in both directions. */
  lemma RelationalStrings(h: Heap, host: Host, s: string, t: string)
    requires HeapOk(h)
    ensures Lt(h, host, Str(s), Str(t)) == Ok(StrLess(s, t))
    ensures Gt(h, host, Str(s), Str(t)) == Ok(StrLess(t, s))
    ensures Le(h, host, Str(s), Str(t)) == Ok(!StrLess(t, s))
    ensures Ge(h, host, Str(s), Str(t)) == Ok(!StrLess(s, t))
  {
  }

  /** Operands of the same type, in the sense of `TYPE`. */
  predicate SameType(x: Value, y: Value) {
    match (x, y)
    case (Undefined, Undefined) => true
    case (Null, Null) => true
    case (Bool(_), Bool(_)) => true
    case (Number(_), Number(_)) => true
    case (Str(_), Str(_)) => true
    case (Ref(_), Ref(_)) => true
    case _ => false
  }

  /** Equality of two operands of the same type: numbers by value (NaN
      unequal to itself), objects by identity. */
  predicate SameTypeEq(x: Value, y: Value)
    requires SameType(x, y)
  {
    match (x, y)
    case (Number(a), Number(b)) => NumEq(a, b)
    case _ => x == y
  }

  /** The measure that the conversions of `==` lower: objects become
      primitives, booleans numbers, and strings numbers. */
  function EqRank(v: Value): nat {
    match v
    case Ref(_) => 4
    case Bool(_) => 2
    case Str(_) => 1
    case _ => 0
  }

  /** `abstract_equality_comparison` (section 11.9.3). When text is read
      as a hexadecimal raw integer, the next step asks that integer for
      an attribute it does not have. */
  function LooseEq(h: Heap, host: Host, x: Value, y: Value): (r: Completion<bool>)
    requires HeapOk(h) && Live(h, x) && Live(h, y)
    ensures SameType(x, y) ==> r == Ok(SameTypeEq(x, y))
    decreases EqRank(x) + EqRank(y)
  {
    if SameType(x, y) then Ok(SameTypeEq(x, y))
    else if (x.Undefined? && y.Null?) || (x.Null? && y.Undefined?) then Ok(true)
    else if x.Number? && y.Str? then
      match PrimitiveToNumber(host, y)
      case RawInt(_) => Err(HostFault(AttributeError))
      case JsNumber(n) => LooseEq(h, host, x, Number(n))
    else if x.Str? && y.Number? then
      match PrimitiveToNumber(host, x)
      case RawInt(_) => Err(HostFault(AttributeError))
      case JsNumber(n) => LooseEq(h, host, Number(n), y)
    else if x.Bool? then LooseEq(h, host, Number(if x.b then Fin(1.0) else Fin(0.0)), y)
    else if y.Bool? then LooseEq(h, host, x, Number(if y.b then Fin(1.0) else Fin(0.0)))
    else if (x.Str? || x.Number?) && y.Ref? then
      var p :- ToPrimitive(h, host, y, NoHint);
      LooseEq(h, host, x, p)
    else if (y.Str? || y.Number?) && x.Ref? then
      var p :- ToPrimitive(h, host, x, NoHint);
      LooseEq(h, host, p, y)
    else Ok(false)
  }

  /** `==` gives the same answer, or fails the same way, with its operands
      swapped. */
  lemma {:induction false} LooseEqSymmetric(h: Heap, host: Host, x: Value, y: Value)
    requires HeapOk(h) && Live(h, x) && Live(h, y)
    ensures LooseEq(h, host, x, y) == LooseEq(h, host, y, x)
    decreases EqRank(x) + EqRank(y)
  {
    if SameType(x, y) {
      NumEqSymmetric(x, y);
    } else if x.Number? && y.Str? {
      if PrimitiveToNumber(host, y).JsNumber? {
        LooseEqSymmetric(h, host, x, Number(PrimitiveToNumber(host, y).n));
      }
    } else if x.Str? && y.Number? {
      if PrimitiveToNumber(host, x).JsNumber? {
        LooseEqSymmetric(h, host, Number(PrimitiveToNumber(host, x).n), y);
      }
    } else if x.Bool? {
      LooseEqSymmetric(h, host, Number(if x.b then Fin(1.0) else Fin(0.0)), y);
    } else if y.Bool? {
      LooseEqSymmetric(h, host, x, Number(if y.b then Fin(1.0) else Fin(0.0)));
    } else if (x.Str? || x.Number?) && y.Ref? {
      var p := ToPrimitive(h, host, y, NoHint);
      if p.Ok? {
        LooseEqSymmetric(h, host, x, p.value);
      }
    } else if (y.Str? || y.Number?) && x.Ref? {
      var p := ToPrimitive(h, host, x, NoHint);
      if p.Ok? {
        LooseEqSymmetric(h, host, p.value, y);
      }
    }
  }

  lemma NumEqSymmetric(x: Value, y: Value)
    requires SameType(x, y)
    ensures SameType(y, x) && SameTypeEq(x, y) == SameTypeEq(y, x)
  {
  }

  /** `PyJsStrictEq` (section 11.9.6): operands of different types are
      unequal; primitives compare by value, objects by identity. */
  function StrictEq(x: Value, y: Value): (b: bool)
    ensures b <==> x == y && x != Number(NaN)
  {
    if !SameType(x, y) then false
    else if x.Undefined? || x.Null? then true
    else if IsPrimitive(x) then SameTypeEq(x, y)
    else x.id == y.id
  }

  /** `PyJsStrictNeq`: true for operands that differ in type or value,
      and for NaN against anything, itself included. */
  function StrictNeq(x: Value, y: Value): (b: bool)
    ensures b <==> x != y || x == Number(NaN)
  {
    !StrictEq(x, y)
  }

  /** Strictly equal operands are loosely equal, and on operands of the
      same type the two equalities coincide. */
  lemma StrictImpliesLoose(h: Heap, host: Host, x: Value, y: Value)
    requires HeapOk(h) && Live(h, x) && Live(h, y)
    ensures StrictEq(x, y) ==> LooseEq(h, host, x, y) == Ok(true)
    ensures SameType(x, y) ==> LooseEq(h, host, x, y) == Ok(StrictEq(x, y))
  {
  }

  /** Some instances of the coercing equality: null equals undefined, a
      number equals its decimal text, a boolean equals its number. */
  lemma LooseEqCoerces(h: Heap, host: Host, k: int, b: bool)
    requires HeapOk(h)
    ensures LooseEq(h, host, Null, Undefined) == Ok(true)
    ensures LooseEq(h, host, Number(Fin(k as real)), Str(IntToString(k))) == Ok(true)
    ensures LooseEq(h, host, Bool(b), Number(if b then Fin(1.0) else Fin(0.0))) == Ok(true)
    ensures LooseEq(h, host, Undefined, Number(Fin(0.0))) == Ok(false)
  {
    WholeNumberTextRoundTrip(host, k);
  }
}
