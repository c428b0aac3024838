# The js2py object model in Dafny

js2py runs JavaScript (ECMAScript 5.1) in Python. Its base object, `PyJs`
in `js2py/base.py`, holds the object model for every translated program:
- the property descriptors;
- the prototype-chain lookup;
- `[[Get]]`, `[[CanPut]]`, `[[Put]]`, `[[Delete]]` and `[[DefineOwnProperty]]`;
- the type conversions (ToPrimitive, ToBoolean, ToNumber, ToString and the
  integer conversions);
- the binary operators `+`, `/` and `%`, the relational comparisons, and
  loose and strict equality.

Two subclasses build on the base object. `Scope` handles variable scopes: the
global scope is an object of frozen properties, and local scopes are plain
dictionaries. `PyJsArray` redefines `[[DefineOwnProperty]]` to keep `length`
in step with the indices.

This project models that core. Objects live in a heap (`map<ObjId, Obj>`) and
are referred to by identity. Host services are parameters of a `Host` value:
running a callable (getters, setters, `toString`, `valueOf`), rendering a
non-integral float, and parsing a decimal float. Modules follow the source's
structure:

- `Values`: runtime values, descriptors, objects, the heap and its invariant
  (finite prototype chains, well-shaped stored descriptors holding live
  values), and abrupt completions. JavaScript errors are `JsError`/`JsThrow`.
  Python exceptions that escape the runtime are `HostFault`.
- `Numbers`, `NumberText`: float arithmetic on the `Num` type (values,
  infinities and NaN), the integer conversions, and the text forms `to_number`
  reads and `to_string` writes.
- `Lookup`: `get_own_property`, `get_property`, `has_property`, `get` and
  `can_put`.
- `Coercion`: `default_value`, `to_primitive`, `to_boolean`, `to_number`,
  `to_string`, `to_int`, `to_int32`, `to_uint32` and `to_uint16`.
- `Operators`: `__add__`, `__div__`, `__mod__`, the abstract relational
  comparison with `<` `<=` `>=` `>`, abstract equality, and strict equality.
- `Descriptors`: the decision `define_own_property` takes for one property:
  reject, leave unchanged, or store a merged descriptor.
- `Runtime`: the class `Realm`, which owns the heap and changes it in place.
  It holds `put`, `delete`, the base and array `define_own_property` and
  `has_instance`. The index deletion loop of a shrinking `length` is the
  corrected one (second Findings row below); the loop as written is modelled
  beside it.
- `Scoping`: the class `Scopes`: the global scope object and the local frames,
  with `register`, `registers`, `put`, `force_own_put`, `get` and `delete`.
- `Calls`: the argument list `call` hands to a function's code.

Where the code and the ECMAScript specification disagree, the model follows
the code. Examples:
- `can_put` tests the prototype the wrong way round;
- `to_int` fails on finite numbers;
- hexadecimal text converts to a raw host integer, which later attribute reads
  fail on;
- ToInt32 uses the wrong offset (`Coercion.ToInt32` keeps it).

The exceptions are the four faults listed under Findings. For each, a member
models the code as written and exhibits the fault, and the rest of the model
uses a corrected definition:
- the ToInt32 offset: `Numbers.NumberToInt32` is the corrected conversion;
- the float name in the deletion loop of a shrinking `length`:
  `Runtime.Realm.ShrinkLength`, `DeleteDown`, `ShrinkStarted`, `ShrinkWritable`,
  `ShrinkTo` and `DefineLength`
  delete the integer index names;
- the KeyError on a request without `writable`: `Descriptors.DefineOutcome`,
  `DefineSteps` and `Runtime.Realm.BaseDefine` reject where the code raises;
- the host integer an index write stores in `length`:
  `Runtime.Realm.GrowLength` stores a number.

## Model

| member | source | states |
|---|---|---|
| Numbers.Floor | js2py/base.py:530 | the floor the host's float `%` uses: the greatest integer not above x |
| Numbers.Truncate | js2py/base.py:411 | `int(x)` on a float rounds toward zero: it is the floor for x ≥ 0 and the ceiling below 0 |
| Numbers.Negate | js2py/base.py:342 | `sign*float(s)` with sign -1: a finite number becomes its opposite, the infinities swap, NaN stays NaN, and positive and negative trade places |
| Numbers.NegateInvolution | js2py/base.py:342 | negating twice gives the number back |
| Numbers.NumAdd | js2py/base.py:499 | the host sum is NaN exactly when an operand is NaN or the operands are opposite infinities, and finite exactly when both operands are |
| Numbers.HostRemainderRange | js2py/base.py:530 | the host's `a % b` is `a - b*floor(a/b)` and takes the divisor's sign, smaller than the divisor in magnitude |
| Numbers.RemainderIsTruncating | js2py/base.py:523-537 | after the sign correction the remainder of finite numbers is `a - b*trunc(a/b)`: it has the dividend's sign and is smaller than the divisor in magnitude |
| Numbers.DivSign | js2py/base.py:516-517 | a quotient is negative exactly when the operands' signs differ, and zero exactly when the dividend is |
| Numbers.Uint32Range | js2py/base.py:407-417 | ToUint32 and ToUint16 land in [0, 2^32) and [0, 2^16), and agree with the truncated number modulo 2^32 and 2^16 |
| Numbers.NumberToUint32 | js2py/base.py:407-411 | the result lies in [0, 2^32), and NaN and the infinities give 0 |
| Numbers.NumberToUint16 | js2py/base.py:413-417 | the result lies in [0, 2^16), and NaN and the infinities give 0 |
| Numbers.NumberToInt32AsWritten | js2py/base.py:385-392 | as written the result lies in [0, 2^31], and NaN and the infinities give 0 |
| Numbers.Uint32Exact | js2py/base.py:1036-1038 | a number survives ToUint32 unchanged exactly when it is a whole number in [0, 2^32) |
| Numbers.Int32Range | js2py/base.py:385-392 | the corrected ToInt32 lands in [-2^31, 2^31) and agrees with the truncated number modulo 2^32 |
| Numbers.Int32AsWrittenCounterexample | js2py/base.py:391-392 | as written, ToInt32(-1) is 2^31 - 1 and ToInt32(2^31) is 2^31, where section 9.5 of ECMA-262 gives -1 and -2^31 |
| Numbers.NumLessOrder | js2py/base.py:557 | host `<` on non-NaN numbers is irreflexive, transitive, total and asymmetric |
| Numbers.DivideSpec | js2py/base.py:513-520 | the finite quotient times the divisor is the dividend; a zero divisor gives a signed infinity, or NaN for 0 and NaN; NaN absorbs |
| Numbers.Divide | js2py/base.py:513-520 | `/` is NaN exactly when an operand is NaN, both are infinite, or both are zero |
| Numbers.Remainder | js2py/base.py:523-537 | `%` is NaN exactly when an operand is NaN, the dividend is infinite or the divisor is zero; a finite dividend over an infinite divisor is the dividend |
| Numbers.AddSpec | js2py/base.py:497-499 | number addition is commutative with 0 as unit; NaN absorbs; opposite infinities give NaN; x - x is 0 for finite x and NaN otherwise |
| NumberText.DigitChar | js2py/base.py:1054 | each digit below 10 has a decimal character that reads back as that digit |
| NumberText.TrimLeftSpec | js2py/base.py:325 | left stripping drops a prefix and stops at a non-space character |
| NumberText.TrimRightSpec | js2py/base.py:325 | right stripping drops a suffix and stops at a non-space character |
| NumberText.StripSpec | js2py/base.py:325 | `strip()` keeps an infix that neither starts nor ends with white space |
| NumberText.HexDigitValue | js2py/base.py:330 | a hexadecimal digit has a value below 16 |
| NumberText.NatToStringRoundTrip | js2py/base.py:1054 | `str(n)` is a digit string with no leading zero (unless n = 0), and `int()` reads it back as n |
| NumberText.NatToStringInjective | js2py/base.py:1054 | distinct indices render as distinct property names |
| NumberText.StripUnpadded | js2py/base.py:325 | `strip()` leaves text alone when it neither starts nor ends with white space |
| NumberText.ParseDigits | js2py/base.py:341-342 | a whole decimal numeral is read as its value, without the host float parser |
| NumberText.DecimalNumeral | js2py/base.py:334-345 | `to_number` reads the decimal text of n, with or without a minus sign, as n or -n |
| NumberText.UnsignedNumeral | js2py/base.py:341-345 | unsigned decimal digits read as their value |
| NumberText.NegativeNumeral | js2py/base.py:334-345 | digits after a minus sign read as the negated value |
| NumberText.StringToNumber | js2py/base.py:324-345 | a raw host integer comes only from stripped text holding `x` or `X`; BlankText, HexNumeral, DecimalNumeral and SignedInfinityText give its branches |
| NumberText.SignedInfinityText | js2py/base.py:334-340 | `Infinity` and `-Infinity` read as the two infinities |
| NumberText.BlankText | js2py/base.py:325-327 | empty or all-white-space text reads as 0 |
| NumberText.BlankTrims | js2py/base.py:325 | stripping all-white-space text leaves nothing |
| NumberText.HexNumeral | js2py/base.py:328-333 | a `0x` numeral comes back as the raw host integer it spells, not as a Number |
| NumberText.SpacedNegativeHex | js2py/base.py:328-333 | white space between the sign and `0x` is skipped as the host's `int(s, 16)` does: `- 0x10` is the raw integer -16 |
| NumberText.ParseHex | js2py/base.py:328-333 | a negative result comes only from text whose first character, after stripping, is `-`; HexNumeral and SpacedHexParse give its values |
| NumberText.SpacedHexParse | js2py/base.py:330 | `int(s, 16)` reads `- 0x` followed by hex digits as the negated value of the digits |
| Coercion.MethodOrder | js2py/base.py:196-198 | the two method names in order: `valueOf` first exactly for the Number hint, or no hint on a Date |
| Coercion.TryMethods | js2py/base.py:199-206 | the method loop ends only with a primitive; running out of names is a TypeError |
| Coercion.TryMethodsFirst | js2py/base.py:199-206 | the first name whose method is not skipped (readable, and callable with a primitive result) decides: a failed read or call is the answer, as is a primitive result; when every name is skipped the answer is a TypeError |
| Coercion.DefaultValue | js2py/base.py:195-206 | `default_value` yields only primitives |
| Coercion.DefaultValueFirst | js2py/base.py:195-206 | of the two methods in hint order, the first not skipped gives the answer, failures included; both skipped is a TypeError |
| Coercion.DefaultValueNoMethods | js2py/base.py:199-206 | with neither `toString` nor `valueOf` on the chain, the conversion is a TypeError whatever the hint |
| Coercion.ToPrimitive | js2py/base.py:298-301 | primitives are returned unchanged; any success is a primitive |
| Coercion.ToBoolean | js2py/base.py:303-313 | false exactly for undefined, null, false, 0, NaN and the empty string |
| Coercion.PrimitiveToNumber | js2py/base.py:314-345 | only text can yield the raw host integer |
| Coercion.NumberToString | js2py/base.py:358-364 | NaN is written `NaN`; an infinity or a whole number is written as text that `to_number` reads back as the number |
| Coercion.PrimitiveToString | js2py/base.py:349-371 | text is kept, booleans are `true`/`false`, and an infinity or whole number is written as text that reads back as it |
| Coercion.ToNumber | js2py/base.py:314-347 | a primitive converts by the primitive rules; an object converts its `default_value` under the Number hint, whose failure is the answer; a raw integer comes only from text or an object |
| Coercion.ToString | js2py/base.py:349-371 | a primitive converts by the primitive rules; an object converts its `default_value` under the String hint, whose failure is the answer |
| Coercion.WholeNumberTextRoundTrip | js2py/base.py:363-364 | a whole number is written as its decimal numeral, and that text reads back as the number |
| Coercion.WholeNumberRead | js2py/base.py:334-345 | the decimal text of any whole number, negative or not, reads back through `to_number` as that number |
| Coercion.ToNumeric | js2py/base.py:386-389 | reading `.value` after `to_number` fails on a primitive exactly when it is hexadecimal text |
| Coercion.ToInt32 | js2py/base.py:385-392 | as written: the number read by `to_number` mapped by `NumberToInt32AsWritten`, so the result is in [0, 2^31]; it fails exactly when reading the number fails |
| Coercion.ToUint32 | js2py/base.py:407-411 | the number read by `to_number`, truncated and reduced modulo 2^32 (`NumberToUint32`, with `Uint32Range`), with 0 for NaN and the infinities; it fails exactly when reading the number fails |
| Coercion.ToUint16 | js2py/base.py:413-417 | the number read by `to_number`, truncated and reduced modulo 2^16 (`NumberToUint16`, with `Uint32Range`), with 0 for NaN and the infinities; it fails exactly when reading the number fails |
| Coercion.ToInteger | js2py/base.py:399-405 | NaN gives 0, either infinity gives 10^20, a finite number fails on `int()`, and a failure of reading the number is passed through |
| Lookup.Chain | js2py/base.py:104-109 | the objects a lookup visits start at the object and stay in the heap |
| Lookup.GetOwnProperty | js2py/base.py:101-102 | the own descriptor exactly when the object owns the name |
| Lookup.GetProperty | js2py/base.py:104-109 | whatever the lookup finds is a stored descriptor |
| Lookup.GetPropertyFindsFirst | js2py/base.py:104-109 | the lookup returns the own descriptor of the first object on the chain that has the name, and nothing when none has it |
| Lookup.HasProperty | js2py/base.py:181-182 | true exactly when some object on the chain has the name as its own |
| Lookup.Get | js2py/base.py:111-126 | undefined when nothing on the chain has the name; an own data property's value; failure only through a getter |
| Lookup.GetFromChain | js2py/base.py:111-126 | the first object on the chain owning the name decides: its stored value, undefined for a missing getter, or the getter called with the object asked as `this` |
| Lookup.CanPutWithoutOwn | js2py/base.py:127-145 | without an own property the answer is the object's extensibility, whatever the chain holds |
| Lookup.CanPut | js2py/base.py:127-145 | a yes needs an own property or an extensible object; CanPutWithoutOwn and CanPutWithOwn give every case |
| Lookup.CanPutWithOwn | js2py/base.py:127-133 | with an own property the answer is its setter's callability or its writability |
| Operators.Add | js2py/base.py:492-499 | `+` yields a string or a number; on primitives it always succeeds, and a string operand concatenates the texts; two primitives neither of them text are read as numbers and added |
| Operators.AddNumbers | js2py/base.py:492-499 | on two numbers `+` is their sum, commutative, with 0 as unit |
| Operators.AddViaPrimitives | js2py/base.py:492-494 | `+` on any operands is `+` on their primitives taken without hint (so a Date tries `valueOf` first), the left operand converted first and a failed conversion the answer |
| Operators.AddNonTextPrimitives | js2py/base.py:497-499 | `true + 1` is 2, `null + 1` is 1, `undefined + 1` is NaN |
| Operators.Div | js2py/base.py:513-521 | `/` succeeds exactly when both numbers can be read, and is then their quotient |
| Operators.Mod | js2py/base.py:523-537 | `%` succeeds exactly when both numbers can be read, and is then their remainder |
| Operators.DivModNumbers | js2py/base.py:513-537 | finite quotients are exact; dividing by zero gives a signed infinity, or NaN for 0/0; the remainder truncates its quotient; `% 0` is NaN |
| Operators.StrLessOrder | js2py/base.py:561 | string order is irreflexive, asymmetric and total |
| Operators.RelationalNumbers | js2py/base.py:543-590 | on numbers all four comparisons are false with a NaN; otherwise they are the number order, with `<=` the negation of `>` and `>=` that of `<` |
| Operators.Compare | js2py/base.py:543-561 | the left operand is converted first whatever the direction; two strings compare as text, two numbers by the number order, undefined when a NaN is involved; the direction swaps the operands |
| Operators.Lt | js2py/base.py:563-568 | `x < y` is true exactly when the comparison answers that x is smaller, and fails exactly when the comparison does |
| Operators.Le | js2py/base.py:570-575 | `x <= y` is true exactly when the comparison answers that y is not smaller, and fails exactly when the comparison does |
| Operators.Ge | js2py/base.py:577-582 | `x >= y` is true exactly when the comparison answers that x is not smaller, and fails exactly when the comparison does |
| Operators.Gt | js2py/base.py:584-589 | `x > y` is true exactly when the comparison answers that y is smaller, and fails exactly when the comparison does |
| Operators.RelationalPairs | js2py/base.py:564-590 | for any operands, `<=`/`>` and `>=`/`<` fail alike, and are each other's negation unless the comparison is undefined, when both are false |
| Operators.RelationalStrings | js2py/base.py:553-561 | two strings compare as text in all four comparisons |
| Operators.LooseEq | js2py/base.py:591-616 | operands of the same type compare by value (numbers with NaN unequal) or by identity |
| Operators.LooseEqSymmetric | js2py/base.py:591-616 | `==` gives the same answer, or the same failure, with its operands swapped |
| Operators.NumEqSymmetric | js2py/base.py:599 | same-type equality is symmetric |
| Operators.StrictEq | js2py/base.py:686-695 | `===` holds exactly for identical values other than NaN |
| Operators.StrictNeq | js2py/base.py:698-700 | `!==` holds for operands of different type or value, and for NaN against anything, itself included |
| Operators.StrictImpliesLoose | js2py/base.py:686-695 | strictly equal operands are loosely equal, and on operands of one type the two equalities coincide |
| Operators.LooseEqCoerces | js2py/base.py:601-610 | null equals undefined; a whole number equals its decimal text; a boolean equals its number; undefined does not equal 0 |
| Descriptors.WritableGuardAgrees | js2py/base.py:255-258 | the guard as written faults exactly on a non-writable property and a request without `writable`, and elsewhere agrees with the corrected guard |
| Descriptors.WritableGuardCounterexample | js2py/base.py:257 | a value change requested on a frozen data property makes the guard as written raise KeyError, where the corrected define rejects it |
| Descriptors.DefineOutcome | js2py/base.py:207-268 | whatever is stored has the stored shape and holds live values; it fails only when comparing values of an existing property |
| Descriptors.ValueComparedFirst | js2py/base.py:232 | the dictionary comparison reaches `value` before `configurable`: a request with `configurable: true` and text against a number faults instead of rejecting |
| Descriptors.DefineSteps | js2py/base.py:207-268 | the steps taken one by one, with early returns and the current descriptor updated in place, reach exactly the decision `DefineOutcome` names |
| Descriptors.DescEqualsFailsOnValues | js2py/base.py:232 | `desc == current` can fail only when both dictionaries hold a `value`: getters and setters compare by identity |
| Descriptors.DescEquals | js2py/base.py:232 | dictionaries with different keys are unequal; equal ones agree on every flag; ValueComparedFirst fixes the order and DescEqualsFailsOnValues the failures |
| Descriptors.DefineNew | js2py/base.py:221-230 | a new property is rejected on a non-extensible object; otherwise it is the request over the data or accessor defaults |
| Descriptors.AccessorEntryEq | js2py/base.py:263-266 | comparing two getters or setters is identity |
| Descriptors.NonConfigurableRejects | js2py/base.py:232-266 | a non-configurable property refuses `configurable: true` (unless comparing the values fails first, which is then the answer), a changed `enumerable`, a data/accessor switch, a different getter or setter, and becoming writable |
| Descriptors.NonWritableRejectsNewValue | js2py/base.py:259-260 | a non-writable data property refuses a different value, even when configurable |
| Descriptors.DefineNoChange | js2py/base.py:232-233 | an empty request, or one equal to the current descriptor, changes nothing |
| Descriptors.NonConfigurableStore | js2py/base.py:234-267 | what is stored over a non-configurable property is the merge of the request, still non-configurable and of the same kind |
| Runtime.StoreKeeps | js2py/base.py:226 | storing a well-shaped descriptor keeps the heap and array invariants |
| Runtime.StoreKeepsLength | js2py/base.py:1035 | whatever the base define stores keeps an array's `length` a non-configurable data property holding a length value |
| Runtime.IndexKeyNotLength | js2py/base.py:1054 | no index name is `length` |
| Runtime.NewLengthSpec | js2py/base.py:1036-1038 | a `length` write succeeds exactly for a whole number in [0, 2^32), which it yields; any other number is a RangeError |
| Runtime.NewLength | js2py/base.py:1036-1038 | an accepted length is below 2^32, and a failure of `to_number` is passed through; NewLengthSpec gives exactly which numbers are accepted |
| Runtime.LengthChangeOutcome | js2py/base.py:1050 | changing the number a writable `length` holds is refused exactly when `LengthRefused` holds (`configurable: true` or a different `enumerable`); otherwise the request is merged |
| Runtime.ShrinkRefused | js2py/base.py:1043-1051 | a shrink refused by a read-only `length` or by the base define answers false and changes nothing |
| Runtime.UndeletableBesideLength | js2py/base.py:1050-1054 | storing the new length leaves the set of undeletable indices as it was, since no index name is `length` |
| Runtime.DeleteStep | js2py/base.py:1053-1054 | one deletion step removes exactly the next index below the range already removed |
| Runtime.ShrinkDoneFromLoop | js2py/base.py:1050-1062 | the deletion loop's result, restated against the table before `length` was first changed, undeletable indices and the whole `length` descriptor included |
| Runtime.DoneFromLoop | js2py/base.py:1052-1062 | a completed loop: every index in [new, old) was deletable and is gone, and `length` is the old descriptor with the new number and the requested writability |
| Runtime.StopFromLoop | js2py/base.py:1052-1059 | a stopped loop: the highest undeletable index stops it, the indices above are gone, and `length` is the old descriptor holding one past the stop with the requested writability |
| Runtime.LengthUpdate | js2py/base.py:1050 | merging an accepted new value into a writable, non-configurable `length` changes only its value and writability, so `enumerable` and `configurable` stay |
| Runtime.FloatKeyIsNoIndex | js2py/base.py:1054 | `str()` of a float length is neither an index name nor `length` |
| Runtime.DeleteLoopAsWrittenKeepsAll | js2py/base.py:1052-1059 | as written, the loop deletes nothing from an array table once its length is a float |
| Runtime.Realm.NewObject | js2py/base.py:832-836 | allocates a fresh, empty, extensible object with the given prototype; nothing else changes |
| Runtime.Realm.NewGlobal | js2py/base.py:737-746 | allocates the global scope object: every item becomes a frozen, non-enumerable data property |
| Runtime.Realm.BaseDefine | js2py/base.py:207-268 | the answer is the decision's (True unless rejected, or its failure); the heap takes the stored descriptor, and nothing else changes |
| Runtime.Realm.Put | js2py/base.py:158-179 | a refused put changes nothing; a put on an own data property replaces its value; an inherited setter is called; otherwise a new writable, enumerable, configurable property is made; it answers the value put |
| Runtime.Realm.PutOwn | js2py/base.py:160-165 | an own data property of an ordinary object takes the new value and keeps its flags; only the object's own table changes |
| Runtime.Realm.PutInherited | js2py/base.py:166-178 | a setter found on the chain is called with the object as `this`, and the heap is unchanged; otherwise an ordinary object gains a writable, enumerable, configurable data property |
| Runtime.Realm.DefineOwnProperty | js2py/base.py:207-268 | a non-array object uses the base define; only the object's own table changes |
| Runtime.Realm.ArrayDefine | js2py/base.py:1030-1073 | a `length` request without a value, and a name that is neither `length` nor an index, go to the base define |
| Runtime.Realm.DefineLength | js2py/base.py:1033-1062 | a bad new length fails; growing is the base define; a shrink changes nothing and answers false for a read-only `length` or a refused request; otherwise it succeeds exactly when no index in [new, old) is non-configurable, removing them all, and else stops at the highest such index with those above it removed and `length` one past it; `length` keeps its other flags, `enumerable` included |
| Runtime.Realm.ShrinkTo | js2py/base.py:1043-1062 | the whole outcome of `ShrinkDone`: refusal with no change exactly for a read-only `length` or a refused request; success exactly when no index in [new, old) is undeletable; otherwise a stop at the highest undeletable index; `length` ends as the old descriptor with the new number and `writable` as requested |
| Runtime.Realm.ShrinkWritable | js2py/base.py:1045-1062 | the same outcome for a writable `length`: the first base define decides refusal, then the deletions |
| Runtime.Realm.ShrinkStarted | js2py/base.py:1052-1062 | once the new length is stored, the deletions give the `ShrinkDone` outcome against the table before the store |
| Runtime.Realm.StartShrink | js2py/base.py:1045-1051 | succeeds exactly when the base define accepts, which is exactly when `LengthRefused` does not hold; then `length` is the old descriptor with the new number and `writable` still true, otherwise nothing changes |
| Runtime.Realm.RollBack | js2py/base.py:1055-1058 | after a failed deletion, `length` is one past the undeletable index, with the requested writability |
| Runtime.Realm.ShrinkLength | js2py/base.py:1052-1062 | succeeds exactly when no index in [new, old) is undeletable, and then the table lacks exactly those indices and holds the new length; otherwise it stops at the highest undeletable index and lacks the indices above it |
| Runtime.Realm.DeleteDown | js2py/base.py:1052-1054 | the loop stops at an undeletable index with every index above it deletable and gone, or runs down to the new length with every index in [new, old) deletable and gone |
| Runtime.Realm.DeleteIndexKey | js2py/base.py:1053-1054 | the index is deleted exactly when it is absent or configurable; a present non-configurable one stays and nothing changes |
| Runtime.Realm.StopAt | js2py/base.py:1054-1058 | at an undeletable index, `length` is set to one past it with the requested writability; the indices above it are gone and the rest is kept |
| Runtime.StopShrunk | js2py/base.py:1055-1058 | the rolled-back table is the starting one without the deleted indices and with the new `length` |
| Runtime.DoneShrunk | js2py/base.py:1052-1061 | a completed loop leaves the starting table without the indices [new, old), with `length` writable or, when asked, read-only |
| Runtime.Realm.DefineIndex | js2py/base.py:1063-1071 | an index at or above a read-only length is refused and nothing changes; otherwise the answer is the base define's, the heap is the base define's result, and when that succeeds at or beyond the length, `length` then holds index + 1 |
| Runtime.Realm.StoreIndex | js2py/base.py:1067-1071 | the base define of the index, then, on success at or beyond the old length, `length` set to index + 1; a refusal or failure changes nothing |
| Runtime.Realm.GrowLength | js2py/base.py:1070 | `length` alone takes the number index + 1, keeping its flags |
| Runtime.GrownPayloadCounterexample | js2py/base.py:1064-1070 | as written, the length of `[1,2,3]` is the host integer 3: it fails to convert to a string and divides by a length 2 to 1; the number 3 converts to "3" and divides to 1.5 |
| Runtime.GrownLengthReads | js2py/base.py:1070 | the length stored after an index write converts to the decimal numeral of index + 1 and divides as a number |
| Runtime.Realm.HasInstance | js2py/base.py:902-915 | a primitive is no instance; a non-object `prototype` is a host TypeError; otherwise true exactly when `prototype` is on the other object's chain past itself |
| Runtime.ProperAncestor | js2py/base.py:910-915 | the walk up the prototypes answers true exactly when the target is on the chain above the starting object |
| Runtime.Realm.Delete | js2py/base.py:184-193 | a missing name answers true; an own one is removed exactly when configurable, which is the answer |
| Scoping.Binder | js2py/base.py:776-783 | a local binder holds the name in its frame |
| Scoping.BinderIsFirst | js2py/base.py:793-798 | a local binder is on the chain and no frame before it holds the name; when no frame binds the name, no frame on the chain holds it |
| Scoping.FramesOkGrow | js2py/base.py:749 | local frames stay valid as the heap grows |
| Scoping.DeclaredAppend | js2py/base.py:766-767 | registering one more name extends the table by that name only if it is new |
| Scoping.DeclaredSpec | js2py/base.py:764-767 | after registering names, the table's names are the old ones plus the new; old values stay; new names hold undefined |
| Scoping.Scopes.constructor | js2py/base.py:737-746 | the global scope object holds the items as frozen properties; there are no local frames |
| Scoping.Scopes.NewLocal | js2py/base.py:747-749 | a fresh local frame holds the given dictionary and parent |
| Scoping.Scopes.Register | js2py/base.py:751-762 | global: an existing name becomes non-configurable, a new one a writable, enumerable, undefined property; local: a new name holds undefined, an existing one is kept |
| Scoping.Scopes.DeclareGlobal | js2py/base.py:753-759 | an existing global becomes non-configurable; a new one is a writable, enumerable, non-configurable undefined when the global object is extensible, and nothing changes otherwise |
| Scoping.Scopes.Registers | js2py/base.py:764-767 | a local frame gains exactly the names not yet bound, holding undefined |
| Scoping.Scopes.Put | js2py/base.py:769-783 | the first frame binding the name takes the value; with none, the global object's put applies: refused, a new property, a new own value, or its setter called with the heap unchanged, answering as the setter does |
| Scoping.Scopes.ForceOwnPut | js2py/base.py:785-789 | the global scope stores a writable, enumerable property with the given configurability; a local frame stores the value |
| Scoping.Scopes.Get | js2py/base.py:791-802 | the first binding frame's value; a name the global object lacks is a ReferenceError; otherwise the global object's get |
| Scoping.Scopes.Delete | js2py/base.py:804-817 | a locally bound name is not deleted; in the global scope a missing name answers true and an existing one is removed exactly when configurable |
| Calls.Fit | js2py/base.py:894-898 | the arguments cut or padded to the declared count: a prefix kept, the rest undefined |
| Calls.CallArgs | js2py/base.py:893-899 | the fitted arguments, then `this`, then the arguments object |
| Calls.FitExact | js2py/base.py:895-898 | fitting an exact-length list is the identity, and fitting twice is fitting once |

## Left out

- Property access on primitives (`PyJsString.get`, `can_put` on strings) and `to_object`: only objects in the heap are modelled.
- `get`, `put` and `delete` on undefined and null (the TypeError), and keys that are not strings (converted by `to_string`): every key in the model is already a string.
- The compound-assignment `op` of `put` and `Scope.put`: it dispatches through Python method names onto the operators, which are modelled on their own.
- `cok`, `typeof`, unary operators, `-`, `*`, the bitwise operators and `>>>`: they are not part of the modelled core.
- `instanceof`: an object without `has_instance` raises a Python AttributeError, which is host behaviour outside the model.
- Host side effects of invoked functions: the `Host.invoke` parameter returns a completion and cannot change the heap.
- Float arithmetic is on exact reals: rounding, signed zero and, apart from NaN and the infinities, IEEE 754 are not modelled.
- Rendering non-integral floats and the host's decimal parser are `Host.render` and `Host.parseFloat`; only whole decimal numerals are read exactly.
- `isdigit` and `strip` follow the host's rules for ASCII digits and for Unicode white space; other Unicode digits are not modelled.
- Python dictionary iteration order: `NewGlobal` and `registers` on the global scope take items in an unspecified order, and the result does not depend on it.
- The in-place aliasing of the `length` value object that an index write updates (`old_len_desc['value'].value = ...`): the model stores a new descriptor.
- Descriptors.DefineOutcome: the identity shortcut of the host's dictionary comparison is not modelled. Values carry no object identity, so re-requesting the shared NaN of a non-configurable property is rejected here, where the code compares the same object and answers True.
- The `PyJsArray`, `PyJsArguments`, `PyJsRegExp` and `PyJsError` constructors, `Js()` dispatch, `CHAR_BANK`, and the rendering of exceptions: they lie outside the modelled core.
- Runtime.Realm.Put: for an array it states the answer and the invariants only; the effect follows `DefineOwnProperty`.
- Runtime.Realm.ArrayDefine: it states the base cases directly; `length` and index writes are stated by `DefineLength` and `DefineIndex`.
- Runtime.Realm.DefineOwnProperty: for an array it states only that the own table alone changes; the array behaviour is stated by `ArrayDefine`.
- Scoping.Scopes.Registers: for the global scope it states only that nothing but the global object's own table changes; each step is stated by `Register`.
- Coercion.ToInt32: it keeps the offset as written (see Findings); the corrected conversion is `Numbers.NumberToInt32`.

## Findings

| source | as written | input that shows it | evidently intended | confidence | as-written member | corrected member |
|---|---|---|---|---|---|---|
| js2py/base.py:391-392 | ToInt32 takes 2^31 off a value above 2^31 | `Js(-1).to_int32()` gives 2147483647; `Js(2147483648).to_int32()` gives 2147483648 (no caller in base.py reaches `to_int32`: the bitwise operators that would use it raise NotImplementedError) | subtract 2^32 from values at or above 2^31 (section 9.5 of ECMA-262) | not executed | Numbers.Int32AsWrittenCounterexample | Numbers.Int32Range |
| js2py/base.py:1052-1059 | the loop deletes `str(old_len)`, and after a `length` write `old_len` is a float, so the name is `"1.0"` | `a=[1,2,3]; a.length=2; a.length=1` leaves `a[1]` | delete the integer index names | not executed | Runtime.DeleteLoopAsWrittenKeepsAll | Runtime.Realm.ShrinkLength |
| js2py/base.py:1064-1070 | an index write at or past the length stores the host integer `index + 1` into the `length` number object; on a 64-bit host `int(prop) % 2**32` is an `int`, which has no `is_integer` | `"" + [1,2,3].length` raises AttributeError; `[1,2,3].length / [1,2].length` gives 1 | store the number index + 1, as `Js` makes it | not executed | Runtime.GrownPayloadCounterexample | Runtime.GrownLengthReads |
| js2py/base.py:257 | `desc['writable']` is read although the request may lack it | `Object.defineProperty(frozenObj, 'x', {value: 2})` on a non-configurable, non-writable `x` raises KeyError | treat a missing `writable` as not asking for writability | not executed | Descriptors.WritableGuardCounterexample | Descriptors.WritableGuardAgrees |
