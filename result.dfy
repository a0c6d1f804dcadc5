/** A value that is either a success value (`Ok`) or an error value (`Error`), with the queries and combinators the
 *  library defines on it.  Operations that throw in the C++ code return an `Outcome` instead. */
module Results {
  datatype Result<T, E> = Ok(okValue: T) | Error(errorValue: E)

  /** A value that may be absent. */
  datatype Optional<T> = Nothing | Just(value: T)

  /** What an operation that may throw a `std::runtime_error` does: returns a value or throws with a message. */
  datatype Outcome<T> = Returned(value: T) | Thrown(message: string)

  /** The message `unwrap` throws with. */
  const NotOkMessage: string := "result is not okay"

  /** The message `unwrapError` throws with. */
  const NotErrorMessage: string := "result is not an error"

  function IsOk<T, E>(r: Result<T, E>): (b: bool)
    ensures b <==> r.Ok?
  {
    r.Ok?
  }

  function IsError<T, E>(r: Result<T, E>): (b: bool)
    ensures b == !IsOk(r)
  {
    !IsOk(r)
  }

  /** The boolean conversion. */
  function ToBool<T, E>(r: Result<T, E>): (b: bool)
    ensures b == IsOk(r)
  {
    IsOk(r)
  }

  /** `ok()`: the success value, if there is one. */
  function OkOf<T, E>(r: Result<T, E>): (o: Optional<T>)
    ensures o.Just? <==> r.Ok?
    ensures o.Just? ==> r == Ok(o.value)
    ensures o == Nothing <==> IsError(r)
  {
    match r
    case Ok(v) => Just(v)
    case Error(_) => Nothing
  }

  /** `error()`: the error value, if there is one. */
  function ErrorOf<T, E>(r: Result<T, E>): (o: Optional<E>)
    ensures o.Just? <==> r.Error?
    ensures o.Just? ==> r == Error(o.value)
    ensures o == Nothing <==> IsOk(r)
  {
    match r
    case Ok(_) => Nothing
    case Error(e) => Just(e)
  }

  /** `expect(mesg)`: the success value, or a throw with `mesg`. */
  function Expect<T, E>(r: Result<T, E>, mesg: string): (o: Outcome<T>)
    ensures o.Returned? <==> r.Ok?
    ensures o.Returned? ==> r == Ok(o.value)
    ensures o.Thrown? <==> IsError(r)
    ensures o.Thrown? ==> o.message == mesg
  {
    match r
    case Ok(v) => Returned(v)
    case Error(_) => Thrown(mesg)
  }

  /** `unwrap()` and `operator*`: the success value, or a throw with the fixed message. */
  function Unwrap<T, E>(r: Result<T, E>): (o: Outcome<T>)
    ensures o.Returned? <==> r.Ok?
    ensures o.Returned? ==> r == Ok(o.value)
    ensures IsError(r) ==> o == Thrown(NotOkMessage)
  {
    Expect(r, NotOkMessage)
  }

  /** `expectError(mesg)`: the error value, or a throw with `mesg`. */
  function ExpectError<T, E>(r: Result<T, E>, mesg: string): (o: Outcome<E>)
    ensures o.Returned? <==> r.Error?
    ensures o.Returned? ==> r == Error(o.value)
    ensures o.Thrown? <==> IsOk(r)
    ensures o.Thrown? ==> o.message == mesg
  {
    match r
    case Ok(_) => Thrown(mesg)
    case Error(e) => Returned(e)
  }

  /** `unwrapError()`: the error value, or a throw with the fixed message. */
  function UnwrapError<T, E>(r: Result<T, E>): (o: Outcome<E>)
    ensures o.Returned? <==> r.Error?
    ensures o.Returned? ==> r == Error(o.value)
    ensures IsOk(r) ==> o == Thrown(NotErrorMessage)
  {
    ExpectError(r, NotErrorMessage)
  }

  /** `orElse(dflt)`: the success value, or `dflt` when there is none. */
  function OrElse<T, E>(r: Result<T, E>, dflt: T): (v: T)
    ensures r.Ok? ==> v == r.okValue
    ensures IsError(r) ==> v == dflt
  {
    match r
    case Ok(w) => w
    case Error(_) => dflt
  }

  /** `and_(other)`: `other` when this result is a success, otherwise this result's error. */
  function And<T, U, E>(r: Result<T, E>, other: Result<U, E>): (a: Result<U, E>)
    ensures IsOk(r) ==> a == other
    ensures r.Error? ==> a == Error(r.errorValue)
  {
    match r
    case Ok(_) => other
    case Error(e) => Error(e)
  }

  /** `or_(other)`: this result's success value when there is one, otherwise `other`. */
  function Or<T, E, F>(r: Result<T, E>, other: Result<T, F>): (o: Result<T, F>)
    ensures r.Ok? ==> o == Ok(r.okValue)
    ensures IsError(r) ==> o == other
  {
    match r
    case Ok(v) => Ok(v)
    case Error(_) => other
  }

  /** `contains(value)`: whether this is a success holding `value`. */
  function Contains<T(==), E>(r: Result<T, E>, value: T): (b: bool)
    ensures b <==> r == Ok(value)
    ensures b <==> OkOf(r) == Just(value)
  {
    r.Ok? && r.okValue == value
  }

  /** `containsError(error)`: whether this is an error holding `error`. */
  function ContainsError<T, E(==)>(r: Result<T, E>, error: E): (b: bool)
    ensures b <==> r == Error(error)
    ensures b <==> ErrorOf(r) == Just(error)
  {
    r.Error? && r.errorValue == error
  }

  /** `assignTo(dest)`: on a success writes its value to `dest` and answers true; otherwise leaves `dest` alone and
   *  answers false. */
  method AssignTo<T, E>(r: Result<T, E>, dest: T) returns (stored: bool, dest': T)
    ensures stored == IsOk(r)
    ensures r.Ok? ==> dest' == r.okValue
    ensures IsError(r) ==> dest' == dest
  {
    if r.Ok? {
      dest' := r.okValue;
      stored := true;
    } else {
      dest' := dest;
      stored := false;
    }
  }

  /** The queries agree with each other and with the accessors: a result is okay or an error and never both,
   *  `ok()` holds a value exactly when it is okay, `error()` exactly when it is an error, and `unwrap`
   *  succeeds exactly when `unwrapError` throws. */
  lemma QueriesAgree<T, E>(r: Result<T, E>)
    ensures ToBool(r) == IsOk(r) && IsOk(r) != IsError(r)
    ensures OkOf(r).Just? == IsOk(r) && ErrorOf(r).Just? == IsError(r)
    ensures Unwrap(r).Returned? == IsOk(r) && UnwrapError(r).Returned? == IsError(r)
    ensures IsOk(r) ==> Contains(r, r.okValue) && Unwrap(r) == Returned(r.okValue)
    ensures IsError(r) ==> ContainsError(r, r.errorValue) && UnwrapError(r) == Returned(r.errorValue)
  {
  }

  /** `and_` is the monadic sequencing of results: a success passes the other result through, and conversely only a
   *  success followed by a success succeeds. */
  lemma AndOkIff<T, U, E>(r: Result<T, E>, other: Result<U, E>)
    ensures IsOk(And(r, other)) <==> IsOk(r) && IsOk(other)
  {
  }

  /** `or_` fails only when both results fail. */
  lemma OrErrorIff<T, E, F>(r: Result<T, E>, other: Result<T, F>)
    ensures IsError(Or(r, other)) <==> IsError(r) && IsError(other)
  {
  }

  /** `orElse` agrees with `ok()` and with `unwrap`. */
  lemma OrElseAgrees<T, E>(r: Result<T, E>, dflt: T)
    ensures OrElse(r, dflt) == (match OkOf(r) case Just(v) => v case Nothing => dflt)
    ensures Unwrap(r).Returned? ==> OrElse(r, dflt) == Unwrap(r).value
  {
  }

  /** The checks made on a success holding 5. */
  lemma OkScenario(address: nat)
    ensures var r: Result<int, string> := Ok(5);
            var a: Result<nat, string> := Ok(address);
            var b: Result<int, nat> := Ok(6);
            && IsOk(r) && ToBool(r) && !IsError(r)
            && OkOf(r) == Just(5) && ErrorOf(r) == Nothing
            && Expect(r, "failed") == Returned(5) && Unwrap(r) == Returned(5) && OrElse(r, 6) == 5
            && ExpectError(r, "foo") == Thrown("foo") && UnwrapError(r) == Thrown("result is not an error")
            && And(r, a) == Ok(address)
            && Or(r, b) == Ok(5)
            && Contains(r, 5) && !ContainsError(r, "")
  {
  }

  /** The checks made on an error holding "error". */
  lemma ErrorScenario(address: nat)
    ensures var r: Result<int, string> := Error("error");
            var a: Result<nat, string> := Ok(address);
            var b: Result<int, nat> := Ok(6);
            && !IsOk(r) && !ToBool(r) && IsError(r)
            && OkOf(r) == Nothing && ErrorOf(r) == Just("error")
            && Expect(r, "foo") == Thrown("foo") && Unwrap(r) == Thrown("result is not okay") && OrElse(r, 6) == 6
            && ExpectError(r, "foo") == Returned("error") && UnwrapError(r) == Returned("error")
            && And(r, a) == Error("error")
            && Or(r, b) == Ok(6)
            && !Contains(r, 5) && ContainsError(r, "error")
  {
  }
}
