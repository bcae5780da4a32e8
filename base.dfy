/** Go and gRPC vocabulary shared by every handler: fixed-width integers,
    status codes, the `(value, error)` pair and the way a handler ends. */
module Base {

  /** Go's `int32`. Arithmetic on it is checked, so every `+`, `/` or `%`
      that stays inside this type is proved not to overflow. */
  newtype int32 = x: int | -0x8000_0000 <= x < 0x8000_0000

  const Int32Modulus: int := 0x1_0000_0000

  predicate InInt32(x: int) {
    -0x8000_0000 <= x < 0x8000_0000
  }

  /** Two's complement wrap-around, which is what Go's `+` on `int32` does. */
  function Wrap32(x: int): (r: int32)
    ensures (r as int - x) % Int32Modulus == 0
    ensures InInt32(x) ==> r as int == x
  {
    var m := x % Int32Modulus;
    if m < 0x8000_0000 then m as int32 else (m - Int32Modulus) as int32
  }

  datatype Option<T> = None | Some(value: T)

  /** The gRPC status codes the server produces (`codes.Canceled`, `codes.InvalidArgument`). */
  datatype Code = Canceled | InvalidArgument

  /** What `status.Errorf(code, message)` builds. */
  datatype Status = Status(code: Code, message: string)

  /** A unary handler's `(*Response, error)` pair: a payload and a nil error,
      or a nil payload and a status error. */
  datatype Result<T> = Ok(value: T) | Err(status: Status)

  /** The value `ctx.Err()` returns: nil, `context.Canceled` or
      `context.DeadlineExceeded`. */
  datatype CtxErr = NoErr | ContextCanceled | DeadlineExceeded

  /** How a streaming handler ends: it returns an `error` (None for nil), or
      it calls `log.Fatalf`, which exits the whole server process. */
  datatype Exit = Returned(err: Option<Status>) | ProcessExit
}
