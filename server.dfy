/** The handlers of the calculator service. Unary handlers are functions
    from a request to a `Result`; streaming handlers are methods that
    drive a stream object. Logging is not modelled, and the `time.Sleep`
    calls only show up as a count of seconds slept where they matter. */
module Server {
  import opened Base
  import opened Calculatorpb
  import opened Streams
  import opened Factorization
  import opened FindMaxSpec

  /** Sum: always succeeds with the int32 sum, wrapping around on overflow. */
  function Sum(req: SumRequest): (r: Result<SumResponse>)
    ensures r.Ok?
    ensures (r.value.result as int - (req.num1 as int + req.num2 as int)) % Int32Modulus == 0
    ensures InInt32(req.num1 as int + req.num2 as int) ==>
              r.value.result as int == req.num1 as int + req.num2 as int
  {
    Ok(SumResponse(Wrap32(req.num1 as int + req.num2 as int)))
  }

  /** The number of one-second waits SumWithDeadline makes, each preceded by
      a look at the request's context. */
  const DeadlinePolls: nat := 5

  const CanceledStatus: Status := Status(Canceled, "Client canceled request!")

  /** SumWithDeadline. `observed[i]` is what `ctx.Err()` returns at the
      start of iteration `i`; `slept` counts the seconds slept. The call is
      abandoned at the first iteration that sees `context.Canceled`, before
      that iteration's wait; an expired deadline is not looked for. */
  method SumWithDeadline(req: SumRequest, observed: seq<CtxErr>)
    returns (res: Result<SumResponse>, slept: nat)
    requires |observed| == DeadlinePolls
    ensures res.Err? <==> ContextCanceled in observed
    ensures res.Err? ==>
              && res.status == CanceledStatus
              && slept < DeadlinePolls
              && observed[slept] == ContextCanceled
              && ContextCanceled !in observed[..slept]
    ensures res.Ok? ==> res == Sum(req) && slept == DeadlinePolls
  {
    var i := 0;
    while i < DeadlinePolls
      invariant 0 <= i <= DeadlinePolls
      invariant ContextCanceled !in observed[..i]
    {
      if observed[i] == ContextCanceled {
        // i one-second waits have been made so far
        return Err(CanceledStatus), i;
      }
      i := i + 1;
    }
    assert observed[..i] == observed;
    res, slept := Sum(req), DeadlinePolls;
  }

  /** The numbers carried by a sequence of PrimeNumberDecomposition responses. */
  function Results(rs: seq<PNDResponse>): seq<int> {
    if rs == [] then [] else Results(rs[..|rs| - 1]) + [rs[|rs| - 1].result as int]
  }

  /** Sending one more response adds its number at the end. */
  lemma ResultsAppend(rs: seq<PNDResponse>, r: PNDResponse)
    ensures Results(rs + [r]) == Results(rs) + [r.result as int]
  {
  }

  /** Responses are told apart by the numbers they carry. */
  lemma {:induction false} ResultsInjective(a: seq<PNDResponse>, b: seq<PNDResponse>)
    requires Results(a) == Results(b)
    ensures a == b
  {
    if a != [] && b != [] {
      assert Results(a)[..|Results(a)| - 1] == Results(a[..|a| - 1]);
      assert Results(b)[..|Results(b)| - 1] == Results(b[..|b| - 1]);
      ResultsInjective(a[..|a| - 1], b[..|b| - 1]);
      assert a == a[..|a| - 1] + [a[|a| - 1]];
      assert b == b[..|b| - 1] + [b[|b| - 1]];
    }
  }

  /** PrimeNumberDecomposition: trial division over int32 `n` and `k`,
      sending `k` each time it divides `n`. The error from `Send` is
      ignored by the handler, and the model's `Send` cannot fail. */
  method PrimeNumberDecomposition(req: PNDRequest, stream: SendStream<PNDResponse>)
    returns (err: Option<Status>)
    modifies stream
    ensures err == None
    ensures Results(stream.sent) == Results(old(stream.sent)) + PrimeFactors(req.number as int)
  {
    ghost var N := req.number as int;
    ghost var before := Results(stream.sent);
    ghost var emitted: seq<int> := [];
    var k: int32 := 2;
    var n := req.number;
    while n > 1
      invariant LoopInvariant(N, n as int, k as int, emitted)
      invariant Results(stream.sent) == before + emitted
      decreases n as int, n as int - k as int
    {
      LoopStep(N, n as int, k as int, emitted);
      if n % k == 0 {
        n := n / k;
        ResultsAppend(stream.sent, PNDResponse(k));
        stream.Send(PNDResponse(k));
        emitted := emitted + [k as int];
      } else {
        k := k + 1;
      }
    }
    assert emitted == PrimeFactors(N);
    err := None;
  }

  /** FindMax: for every request received, fold its number into the
      accumulator (which starts at 0) and send the accumulator; return nil
      at `io.EOF`. A receive error makes the handler call `log.Fatalf`. */
  method FindMax(stream: BidiStream<FindMaxRequest, FindMaxResponse>) returns (exit: Exit)
    requires stream.Valid()
    modifies stream
    ensures stream.Valid() && stream.consumed == |stream.inbound|
    ensures stream.sent == old(stream.sent) + Replies(stream.inbound[old(stream.consumed)..])
    ensures exit == if stream.endsWithEOF then Returned(None) else ProcessExit
  {
    var max: int32 := 0;
    ghost var start := stream.consumed;
    ghost var sentBefore := stream.sent;
    while true
      invariant stream.Valid() && start <= stream.consumed
      invariant stream.sent + RepliesFrom(max, stream.inbound[stream.consumed..])
             == sentBefore + Replies(stream.inbound[start..])
      decreases |stream.inbound| - stream.consumed
    {
      ghost var pending := stream.inbound[stream.consumed..];
      var r := stream.Recv();
      if r.EOF? {
        return Returned(None);
      }
      if r.TransportError? {
        return ProcessExit;
      }
      assert pending[0] == r.msg && pending[1..] == stream.inbound[stream.consumed..];
      var num := r.msg.num;
      if num > max {
        max := num;
      }
      stream.Send(FindMaxResponse(max));
    }
  }

  const NegativeSquareStatus: Status := Status(InvalidArgument, "Expect a positive number")

  /** Square: a negative number is refused with InvalidArgument and no
      payload; zero and positive numbers are accepted, and their value is
      what the square root is taken of. */
  function Square(req: SquareRequest): (r: Result<SquareResponse>)
    ensures r.Err? <==> req.num < 0
    ensures r.Err? ==> r.status.code == InvalidArgument && r.status == NegativeSquareStatus
    ensures r.Ok? ==> r.value.radicand == req.num as int
  {
    if req.num < 0 then Err(NegativeSquareStatus)
    else Ok(SquareResponse(req.num as nat))
  }
}
