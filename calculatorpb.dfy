/** The request and response messages of the calculator service. Only the
    fields the handlers read or write are kept. */
module Calculatorpb {
  import opened Base

  datatype SumRequest = SumRequest(num1: int32, num2: int32)
  datatype SumResponse = SumResponse(result: int32)

  /** `PNDReuqest` in the generated code. */
  datatype PNDRequest = PNDRequest(number: int32)
  datatype PNDResponse = PNDResponse(result: int32)

  datatype FindMaxRequest = FindMaxRequest(num: int32)
  datatype FindMaxResponse = FindMaxResponse(max: int32)

  datatype SquareRequest = SquareRequest(num: int32)

  /** The square root itself is not modelled: the response records the
      non-negative value that is handed to `math.Sqrt`. */
  datatype SquareResponse = SquareResponse(radicand: nat)
}
