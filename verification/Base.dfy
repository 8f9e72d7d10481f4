/** Vocabulary shared by every module: optional values, the machine's
    size type, the HTTP status codes the modelled code produces, and line ends. */
module Base {

  datatype Option<+T> = None | Some(value: T)

  /** One past the largest `size_t`. Sums and differences of sizes wrap at this bound. */
  const SIZE_LIMIT: int := 0x1_0000_0000_0000_0000

  function AddSize(a: nat, b: nat): nat {
    (a + b) % SIZE_LIMIT
  }

  function SubSize(a: nat, b: nat): nat {
    (a - b) % SIZE_LIMIT
  }

  function Min(a: nat, b: nat): nat {
    if a <= b then a else b
  }

  datatype HttpStatus =
    | OK
    | BadRequest
    | PayloadTooLarge
    | InternalServerError
    | BadGateway

  const CRLF := "\r\n"
}
