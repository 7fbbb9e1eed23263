/** The status codes the controllers put in their JSON responses. */
module Http {
  datatype Status =
    | Ok                 // 200
    | Created            // 201
    | Accepted           // 202
    | AlreadyReported    // 208: "already in cart / wishlist"
    | BadRequest         // 400
    | Unauthorized       // 401
    | Forbidden          // 403
    | NotFound           // 404
    | Conflict           // 409
    | ExpectationFailed  // 417: not enough stock
    | ServerError        // 500: an exception escaped the handler
  {
    function Code(): (c: int)
      ensures 200 <= c < 600
    {
      match this
      case Ok => 200
      case Created => 201
      case Accepted => 202
      case AlreadyReported => 208
      case BadRequest => 400
      case Unauthorized => 401
      case Forbidden => 403
      case NotFound => 404
      case Conflict => 409
      case ExpectationFailed => 417
      case ServerError => 500
    }

    /** 208 is reported with an HTTP 200 envelope but is not a fresh success. */
    predicate IsSuccess() {
      Ok? || Created? || Accepted?
    }
  }

  /** Distinct statuses carry distinct numeric codes, so clients can tell them apart. */
  lemma CodesDistinct(a: Status, b: Status)
    requires a != b
    ensures a.Code() != b.Code()
  {
  }
}
