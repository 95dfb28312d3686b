/** The outcomes a route can answer with, and their HTTP status codes. */
module Responses {
  import opened Validation

  datatype Response<T> =
    | Ok(value: T)                 // 200; reads and updates answer with the record, deletes only with a message
    | Created(value: T)            // 201, with the record inserted
    | Invalid(errors: seq<Field>)  // 400, every field that failed its rule
    | DuplicateDate                // 400, "Goal already exists for this date"
    | NotFound                     // 404, no record with that id (or date) for this user
    | ServerError                  // 500, any other store failure
  {
    function Status(): (code: int)
      ensures code == 400 <==> Invalid? || DuplicateDate?
      ensures code == 404 <==> NotFound?
      ensures code == 500 <==> ServerError?
      ensures 200 <= code < 300 <==> Ok? || Created?
      ensures Ok? ==> code == 200
      ensures Created? ==> code == 201
    {
      match this
      case Ok(_) => 200
      case Created(_) => 201
      case Invalid(_) => 400
      case DuplicateDate => 400
      case NotFound => 404
      case ServerError => 500
    }
  }
}
