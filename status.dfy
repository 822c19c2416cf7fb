/** The HTTP statuses the author handlers answer with. */
module Http {

  datatype Status = Ok | Created | BadRequest | NotFound | ServerError

}
