/** The part of Spring's ResponseEntity the controllers decide: a body and a status. */
module Http {

  datatype Response<T> = Response(body: T, status: int)

  const OK: int := 200        // HttpStatus.OK
  const CREATED: int := 201   // HttpStatus.CREATED
}
