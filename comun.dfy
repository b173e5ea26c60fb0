/** Constants of the lending policy, the error kinds the library raises and
    the small result types that replace its exceptions. */
module Comun {

  /** Loan period in days (DIAS_PRESTAMO). */
  const DiasPrestamo: int := 14
  /** Fine charged per whole day late (MULTA_POR_DIA). */
  const MultaPorDia: int := 500
  /** Books a borrower may hold at once (MAX_LIBROS). */
  const MaxLibros: int := 3
  /** Fine balance from which a borrower may no longer borrow (MULTA_MAXIMA). */
  const MultaMaxima: int := 5000
  /** Earliest publication year a catalog entry accepts. */
  const AnioMinimo: int := 1000

  /** One constructor per exception the library throws; the comment names the
      Java exception class that carries it. */
  datatype Error =
    | IsbnInvalido         // ISBNInvalidoException
    | AnioInvalido         // IllegalArgumentException("Año inválido")
    | EmailInvalido        // EmailInvalidoException
    | LibroNoEncontrado    // LibroNoDisponibleException("Libro no encontrado")
    | UsuarioNoEncontrado  // IllegalArgumentException("Usuario no encontrado")
    | LibroNoDisponible    // LibroNoDisponibleException("No hay ejemplares" / "Libro no disponible")
    | UsuarioSinCupo       // UsuarioSinCupoException
    | PrestamoNoEncontrado // IllegalArgumentException("Préstamo activo no encontrado")
    | DevolucionExcedida   // IllegalStateException("No se puede devolver más ejemplares")
    | LimiteNegativo       // IllegalArgumentException from Stream.limit

  /** Outcome of an operation that returns nothing but may throw. */
  datatype Outcome = Ok | Fail(error: Error)

  /** Outcome of an operation that returns a value or throws. */
  datatype Result<T> = Success(value: T) | Failure(error: Error)

  datatype Option<T> = None | Some(value: T)

  function Min(a: int, b: int): int
  {
    if a <= b then a else b
  }

  /** The outcome of an operation whose checks found `err`. */
  function Resultado(err: Option<Error>): (o: Outcome)
    ensures o.Ok? <==> err.None?
    ensures err.Some? ==> o.error == err.value
  {
    match err
    case None => Ok
    case Some(e) => Fail(e)
  }
}
