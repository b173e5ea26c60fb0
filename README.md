# Biblioteca: a verified model of the lending engine

This project models the lending engine of `BibliotecaApp.java`. The engine
has four parts:

- **`Libro`**, a catalog entry. It validates its ISBN and year, and keeps
  its available copies against its total copies and a lifetime loan counter.
- **`Usuario`**, a borrower. It holds a list of borrowed ISBNs and a fine
  balance.
- **`Prestamo`**, a loan. Its status runs ACTIVO → DEVUELTO or
  ACTIVO → VENCIDO. The loan is due fourteen days after it starts, and the
  fine is 500 per whole day late.
- **`Biblioteca`**, the service. It joins the catalog, the registry of
  borrowers and the loan ledger. Its operations are checkout
  (`realizarPrestamo`), return (`devolverLibro`), the overdue sweep
  (`actualizarEstadosPrestamos`) and the read-only queries.

Each Java class becomes a Dafny class, mutated in place by methods with
`modifies` clauses. The classes keep the Java fields, with two exceptions:
`Prestamo` has no `id` field, and the static `CONTADOR_ID` becomes a
`ContadorId` object that `Biblioteca` holds. `Libro`, `Usuario`, `Prestamo`
and `Biblioteca` also have a value view (`Vista`) and an invariant (`Valid`).
Most methods state their new view as a pure transition of the old one. Two do not:
`Prestamo.CalcularMulta` states the fine field it sets, and `ContadorId.Tomar`
states the value it returns and the counter's next value.

For the whole library, module `Modelo` describes the state as a value
(`Estado`). It defines the checkout, return and sweep as functions on that
value (`TrasPrestamo`, `TrasDevolucion`, `TrasBarrido`). Its lemmas prove:

- what each transition changes, and that it changes nothing else;
- that the cross-entity invariant `Consistente` is kept. This invariant says:
  - each book's copies out equal its loans not returned;
  - each borrower holds exactly the ISBNs of their loans not returned;
  - each returned loan carries the fine its dates call for.

`Biblioteca`'s methods are proved to move `Vista()` exactly as those
transitions say. Exceptions become `Outcome`/`Result` values. Every check
of an operation runs before its first mutation. A failing checkout or return
is therefore proved to leave every book and borrower object untouched and
the library's view unchanged. Every mutable field of a loan is part of its
view, so its loans are unchanged too. A failing checkout also keeps the
ledger sequence itself.

Files, one module each:

- `comun.dfy`: constants, error kinds, result types.
- `validacion.dfy`: the ISBN, year and e-mail checks.
- `listas.dfy`: `List.remove(Object)`, `String.contains`, duplicate-free
  sequences.
- `libro.dfy`, `usuario.dfy`, `prestamo.dfy`: the entity classes.
- `modelo.dfy`: the library state as a value.
- `biblioteca.dfy`: the service class.

Where the code and its description differ, the model follows the code:

- **VENCIDO loans cannot be returned.** `devolverLibro` matches only ACTIVO
  loans, so a loan the sweep has marked VENCIDO can no longer be returned. The
  return then fails as "loan not found" (`Modelo.VencidoNoSeDevuelve`).
- **Books and borrowers are overwritten.** `agregarLibro` and
  `registrarUsuario` replace whatever is filed under the same key.
  Overwriting a book that has copies out breaks the copies-out invariant
  (`Modelo.SobrescribirRompeConsistencia`).
- **One identifier sequence.** `Usuario.CONTADOR_ID` is static, so every
  borrower draws from the same sequence. The model makes that sequence an
  object (`ContadorId`). The library holds it (`Biblioteca.contador`), and
  the `Usuario` constructor draws the identifier from it. A borrower drawn
  from the library's sequence has an identifier no registered borrower has
  (`UsuarioCreadoEsNuevo`). The registry then keeps holding only identifiers
  already handed out (`IdentificadoresTomados`).
- **A same-day return may close an older loan.** The eligibility check
  lets a borrower take a second copy of a book they already hold. A return
  then closes the pair's first ACTIVO loan in ledger order, which is the
  older one. So "checkout then return leaves exactly one more DEVUELTO loan,
  with fine 0" holds only for a pair with no ACTIVO loan
  (`Modelo.PrestamoYDevolucionMismoDia`). Otherwise the new loan stays ACTIVO
  and the older loan's late fine is charged (`Modelo.PrestamoYDevolucionCierra`).
  Availability and the held books are restored in every case
  (`Modelo.PrestamoYDevolucionRestituye`).
- **Negative totals are accepted.** The `Libro` constructor does not reject a
  negative number of copies. The entry invariant is therefore
  `min(0, total) ≤ available ≤ total`.

## Model

| member | source | states |
|---|---|---|
| Libros.LibroNuevo | BibliotecaApp.java:40-51 | a new entry has every copy on the shelf and a zero loan counter, and satisfies the entry invariant for any total |
| Libros.Libro.constructor | BibliotecaApp.java:40-51 | fields set from the arguments; view is `LibroNuevo(total)`; the object is valid |
| Libros.Libro.Crear | BibliotecaApp.java:40-64 | invalid ISBN fails with IsbnInvalido; otherwise an invalid year fails with AnioInvalido; otherwise a fresh valid entry with every copy on the shelf |
| Validacion.EjemplosDeIsbn | BibliotecaApp.java:53-57 | a 13-digit ISBN passes and "123" fails |
| Validacion.IsbnValido | BibliotecaApp.java:53-57 | an ISBN passes exactly when `\d{13}` matches it, read as the pattern reads: thirteen times a digit, then the end |
| Validacion.DigitosSii | BibliotecaApp.java:53-57 | `\d{n}` matches exactly the strings of length n made only of ASCII digits |
| Validacion.AnioValido | BibliotecaApp.java:59-64 | a year is refused exactly when it is below 1000 or after the current year; before the year 1000 every year is refused |
| Validacion.EjemploDeEmailValido | BibliotecaApp.java:123-127 | "ana@email.com" passes the e-mail check |
| Validacion.EmailCompuesto | BibliotecaApp.java:123-127 | any non-empty local part from `[A-Za-z0-9+_.-]`, then `@`, then a non-empty rest without line terminators passes the e-mail check |
| Validacion.EjemplosDeEmailInvalido | BibliotecaApp.java:123-127 | "ana@" and "@email.com" fail the e-mail check |
| Validacion.LongitudLocalDecidePatron | BibliotecaApp.java:123-127 | `^[A-Za-z0-9+_.-]+@(.+)$` matches exactly when the longest run of local-part characters is non-empty and is followed by `@` and a non-empty rest free of line terminators |
| Validacion.EmailValido | BibliotecaApp.java:123-127 | the one-pass e-mail check accepts exactly the strings the pattern `^[A-Za-z0-9+_.-]+@(.+)$` matches: a split at an `@` with a non-empty local part from the class and a non-empty rest free of line terminators |
| Libros.LibroV.Prestado | BibliotecaApp.java:66-72 | one more copy out and one more loan counted, the total unchanged; keeps the entry invariant when a copy was available |
| Libros.Libro.Prestar | BibliotecaApp.java:66-72 | fails with LibroNoDisponible and changes nothing when no copy is on the shelf; otherwise the view becomes `Prestado()`; validity kept |
| Libros.LibroV.Devuelto | BibliotecaApp.java:74-79 | one copy fewer out, counter and total unchanged; keeps the entry invariant when a copy was out |
| Libros.Libro.Devolver | BibliotecaApp.java:74-79 | fails with DevolucionExcedida and changes nothing when every copy is on the shelf; otherwise the view becomes `Devuelto()`; validity kept |
| Libros.Libro.EstaDisponible | BibliotecaApp.java:81-83 | a valid entry with a copy on the shelf has between one and its total copies available; for a non-negative total, no copy is available exactly when availability is zero |
| Libros.PrestarYDevolver | BibliotecaApp.java:66-79 | lending then taking back a copy restores availability and adds one to the loan counter |
| Usuarios.UsuarioNuevo | BibliotecaApp.java:113-121 | a new borrower holds nothing, owes nothing, and may borrow |
| Usuarios.ContadorId.constructor | BibliotecaApp.java:103 | the identifier sequence starts at 1 |
| Usuarios.ContadorId.Tomar | BibliotecaApp.java:116 | returns the current identifier and advances by one |
| Usuarios.Usuario.constructor | BibliotecaApp.java:113-121 | the identifier is the sequence's current value and the sequence advances by one; name and e-mail set from the arguments; view is `UsuarioNuevo()`; the object is valid |
| Usuarios.Usuario.Crear | BibliotecaApp.java:113-121 | an invalid e-mail fails with EmailInvalido and draws no identifier; a valid one gives a fresh valid borrower with the next identifier, and the counter advances by one |
| Usuarios.UsuarioV.ConLibro | BibliotecaApp.java:133-138 | the ISBN is appended (contents and position) and fines are untouched; the three-book bound holds afterwards when the borrower was eligible |
| Usuarios.Usuario.AgregarLibroPrestado | BibliotecaApp.java:129-138 | fails with UsuarioSinCupo and changes nothing unless fewer than three books are held and fines are below 5000; otherwise the view becomes `ConLibro(isbn)` |
| Usuarios.TopeDeLibros | BibliotecaApp.java:129-131 | a borrower at the three-book bound is never eligible, whatever their fines |
| Usuarios.Usuario.PuedePedirPrestado | BibliotecaApp.java:129-131 | a borrower is eligible exactly when fewer than three books are held and the balance is below 5000; a valid borrower at the bound is never eligible |
| Listas.QuitarPrimeroEnIndice | BibliotecaApp.java:140-142 | `List.remove(Object)` cuts out exactly the first index holding the element |
| Listas.QuitarPrimeroMultiset | BibliotecaApp.java:140-142 | removal takes exactly one occurrence out of the multiset of elements when the element occurs, and nothing otherwise |
| Listas.QuitarPrimero | BibliotecaApp.java:141 | `List.remove(Object)` leaves the list as it was when the element is absent, shortens it by exactly one when present, and never adds an element |
| Usuarios.UsuarioV.SinLibro | BibliotecaApp.java:140-142 | one occurrence of the ISBN leaves the held multiset; fines untouched; the three-book bound kept |
| Usuarios.Usuario.RemoverLibroPrestado | BibliotecaApp.java:140-142 | the view becomes `SinLibro(isbn)`; validity kept |
| Usuarios.UsuarioV.ConMulta | BibliotecaApp.java:144-146 | the balance grows by exactly the amount; the held list is untouched |
| Usuarios.Usuario.AgregarMulta | BibliotecaApp.java:144-146 | the view becomes `ConMulta(multa)`; validity kept |
| Usuarios.UsuarioV.Pagado | BibliotecaApp.java:148-150 | the balance becomes zero; the held list is untouched |
| Usuarios.Usuario.PagarMultas | BibliotecaApp.java:148-150 | the view becomes `Pagado()`; validity kept |
| Prestamos.PrestamoNuevo | BibliotecaApp.java:180-188 | a new loan is ACTIVO, starts today, is due fourteen days later, has no return date and fine 0 |
| Prestamos.Prestamo.constructor | BibliotecaApp.java:180-188 | the view is `PrestamoNuevo(isbn, id, hoy)`; the loan is valid |
| Prestamos.DiasDeRetraso | BibliotecaApp.java:197-198 | positive exactly when the return is after the due day, and then due day plus days late is the return day |
| Prestamos.MultaPorRetraso | BibliotecaApp.java:196-201 | the fine is not negative, is zero exactly when the return is on or before the due day, and is a multiple of 500 |
| Prestamos.MultaCreceConElRetraso | BibliotecaApp.java:196-201 | each further day late adds exactly 500 |
| Prestamos.EjemplosDeMulta | BibliotecaApp.java:196-201 | a return on the due day costs 0; one day later costs 500; on day start+15 costs 500 |
| Prestamos.PrestamoV.Cerrado | BibliotecaApp.java:190-201 | status DEVUELTO, return day recorded, identity and dates kept; for a loan not yet returned the fine is the policy's fine for its dates; the loan invariant is kept |
| Prestamos.Prestamo.Devolver | BibliotecaApp.java:190-194 | the view becomes `Cerrado(hoy)`; validity kept |
| Prestamos.Prestamo.CalcularMulta | BibliotecaApp.java:196-201 | the fine becomes 500 × days late when the return day is after the due day, and keeps its value otherwise |
| Prestamos.PrestamoV.Marcado | BibliotecaApp.java:203-207 | only the status may change, and it changes exactly when it was ACTIVO and today is past the due day, to VENCIDO; the loan invariant is kept |
| Prestamos.Prestamo.MarcarComoVencido | BibliotecaApp.java:203-207 | the view becomes `Marcado(hoy)`; validity kept |
| Prestamos.MarcadoIdempotente | BibliotecaApp.java:203-207 | marking twice on one day equals marking once; a DEVUELTO loan is never touched |
| Prestamos.PrestamosDe | BibliotecaApp.java:312-316 | the filter keeps exactly the ledger's loans of that borrower |
| Prestamos.PrestamosDeConcatena | BibliotecaApp.java:312-316 | the filter distributes over concatenation, so it keeps ledger order |
| Prestamos.PrestamosDeDistintos | BibliotecaApp.java:312-316 | a ledger recording no loan twice filters to a list recording no loan twice |
| Bibliotecas.Biblioteca.constructor | BibliotecaApp.java:231-235 | empty catalog, registry and ledger over the given identifier sequence; the library is valid and registers no identifier not yet handed out |
| Modelo.ConsistenteInicial | BibliotecaApp.java:231-235 | the empty library is consistent |
| Modelo.ConLibro | BibliotecaApp.java:237-239 | the put files the entry under its ISBN and leaves every other entry, the registry and the ledger as they were |
| Bibliotecas.Biblioteca.AgregarLibro | BibliotecaApp.java:237-239 | the catalog becomes the old catalog with the entry put under its ISBN; the registry and the ledger are the same as before; the view becomes `ConLibro(old view, isbn, entry)`; validity kept |
| Modelo.ConsistenteTrasAltaDeLibro | BibliotecaApp.java:237-239 | adding a new ISBN with every copy on the shelf keeps the library consistent |
| Modelo.SobrescribirRompeConsistencia | BibliotecaApp.java:237-239 | re-adding an ISBN that has copies out breaks consistency |
| Modelo.ConUsuario | BibliotecaApp.java:241-243 | the put files the borrower under their identifier and leaves everything else as it was |
| Bibliotecas.Biblioteca.RegistrarUsuario | BibliotecaApp.java:241-243 | the registry becomes the old registry with the borrower put under their identifier; the catalog and the ledger are the same as before; the view becomes `ConUsuario(old view, id, borrower)`; validity kept; a borrower whose identifier was already handed out keeps the registry holding only handed-out identifiers |
| Bibliotecas.Biblioteca.UsuarioCreadoEsNuevo | BibliotecaApp.java:103-116 | a borrower just drawn from the library's sequence has an identifier no registered borrower has and below the sequence's next value, and registering that new borrower keeps a consistent library consistent |
| Modelo.ConsistenteTrasAltaDeUsuario | BibliotecaApp.java:241-243 | registering a new borrower under a new identifier keeps the library consistent |
| Bibliotecas.Biblioteca.BuscarLibroPorIsbn | BibliotecaApp.java:292-294 | present exactly when the ISBN is catalogued, and then the entry filed under that ISBN |
| Bibliotecas.Biblioteca.BuscarUsuarioPorId | BibliotecaApp.java:302-304 | present exactly when the identifier is registered, and then the borrower filed under that identifier |
| Modelo.ErrorDePrestamo | BibliotecaApp.java:245-258 | a checkout passes exactly when the book and borrower exist, a copy is available and the borrower is eligible; each error is reported exactly when every earlier check in the source's order passed and its own failed: missing book, then missing borrower, then no copy available, then an ineligible borrower |
| Modelo.TrasPrestamo | BibliotecaApp.java:245-264 | a checkout adds and removes no entry or borrower, grows the ledger by at most one loan at its end keeping the earlier ones, and keeps every loan naming a known book and borrower |
| Modelo.PrestamoExitoso | BibliotecaApp.java:245-267 | a failed checkout changes nothing; a successful one changes exactly that book (one copy fewer, one loan more), exactly that borrower (ISBN appended) and appends exactly one ACTIVO loan for the pair due fourteen days from today |
| Modelo.PrestamoRechazadoPorDisponibilidad | BibliotecaApp.java:252-254 | a book with no copy on the shelf is refused to an existing borrower with LibroNoDisponible whatever the borrower's state, and the checkout changes nothing |
| Modelo.PrestamoRechazadoPorCupo | BibliotecaApp.java:256-258 | a borrower holding three books or owing 5000 or more is refused with UsuarioSinCupo |
| Bibliotecas.Biblioteca.RealizarPrestamo | BibliotecaApp.java:245-267 | the outcome is the model's first failing check in the source's order (book, borrower, availability, eligibility) or Ok; a failed checkout leaves every entry and borrower object untouched and the ledger as it was; a successful one appends exactly one fresh loan after the earlier ones; the new view is `TrasPrestamo(old view)`; validity kept |
| Bibliotecas.Biblioteca.PrestamoRegistrado | BibliotecaApp.java:260-264 | the per-object effects of a checkout add up to the model's checkout on the whole library |
| Modelo.ConsistenteTrasPrestamo | BibliotecaApp.java:245-267 | a checkout keeps the library consistent |
| Modelo.LibrosTrasPrestamo | BibliotecaApp.java:260-264 | after a checkout each book's copies out still equal its loans not returned |
| Modelo.UsuariosTrasPrestamo | BibliotecaApp.java:260-264 | after a checkout each borrower still holds exactly the ISBNs of their loans not returned |
| Modelo.LedgerTrasPrestamo | BibliotecaApp.java:260-264 | after a checkout every loan still names a catalogued book and a registered borrower, and every loan keeps its invariant and its fine |
| Modelo.Coincide | BibliotecaApp.java:271-273 | a matching loan is for that ISBN and that borrower, and when well formed has no return date and no fine yet |
| Modelo.PrimerActivo | BibliotecaApp.java:270-274 | `findFirst` finds the first ACTIVO loan of the pair in ledger order, or reports that none matches |
| Modelo.PrimerActivoEs | BibliotecaApp.java:270-274 | a matching index with no match before it is the one found |
| Bibliotecas.Biblioteca.BuscarActivo | BibliotecaApp.java:270-275 | the index of the first ACTIVO loan of the pair, or the ledger length when none matches |
| Bibliotecas.Biblioteca.SinPrestamoActivo | BibliotecaApp.java:275 | with no ACTIVO loan of the pair, the return fails as PrestamoNoEncontrado and the state is unchanged |
| Modelo.ErrorDeDevolucion | BibliotecaApp.java:269-280 | a return reports the loan missing exactly when no loan of the ledger is ACTIVO for the pair, and passes exactly when one is and the book has a copy out; only those two errors occur |
| Modelo.TrasDevolucion | BibliotecaApp.java:269-287 | a return adds and removes no entry, borrower or loan, every loan keeps its book and its borrower, and every loan still names a known book and borrower |
| Bibliotecas.Biblioteca.DevolverLibro | BibliotecaApp.java:269-290 | the outcome is the model's return check (no ACTIVO loan → PrestamoNoEncontrado; every copy on the shelf → DevolucionExcedida) or Ok; a failed return leaves every entry and borrower object untouched; the new view is `TrasDevolucion(old view)`; validity kept |
| Bibliotecas.Biblioteca.PrimerActivoEn | BibliotecaApp.java:270-280 | a matching loan with no match before it is the one the return finds, its book and borrower are filed, and the return then fails exactly when the book has every copy on the shelf |
| Bibliotecas.Biblioteca.DevolverCopia | BibliotecaApp.java:277-280 | the book of the loan found takes a copy back: the outcome is the model's return check; on failure no entry changes and the view is unchanged; on success the view changes at that entry alone, to `Devuelto()`; no borrower or loan changes |
| Bibliotecas.Biblioteca.CerrarPrestamo | BibliotecaApp.java:281-287 | once the book took its copy back, the borrower's and the loan's updates complete the model's return from the state before it; validity kept |
| Bibliotecas.Biblioteca.DevolucionRegistrada | BibliotecaApp.java:280-287 | the per-object effects of a return add up to the model's return on the whole library |
| Bibliotecas.Biblioteca.RegistrarCierre | BibliotecaApp.java:281-287 | the loan is closed today and no other loan changes; the borrower loses one occurrence of the ISBN and gains the loan's fine exactly when it is positive; no entry and no other borrower changes; validity kept |
| Bibliotecas.Biblioteca.CerrarEnLedger | BibliotecaApp.java:282 | the loan at the index is closed today, stays valid, and no other loan of the ledger changes |
| Modelo.DevolucionEn | BibliotecaApp.java:269-290 | a return whose first ACTIVO loan is at a given index, for a book with a copy out, passes both checks and yields the book, borrower and ledger updates at that index |
| Modelo.DevolucionExitosa | BibliotecaApp.java:269-290 | a failed return changes nothing; a successful one gives one copy back, removes one occurrence of the ISBN from the borrower's list, adds the loan's positive fine to the balance, closes the first matching loan today with the policy's fine, and changes nothing else |
| Modelo.DevolucionNuncaExcede | BibliotecaApp.java:280 | in a consistent library a return never fails with DevolucionExcedida, and the borrower holds the ISBN of the loan found |
| Modelo.ConsistenteTrasDevolucion | BibliotecaApp.java:269-290 | a return keeps the library consistent |
| Modelo.LibrosTrasDevolucion | BibliotecaApp.java:280-282 | after a return each book's copies out still equal its loans not returned |
| Modelo.UsuariosTrasDevolucion | BibliotecaApp.java:281-285 | after a return each borrower still holds exactly the ISBNs of their loans not returned, with a balance that is not negative |
| Modelo.UsuarioTrasCierre | BibliotecaApp.java:281-285 | across a return, the returning borrower (one ISBN occurrence fewer, the positive fine added) and every other borrower (unchanged) keep the three-book bound, a balance that is not negative and a held list equal to their loans not returned |
| Modelo.LedgerTrasDevolucion | BibliotecaApp.java:277-282 | after a return every loan still names a catalogued book and a registered borrower, and every loan keeps its invariant and its fine |
| Modelo.CuentaTrasCierre | BibliotecaApp.java:282 | closing a loan not returned takes exactly its ISBN out of the count of loans not returned |
| Modelo.NuevoEsPrimerActivo | BibliotecaApp.java:245-290 | after a successful checkout for a pair with no ACTIVO loan, the new loan is the one a return finds, and that return passes its checks |
| Modelo.PrestamoYDevolucionMismoDia | BibliotecaApp.java:245-290 | for a pair with no ACTIVO loan, checkout then same-day return restores availability, the held multiset and the balance; closes the new loan with fine 0; adds one to the book's loan counter |
| Modelo.PrestamoYDevolucionRestituye | BibliotecaApp.java:245-290 | for every pair, checkout then same-day return passes and restores the book's availability and the borrower's held multiset, adds one to the book's loan counter, and leaves every other borrower as before |
| Modelo.PrestamoYDevolucionCierra | BibliotecaApp.java:268-288 | that return closes the pair's older ACTIVO loan when there was one, leaving the new loan ACTIVO, and the new loan otherwise; the closed loan's positive fine is added to the balance |
| Modelo.PrimerActivoTrasPrestamo | BibliotecaApp.java:258-274 | after a checkout the pair's first ACTIVO loan is the one from before, or the new loan when there was none, and the book has a copy out |
| Modelo.DevolucionTrasPrestamo | BibliotecaApp.java:245-290 | the state after checkout and same-day return as one value, with the closed loan chosen by findFirst |
| Modelo.DosPasos | BibliotecaApp.java:245-290 | for a pair with no ACTIVO loan, checkout then same-day return of the new loan gives the book one loan more and the same shelf, the borrower the ISBN appended then removed, and the ledger the new loan closed |
| Modelo.VencidoNoSeDevuelve | BibliotecaApp.java:270-275 | once the sweep has marked the pair's loans VENCIDO, a return fails as PrestamoNoEncontrado while the borrower still holds the book |
| Modelo.MarcarTodos | BibliotecaApp.java:331-333 | the sweep keeps the ledger's length and changes each loan's status alone: an ACTIVO loan past its due day becomes VENCIDO, every other loan keeps its status |
| Modelo.TrasBarrido | BibliotecaApp.java:331-333 | the sweep leaves the catalog and registry as they were, keeps the ledger's length and keeps every loan naming a known book and borrower |
| Modelo.BarridoCierraVencidos | BibliotecaApp.java:331-333 | after a sweep, a pair whose matching loans were all past due has no ACTIVO loan left |
| Bibliotecas.Biblioteca.ActualizarEstadosPrestamos | BibliotecaApp.java:331-333 | every loan is marked against today, in place; the new view is `TrasBarrido(old view)`; catalog and registry untouched; validity kept |
| Bibliotecas.Biblioteca.BarridoRegistrado | BibliotecaApp.java:331-333 | the per-loan markings add up to the model's sweep on the whole library |
| Modelo.BarridoIdempotente | BibliotecaApp.java:331-333 | a second sweep on the same day changes nothing |
| Modelo.BarridoConservaAportes | BibliotecaApp.java:331-333 | the sweep keeps every loan's book, borrower, invariant, fine and the counts of loans not returned |
| Modelo.ConsistenteTrasBarrido | BibliotecaApp.java:331-333 | the sweep keeps the library consistent |
| Modelo.LedgerTrasBarrido | BibliotecaApp.java:331-333 | the sweep keeps every loan's references, invariant and fine |
| Modelo.CuentasTrasBarrido | BibliotecaApp.java:331-333 | the sweep keeps each book's copies out and each borrower's held list equal to the loans not returned |
| Listas.Contiene | BibliotecaApp.java:298 | the empty text is contained everywhere, a prefix is contained, and nothing longer than the string is contained in it |
| Listas.ContieneSii | BibliotecaApp.java:298 | `String.contains` holds exactly when the text occurs at some position |
| Bibliotecas.Biblioteca.BuscarLibrosPorTitulo | BibliotecaApp.java:296-300 | an entry is in the result exactly when its case-folded title contains the case-folded search text at some position |
| Modelo.Disponibles | BibliotecaApp.java:306-310 | a catalogued ISBN is listed exactly when at least one copy is on the shelf, and only catalogued ISBNs are listed |
| Bibliotecas.Biblioteca.ObtenerLibrosDisponibles | BibliotecaApp.java:306-310 | an entry is in the result exactly when the model lists its ISBN as available |
| Modelo.ConMultas | BibliotecaApp.java:318-322 | a registered borrower is listed exactly when their balance is positive, and only registered borrowers are listed |
| Bibliotecas.Biblioteca.ObtenerUsuariosConMultas | BibliotecaApp.java:318-322 | a borrower is in the result exactly when the model lists them as owing fines |
| Modelo.ConsultasTrasPrestamo | BibliotecaApp.java:306-310 | a checkout removes its book from the available list exactly when it lent the last copy on the shelf, and never changes who owes fines |
| Modelo.ConsultasTrasDevolucion | BibliotecaApp.java:269-290 | in a consistent library a successful return puts its book on the available list, and adds the borrower to those owing fines exactly when the loan was late; a failed return changes neither list |
| Modelo.DisponiblesTrasDevolucion | BibliotecaApp.java:278 | after a successful return of a book that keeps its invariant, the book is available |
| Modelo.ConMultasTrasDevolucion | BibliotecaApp.java:284-287 | after a successful return the borrower owes fines exactly if they did before or the loan was late |
| Bibliotecas.Biblioteca.ObtenerPrestamosDeUsuario | BibliotecaApp.java:312-316 | exactly the ledger's loans of that borrower, none twice, and equal to the order-preserving filter `PrestamosDe` of the ledger, which distributes over concatenation |
| Bibliotecas.Biblioteca.ObtenerTopLibrosPrestados | BibliotecaApp.java:324-329 | a negative limit fails with LimiteNegativo; otherwise `min(limit, books)` distinct catalogued entries, sorted by loan counter highest first, none below an entry left out |
| Bibliotecas.Biblioteca.MasPrestado | BibliotecaApp.java:325-326 | an ISBN among those left whose entry has the highest loan counter |

## Left out

- Console I/O: the `BibliotecaApp` menu class, and the printing and `toString`
  methods of the engine classes. They carry no lending logic.
- `synchronized` and `AtomicInteger`. The model is sequential.
- The loan's `UUID` identifier. Loans are told apart by object identity.
- `LocalDate.now()`. Today is the integer day parameter `hoy`, and the
  current year is the parameter `anioActual`. Day differences are integer
  subtraction.
- `BigDecimal`. Money is an unbounded integer. Every amount the engine
  produces is a whole multiple of 500.
- 32-bit `int` overflow of identifiers and counters. Integers are unbounded.
- `null` arguments. The validators' `null` branches cannot arise with Dafny
  strings.
- The regex engine. The two patterns are written out as predicates over
  characters.
- `toLowerCase`. It depends on the default locale, so the case mapping is the
  parameter `minusculas` of `BuscarLibrosPorTitulo`.
- List order of the queries over the catalog and the registry. They iterate a
  `HashMap`, whose order is unspecified, so these queries return sets.
  `ObtenerTopLibrosPrestados` leaves the order among equal counters open.
- Bibliotecas.Biblioteca.RegistrarUsuario: keeps `IdentificadoresTomados`
  only for a borrower whose identifier the library's sequence already
  handed out. In the source every borrower draws from the one static
  sequence, so this always holds. In the model a borrower built over
  another `ContadorId` object could reuse a registered identifier and
  replace that borrower.
- Aliasing from outside the library. Every entry and borrower handed to the
  library must satisfy its own invariant. The model does not cover a caller
  that keeps a reference to a filed `Libro` or `Usuario` and mutates it
  behind the library's back.
