/** The library's state as a value: the catalog, the registry of borrowers
    and the loan ledger, each entity seen through its value view. The
    transitions of the lending service (checkout, return, overdue sweep,
    adding a book, registering a borrower) are functions on this state; the
    `Biblioteca` class is proved to follow them, and the lemmas here state
    what the transitions keep and what they change. */
module Modelo {
  import opened Comun
  import opened Listas
  import opened Libros
  import opened Usuarios
  import opened Prestamos

  datatype Estado = Estado(libros: map<string, LibroV>,
                           usuarios: map<int, UsuarioV>,
                           prestamos: seq<PrestamoV>)

  /** Every loan in the ledger names a book in the catalog and a registered
      borrower. */
  ghost predicate Referencias(e: Estado)
  {
    forall i :: 0 <= i < |e.prestamos| ==>
      e.prestamos[i].isbn in e.libros && e.prestamos[i].usuario in e.usuarios
  }

  // ---------------------------------------------------------------------
  // Catalog and registry updates

  /** `agregarLibro`: a put into the catalog; an entry with the same ISBN is
      replaced, counters and all. */
  function ConLibro(e: Estado, isbn: string, l: LibroV): (e': Estado)
    ensures e'.libros.Keys == e.libros.Keys + {isbn} && e'.libros[isbn] == l
    ensures forall k :: k in e.libros && k != isbn ==> e'.libros[k] == e.libros[k]
    ensures e'.usuarios == e.usuarios && e'.prestamos == e.prestamos
    ensures Referencias(e) ==> Referencias(e')
  {
    e.(libros := e.libros[isbn := l])
  }

  /** `registrarUsuario`: a put into the registry keyed by the borrower's
      identifier. */
  function ConUsuario(e: Estado, id: int, u: UsuarioV): (e': Estado)
    ensures e'.usuarios.Keys == e.usuarios.Keys + {id} && e'.usuarios[id] == u
    ensures forall k :: k in e.usuarios && k != id ==> e'.usuarios[k] == e.usuarios[k]
    ensures e'.libros == e.libros && e'.prestamos == e.prestamos
    ensures Referencias(e) ==> Referencias(e')
  {
    e.(usuarios := e.usuarios[id := u])
  }

  // ---------------------------------------------------------------------
  // Checkout (`realizarPrestamo`)

  /** The checks of a checkout, in the order the library makes them: the
      book must exist, then the borrower, then a copy must be available,
      then the borrower must be allowed to borrow. A checkout passes
      exactly when all four hold; a missing book is reported whatever else
      is wrong, and a missing borrower whenever the book exists. */
  function ErrorDePrestamo(e: Estado, isbn: string, id: int): (r: Option<Error>)
    ensures r.None? <==>
      isbn in e.libros && id in e.usuarios
      && e.libros[isbn].EstaDisponible() && e.usuarios[id].PuedePedirPrestado()
    ensures r == Some(LibroNoEncontrado) <==> isbn !in e.libros
    ensures r == Some(UsuarioNoEncontrado) <==> isbn in e.libros && id !in e.usuarios
    ensures r == Some(LibroNoDisponible) <==>
      isbn in e.libros && id in e.usuarios && !e.libros[isbn].EstaDisponible()
    ensures r == Some(UsuarioSinCupo) <==>
      isbn in e.libros && id in e.usuarios
      && e.libros[isbn].EstaDisponible() && !e.usuarios[id].PuedePedirPrestado()
    ensures r.Some? ==> r.value in {LibroNoEncontrado, UsuarioNoEncontrado, LibroNoDisponible, UsuarioSinCupo}
  {
    if isbn !in e.libros then Some(LibroNoEncontrado)
    else if id !in e.usuarios then Some(UsuarioNoEncontrado)
    else if !e.libros[isbn].EstaDisponible() then Some(LibroNoDisponible)
    else if !e.usuarios[id].PuedePedirPrestado() then Some(UsuarioSinCupo)
    else None
  }

  /** The state after a checkout: unchanged when a check fails; otherwise
      the book lends a copy, the borrower's list gains the ISBN and a new
      ACTIVO loan is appended to the ledger. No entry and no borrower
      appears or disappears, the ledger only grows at its end, and a ledger
      whose loans all name known books and borrowers keeps that property. */
  function TrasPrestamo(e: Estado, isbn: string, id: int, hoy: int): (e': Estado)
    ensures e'.libros.Keys == e.libros.Keys && e'.usuarios.Keys == e.usuarios.Keys
    ensures |e.prestamos| <= |e'.prestamos| <= |e.prestamos| + 1
    ensures e'.prestamos[..|e.prestamos|] == e.prestamos
    ensures Referencias(e) ==> Referencias(e')
  {
    if ErrorDePrestamo(e, isbn, id).Some? then e
    else Estado(e.libros[isbn := e.libros[isbn].Prestado()],
                e.usuarios[id := e.usuarios[id].ConLibro(isbn)],
                e.prestamos + [PrestamoNuevo(isbn, id, hoy)])
  }

  /** What a checkout does, spelled out: a failed one changes nothing; a
      successful one changes exactly that book (one copy fewer, one loan
      more), exactly that borrower (the ISBN appended) and appends exactly
      one ACTIVO loan for the pair, due fourteen days from today. */
  lemma PrestamoExitoso(e: Estado, isbn: string, id: int, hoy: int)
    ensures ErrorDePrestamo(e, isbn, id).Some? ==> TrasPrestamo(e, isbn, id, hoy) == e
    ensures ErrorDePrestamo(e, isbn, id).None? ==>
      var e' := TrasPrestamo(e, isbn, id, hoy);
      && e'.libros.Keys == e.libros.Keys && e'.usuarios.Keys == e.usuarios.Keys
      && e'.libros[isbn].disponibles == e.libros[isbn].disponibles - 1
      && e'.libros[isbn].contador == e.libros[isbn].contador + 1
      && e'.libros[isbn].totales == e.libros[isbn].totales
      && (forall k :: k in e.libros && k != isbn ==> e'.libros[k] == e.libros[k])
      && e'.usuarios[id].prestados == e.usuarios[id].prestados + [isbn]
      && e'.usuarios[id].multas == e.usuarios[id].multas
      && (forall k :: k in e.usuarios && k != id ==> e'.usuarios[k] == e.usuarios[k])
      && |e'.prestamos| == |e.prestamos| + 1
      && e'.prestamos[..|e.prestamos|] == e.prestamos
      && var p := e'.prestamos[|e.prestamos|];
         p.isbn == isbn && p.usuario == id && p.estado == Activo && p.multa == 0
         && p.devolucionReal == None && p.inicio == hoy && p.vence == hoy + DiasPrestamo
  {
  }

  /** A book with no copy on the shelf is refused to an existing borrower
      whatever the borrower's state, and the checkout changes nothing. */
  lemma PrestamoRechazadoPorDisponibilidad(e: Estado, isbn: string, id: int, hoy: int)
    requires isbn in e.libros && id in e.usuarios && e.libros[isbn].disponibles <= 0
    ensures ErrorDePrestamo(e, isbn, id) == Some(LibroNoDisponible)
    ensures TrasPrestamo(e, isbn, id, hoy) == e
  {
  }

  /** A borrower holding three books is refused whatever else holds, and
      so is one whose fines reached 5000. */
  lemma PrestamoRechazadoPorCupo(e: Estado, isbn: string, id: int)
    requires isbn in e.libros && e.libros[isbn].EstaDisponible() && id in e.usuarios
    requires |e.usuarios[id].prestados| >= MaxLibros || e.usuarios[id].multas >= MultaMaxima
    ensures ErrorDePrestamo(e, isbn, id) == Some(UsuarioSinCupo)
  {
  }

  // ---------------------------------------------------------------------
  // Return (`devolverLibro`)

  /** The filter of `devolverLibro`: same ISBN, same borrower, status
      ACTIVO. A well-formed matching loan has not been returned and owes
      nothing yet. */
  predicate Coincide(p: PrestamoV, isbn: string, id: int): (r: bool)
    ensures r ==> p.isbn == isbn && p.usuario == id
    ensures r && p.Inv() ==> p.devolucionReal.None? && p.multa == 0
  {
    p.isbn == isbn && p.usuario == id && p.estado == Activo
  }

  /** `findFirst`: the index of the first loan in ledger order that
      matches, if any. */
  function PrimerActivo(ps: seq<PrestamoV>, isbn: string, id: int): (r: Option<nat>)
    ensures r.Some? ==> r.value < |ps| && Coincide(ps[r.value], isbn, id)
    ensures r.Some? ==> forall j :: 0 <= j < r.value ==> !Coincide(ps[j], isbn, id)
    ensures r.None? ==> forall j :: 0 <= j < |ps| ==> !Coincide(ps[j], isbn, id)
  {
    if ps == [] then None
    else if Coincide(ps[0], isbn, id) then Some(0)
    else match PrimerActivo(ps[1..], isbn, id)
         case None => None
         case Some(i) => Some(i + 1)
  }

  /** An index that matches, with no match before it, is the one the
      search finds. */
  lemma PrimerActivoEs(ps: seq<PrestamoV>, isbn: string, id: int, i: nat)
    requires i < |ps| && Coincide(ps[i], isbn, id)
    requires forall j :: 0 <= j < i ==> !Coincide(ps[j], isbn, id)
    ensures PrimerActivo(ps, isbn, id) == Some(i)
  {
    var r := PrimerActivo(ps, isbn, id);
    assert r.Some?;
    assert r.value >= i;
  }

  /** The checks of a return: an ACTIVO loan for the pair must exist (a
      loan already swept to VENCIDO does not count), and the book must have
      a copy out. The loan is reported missing exactly when no loan of the
      ledger matches, and the return passes exactly when one matches and
      the book has a copy out. */
  function ErrorDeDevolucion(e: Estado, isbn: string, id: int): (r: Option<Error>)
    requires Referencias(e)
    ensures r == Some(PrestamoNoEncontrado) <==>
      forall j :: 0 <= j < |e.prestamos| ==> !Coincide(e.prestamos[j], isbn, id)
    ensures r.None? <==>
      (exists j :: 0 <= j < |e.prestamos| && Coincide(e.prestamos[j], isbn, id))
      && isbn in e.libros && e.libros[isbn].PuedeDevolver()
    ensures r.Some? ==> r.value in {PrestamoNoEncontrado, DevolucionExcedida}
  {
    match PrimerActivo(e.prestamos, isbn, id)
    case None => Some(PrestamoNoEncontrado)
    case Some(i) =>
      if !e.libros[isbn].PuedeDevolver() then Some(DevolucionExcedida) else None
  }

  /** The state after a return: unchanged when a check fails; otherwise the
      book gets a copy back, one occurrence of the ISBN leaves the
      borrower's list, the first matching loan is closed today, and its
      fine, when positive, is added to the borrower's balance. No entry,
      borrower or loan appears or disappears, and every loan keeps its book
      and its borrower. */
  function TrasDevolucion(e: Estado, isbn: string, id: int, hoy: int): (e': Estado)
    requires Referencias(e)
    ensures e'.libros.Keys == e.libros.Keys && e'.usuarios.Keys == e.usuarios.Keys
    ensures |e'.prestamos| == |e.prestamos|
    ensures forall j :: 0 <= j < |e.prestamos| ==>
      e'.prestamos[j].isbn == e.prestamos[j].isbn && e'.prestamos[j].usuario == e.prestamos[j].usuario
    ensures Referencias(e')
  {
    if ErrorDeDevolucion(e, isbn, id).Some? then e
    else
      var i := PrimerActivo(e.prestamos, isbn, id).value;
      var cerrado := e.prestamos[i].Cerrado(hoy);
      var u := e.usuarios[id].SinLibro(isbn);
      var u' := if cerrado.multa > 0 then u.ConMulta(cerrado.multa) else u;
      Estado(e.libros[isbn := e.libros[isbn].Devuelto()],
             e.usuarios[id := u'],
             e.prestamos[i := cerrado])
  }

  // ---------------------------------------------------------------------
  // Overdue sweep (`actualizarEstadosPrestamos`)

  /** `forEach(Prestamo::marcarComoVencido)`: loan by loan, an ACTIVO loan
      past its due day becomes VENCIDO and every other loan stays as it
      was; no loan changes anything but its status. */
  function MarcarTodos(ps: seq<PrestamoV>, hoy: int): (r: seq<PrestamoV>)
    ensures |r| == |ps|
    ensures forall i :: 0 <= i < |ps| ==> r[i] == ps[i].(estado := r[i].estado)
    ensures forall i :: 0 <= i < |ps| ==>
      r[i].estado == if ps[i].estado == Activo && hoy > ps[i].vence then Vencido else ps[i].estado
  {
    seq(|ps|, i requires 0 <= i < |ps| => ps[i].Marcado(hoy))
  }

  /** Every loan of the ledger is marked; catalog and registry are not
      touched, and the ledger keeps its length. */
  function TrasBarrido(e: Estado, hoy: int): (e': Estado)
    ensures e'.libros == e.libros && e'.usuarios == e.usuarios
    ensures |e'.prestamos| == |e.prestamos|
    ensures Referencias(e) ==> Referencias(e')
  {
    e.(prestamos := MarcarTodos(e.prestamos, hoy))
  }

  /** The sweep is idempotent: a second sweep on the same day changes
      nothing. */
  lemma BarridoIdempotente(e: Estado, hoy: int)
    ensures TrasBarrido(TrasBarrido(e, hoy), hoy) == TrasBarrido(e, hoy)
  {
    var ps := e.prestamos;
    forall i | 0 <= i < |ps|
      ensures ps[i].Marcado(hoy).Marcado(hoy) == ps[i].Marcado(hoy)
    {
      MarcadoIdempotente(ps[i], hoy);
    }
    assert MarcarTodos(MarcarTodos(ps, hoy), hoy) == MarcarTodos(ps, hoy);
  }

  // ---------------------------------------------------------------------
  // Loans not yet returned, counted per book and per borrower

  /** The ISBN a loan contributes to the count of loans not returned:
      every such loan when `quien` is None, only those of borrower
      `quien.value` otherwise. */
  function Aporte(p: PrestamoV, quien: Option<int>): multiset<string>
  {
    multiset(Pendiente(p, quien))
  }

  /** `Aporte` as a list of at most one ISBN. */
  function Pendiente(p: PrestamoV, quien: Option<int>): seq<string>
  {
    if p.estado != Devuelto && (quien.None? || p.usuario == quien.value)
    then [p.isbn] else []
  }

  /** The ISBNs of the loans not yet returned, in ledger order. */
  function Pendientes(ps: seq<PrestamoV>, quien: Option<int>): seq<string>
  {
    if ps == [] then []
    else Pendiente(ps[0], quien) + Pendientes(ps[1..], quien)
  }

  /** The ISBNs of the loans not yet returned (ACTIVO or VENCIDO), of
      everyone or of one borrower. */
  function EnCurso(ps: seq<PrestamoV>, quien: Option<int>): multiset<string>
  {
    multiset(Pendientes(ps, quien))
  }

  lemma EnCursoAgrega(ps: seq<PrestamoV>, p: PrestamoV, quien: Option<int>)
    ensures EnCurso(ps + [p], quien) == EnCurso(ps, quien) + Aporte(p, quien)
  {
    PendientesConcatena(ps, [p], quien);
    assert Pendientes([p], quien) == Pendiente(p, quien) + [];
  }

  /** Replacing one loan changes the count by exactly the two loans'
      contributions. */
  lemma EnCursoActualiza(ps: seq<PrestamoV>, i: nat, p: PrestamoV, quien: Option<int>)
    requires i < |ps|
    ensures EnCurso(ps[i := p], quien) + Aporte(ps[i], quien) == EnCurso(ps, quien) + Aporte(p, quien)
  {
    var izq, der := ps[..i], ps[i + 1..];
    assert ps == (izq + [ps[i]]) + der;
    assert ps[i := p] == (izq + [p]) + der;
    PendientesConcatena(izq + [ps[i]], der, quien);
    PendientesConcatena(izq + [p], der, quien);
    EnCursoAgrega(izq, ps[i], quien);
    EnCursoAgrega(izq, p, quien);
    SumaReordenada(EnCurso(izq, quien) + Aporte(p, quien), Aporte(ps[i], quien),
                   EnCurso(izq, quien) + Aporte(ps[i], quien), Aporte(p, quien), EnCurso(der, quien));
  }

  /** The pending ISBNs of a ledger are those of its parts, in order. */
  lemma {:induction false} PendientesConcatena(ps: seq<PrestamoV>, qs: seq<PrestamoV>, quien: Option<int>)
    ensures Pendientes(ps + qs, quien) == Pendientes(ps, quien) + Pendientes(qs, quien)
  {
    if ps == [] {
      assert ps + qs == qs;
    } else {
      assert (ps + qs)[1..] == ps[1..] + qs;
      PendientesConcatena(ps[1..], qs, quien);
    }
  }

  /** Adding the same multiset to both sides of an equation of sums. */
  lemma SumaReordenada(x: multiset<string>, b: multiset<string>, a: multiset<string>,
                       c: multiset<string>, d: multiset<string>)
    requires x + b == a + c
    ensures (x + d) + b == (a + d) + c
  {
    forall k
      ensures ((x + d) + b)[k] == ((a + d) + c)[k]
    {
      assert (x + b)[k] == (a + c)[k];
    }
  }

  /** Ledgers whose loans contribute alike position by position count
      alike. */
  lemma {:induction false} EnCursoPuntual(ps: seq<PrestamoV>, qs: seq<PrestamoV>, quien: Option<int>)
    requires |ps| == |qs|
    requires forall i :: 0 <= i < |ps| ==> Aporte(ps[i], quien) == Aporte(qs[i], quien)
    ensures EnCurso(ps, quien) == EnCurso(qs, quien)
  {
    if ps != [] {
      EnCursoPuntual(ps[1..], qs[1..], quien);
      assert Pendiente(ps[0], quien) == Pendiente(qs[0], quien);
    }
  }

  /** An ISBN that no loan contributes is not counted. */
  lemma {:induction false} EnCursoAusente(ps: seq<PrestamoV>, quien: Option<int>, isbn: string)
    requires forall i :: 0 <= i < |ps| ==> isbn !in Aporte(ps[i], quien)
    ensures isbn !in EnCurso(ps, quien)
  {
    if ps != [] {
      EnCursoAusente(ps[1..], quien, isbn);
    }
  }

  /** Each loan's contribution is part of the count. */
  lemma {:induction false} EnCursoContiene(ps: seq<PrestamoV>, quien: Option<int>, i: nat)
    requires i < |ps|
    ensures Aporte(ps[i], quien) <= EnCurso(ps, quien)
  {
    if i > 0 {
      EnCursoContiene(ps[1..], quien, i - 1);
    }
  }

  /** A returned loan's fine is the one the policy gives for its dates. */
  predicate CierreCorrecto(p: PrestamoV)
  {
    p.estado == Devuelto ==>
      p.devolucionReal.Some? && p.multa == MultaPorRetraso(p.vence, p.devolucionReal.value)
  }

  /** The cross-entity invariant the lending service keeps: every loan
      references known entities; every entity keeps its own invariant;
      fine balances are not negative; each book's copies out equal its
      loans not returned; each borrower's held list holds exactly the ISBNs
      of that borrower's loans not returned; and every returned loan
      carries the fine its dates call for. */
  ghost predicate Consistente(e: Estado)
  {
    Referencias(e) && LibrosAlDia(e) && UsuariosAlDia(e) && PrestamosAlDia(e)
  }

  /** Each book keeps its invariant and has as many copies out as it has
      loans not returned. */
  ghost predicate LibrosAlDia(e: Estado)
  {
    forall k :: k in e.libros ==>
      e.libros[k].Inv()
      && e.libros[k].totales - e.libros[k].disponibles == EnCurso(e.prestamos, None)[k]
  }

  /** Each borrower keeps the three-book bound and a balance that is not
      negative, and holds exactly the ISBNs of their loans not returned. */
  ghost predicate UsuariosAlDia(e: Estado)
  {
    forall id :: id in e.usuarios ==>
      e.usuarios[id].Inv() && e.usuarios[id].multas >= 0
      && multiset(e.usuarios[id].prestados) == EnCurso(e.prestamos, Some(id))
  }

  /** Each loan keeps its invariant and, once returned, its fine. */
  ghost predicate PrestamosAlDia(e: Estado)
  {
    forall i :: 0 <= i < |e.prestamos| ==>
      e.prestamos[i].Inv() && CierreCorrecto(e.prestamos[i])
  }

  lemma ConsistenteInicial()
    ensures Consistente(Estado(map[], map[], []))
  {
  }

  /** Adding a book under a new ISBN with every copy on the shelf keeps the
      state consistent. */
  lemma ConsistenteTrasAltaDeLibro(e: Estado, isbn: string, l: LibroV)
    requires Consistente(e) && isbn !in e.libros
    requires l.Inv() && l.disponibles == l.totales
    ensures Consistente(ConLibro(e, isbn, l))
  {
    EnCursoAusente(e.prestamos, None, isbn);
  }

  /** Re-adding an ISBN while one of its copies is out breaks the
      invariant: the new entry has every copy on the shelf, yet the ledger
      still holds a loan of that book not returned. */
  lemma SobrescribirRompeConsistencia(e: Estado, isbn: string, l: LibroV)
    requires Consistente(e) && isbn in e.libros
    requires e.libros[isbn].disponibles < e.libros[isbn].totales
    requires l.disponibles == l.totales
    ensures !Consistente(ConLibro(e, isbn, l))
  {
  }

  /** Registering a borrower under a new identifier keeps the state
      consistent. */
  lemma ConsistenteTrasAltaDeUsuario(e: Estado, id: int)
    requires Consistente(e) && id !in e.usuarios
    ensures Consistente(ConUsuario(e, id, UsuarioNuevo()))
  {
    forall x: string
      ensures x !in EnCurso(e.prestamos, Some(id))
    {
      EnCursoAusente(e.prestamos, Some(id), x);
    }
    assert EnCurso(e.prestamos, Some(id)) == multiset{};
  }

  /** A checkout keeps the state consistent. */
  lemma ConsistenteTrasPrestamo(e: Estado, isbn: string, id: int, hoy: int)
    requires Consistente(e)
    ensures Consistente(TrasPrestamo(e, isbn, id, hoy))
  {
    if ErrorDePrestamo(e, isbn, id).None? {
      LedgerTrasPrestamo(e, isbn, id, hoy);
      LibrosTrasPrestamo(e, isbn, id, hoy);
      UsuariosTrasPrestamo(e, isbn, id, hoy);
    }
  }

  lemma LedgerTrasPrestamo(e: Estado, isbn: string, id: int, hoy: int)
    requires Referencias(e) && PrestamosAlDia(e) && ErrorDePrestamo(e, isbn, id).None?
    ensures Referencias(TrasPrestamo(e, isbn, id, hoy)) && PrestamosAlDia(TrasPrestamo(e, isbn, id, hoy))
  {
    var e' := TrasPrestamo(e, isbn, id, hoy);
    var p := PrestamoNuevo(isbn, id, hoy);
    assert e'.prestamos == e.prestamos + [p];
    assert forall i :: 0 <= i < |e.prestamos| ==> e'.prestamos[i] == e.prestamos[i];
  }

  lemma LibrosTrasPrestamo(e: Estado, isbn: string, id: int, hoy: int)
    requires LibrosAlDia(e) && ErrorDePrestamo(e, isbn, id).None?
    ensures LibrosAlDia(TrasPrestamo(e, isbn, id, hoy))
  {
    var e' := TrasPrestamo(e, isbn, id, hoy);
    var p := PrestamoNuevo(isbn, id, hoy);
    EnCursoAgrega(e.prestamos, p, None);
    assert EnCurso(e'.prestamos, None) == EnCurso(e.prestamos, None) + multiset{isbn};
  }

  lemma UsuariosTrasPrestamo(e: Estado, isbn: string, id: int, hoy: int)
    requires UsuariosAlDia(e) && ErrorDePrestamo(e, isbn, id).None?
    ensures UsuariosAlDia(TrasPrestamo(e, isbn, id, hoy))
  {
    var e' := TrasPrestamo(e, isbn, id, hoy);
    var p := PrestamoNuevo(isbn, id, hoy);
    assert e'.prestamos == e.prestamos + [p];
    forall u | u in e'.usuarios
      ensures e'.usuarios[u].Inv() && e'.usuarios[u].multas >= 0
      ensures multiset(e'.usuarios[u].prestados) == EnCurso(e'.prestamos, Some(u))
    {
      var antes := e.usuarios[u];
      if u == id {
        assert Aporte(p, Some(u)) == multiset{isbn};
      } else {
        assert Aporte(p, Some(u)) == multiset{};
      }
      TenenciaTrasAgregar(e.prestamos, p, u, antes, e'.usuarios[u]);
    }
  }

  /** A borrower whose held list grows by exactly the new loan's
      contribution still holds the ISBNs of their loans not returned. */
  lemma TenenciaTrasAgregar(ps: seq<PrestamoV>, p: PrestamoV, u: int, antes: UsuarioV, despues: UsuarioV)
    requires multiset(antes.prestados) == EnCurso(ps, Some(u))
    requires multiset(despues.prestados) == multiset(antes.prestados) + Aporte(p, Some(u))
    ensures multiset(despues.prestados) == EnCurso(ps + [p], Some(u))
  {
    EnCursoAgrega(ps, p, Some(u));
  }

  /** In a consistent state a return never finds every copy already on the
      shelf: the matching loan is one of the book's copies out. */
  lemma DevolucionNuncaExcede(e: Estado, isbn: string, id: int)
    requires Consistente(e)
    ensures ErrorDeDevolucion(e, isbn, id) != Some(DevolucionExcedida)
    ensures PrimerActivo(e.prestamos, isbn, id).Some? ==> isbn in e.usuarios[id].prestados
  {
    var r := PrimerActivo(e.prestamos, isbn, id);
    if r.Some? {
      EnCursoContiene(e.prestamos, None, r.value);
      EnCursoContiene(e.prestamos, Some(id), r.value);
      assert isbn in multiset(e.usuarios[id].prestados);
    }
  }

  /** A return keeps the state consistent. */
  lemma ConsistenteTrasDevolucion(e: Estado, isbn: string, id: int, hoy: int)
    requires Consistente(e)
    ensures Referencias(TrasDevolucion(e, isbn, id, hoy))
    ensures Consistente(TrasDevolucion(e, isbn, id, hoy))
  {
    if ErrorDeDevolucion(e, isbn, id).None? {
      LedgerTrasDevolucion(e, isbn, id, hoy);
      LibrosTrasDevolucion(e, isbn, id, hoy);
      UsuariosTrasDevolucion(e, isbn, id, hoy);
    }
  }

  lemma LedgerTrasDevolucion(e: Estado, isbn: string, id: int, hoy: int)
    requires Referencias(e) && PrestamosAlDia(e) && ErrorDeDevolucion(e, isbn, id).None?
    ensures Referencias(TrasDevolucion(e, isbn, id, hoy)) && PrestamosAlDia(TrasDevolucion(e, isbn, id, hoy))
  {
    var ps := e.prestamos;
    var i := PrimerActivo(ps, isbn, id).value;
    var e' := TrasDevolucion(e, isbn, id, hoy);
    assert e'.prestamos == ps[i := ps[i].Cerrado(hoy)];
    assert forall j :: 0 <= j < |ps| && j != i ==> e'.prestamos[j] == ps[j];
  }

  /** Closing a loan that was not returned takes exactly its contribution
      out of the count. */
  lemma CuentaTrasCierre(ps: seq<PrestamoV>, i: nat, hoy: int, quien: Option<int>)
    requires i < |ps| && ps[i].estado != Devuelto
    ensures EnCurso(ps[i := ps[i].Cerrado(hoy)], quien) == EnCurso(ps, quien) - Aporte(ps[i], quien)
  {
    var cerrado := ps[i].Cerrado(hoy);
    assert Aporte(cerrado, quien) == multiset{};
    EnCursoActualiza(ps, i, cerrado, quien);
    QuitarDeSuma(EnCurso(ps[i := cerrado], quien), Aporte(ps[i], quien), EnCurso(ps, quien));
  }

  lemma QuitarDeSuma(a: multiset<string>, b: multiset<string>, m: multiset<string>)
    requires a + b == m
    ensures a == m - b
  {
    assert forall k :: a[k] == (m - b)[k] by {
      forall k ensures a[k] == (m - b)[k] {
        assert m[k] == a[k] + b[k];
      }
    }
  }

  lemma LibrosTrasDevolucion(e: Estado, isbn: string, id: int, hoy: int)
    requires Referencias(e) && LibrosAlDia(e) && PrestamosAlDia(e)
    requires ErrorDeDevolucion(e, isbn, id).None?
    ensures LibrosAlDia(TrasDevolucion(e, isbn, id, hoy))
  {
    var ps := e.prestamos;
    var i := PrimerActivo(ps, isbn, id).value;
    var e' := TrasDevolucion(e, isbn, id, hoy);
    assert e'.prestamos == ps[i := ps[i].Cerrado(hoy)];
    assert Aporte(ps[i], None) == multiset{isbn};
    CuentaTrasCierre(ps, i, hoy, None);
  }

  lemma UsuariosTrasDevolucion(e: Estado, isbn: string, id: int, hoy: int)
    requires Referencias(e) && UsuariosAlDia(e) && PrestamosAlDia(e)
    requires ErrorDeDevolucion(e, isbn, id).None?
    ensures UsuariosAlDia(TrasDevolucion(e, isbn, id, hoy))
  {
    var ps := e.prestamos;
    var i := PrimerActivo(ps, isbn, id).value;
    var e' := TrasDevolucion(e, isbn, id, hoy);
    assert e'.prestamos == ps[i := ps[i].Cerrado(hoy)];
    forall u | u in e'.usuarios
      ensures e'.usuarios[u].Inv() && e'.usuarios[u].multas >= 0
      ensures multiset(e'.usuarios[u].prestados) == EnCurso(e'.prestamos, Some(u))
    {
      UsuarioTrasCierre(ps, i, hoy, isbn, id, u, e.usuarios[u], e'.usuarios[u]);
    }
  }

  /** One borrower across a return: the borrower who returns loses one
      occurrence of the ISBN and gains the fine, everyone else is left as
      they were, and either way the held list still matches the loans not
      returned once the loan is closed. */
  lemma UsuarioTrasCierre(ps: seq<PrestamoV>, i: nat, hoy: int, isbn: string, id: int,
                          u: int, antes: UsuarioV, despues: UsuarioV)
    requires i < |ps| && Coincide(ps[i], isbn, id) && ps[i].Inv()
    requires antes.Inv() && antes.multas >= 0
    requires multiset(antes.prestados) == EnCurso(ps, Some(u))
    requires despues ==
      if u != id then antes
      else
        var w := antes.SinLibro(isbn);
        var c := ps[i].Cerrado(hoy);
        if c.multa > 0 then w.ConMulta(c.multa) else w
    ensures despues.Inv() && despues.multas >= 0
    ensures multiset(despues.prestados) == EnCurso(ps[i := ps[i].Cerrado(hoy)], Some(u))
  {
    assert Aporte(ps[i], Some(u)) == if u == id then multiset{isbn} else multiset{};
    CuentaTrasCierre(ps, i, hoy, Some(u));
  }

  /** The overdue sweep keeps the state consistent. */
  lemma ConsistenteTrasBarrido(e: Estado, hoy: int)
    requires Consistente(e)
    ensures Consistente(TrasBarrido(e, hoy))
  {
    LedgerTrasBarrido(e, hoy);
    CuentasTrasBarrido(e, hoy);
  }

  lemma LedgerTrasBarrido(e: Estado, hoy: int)
    requires Referencias(e) && PrestamosAlDia(e)
    ensures Referencias(TrasBarrido(e, hoy)) && PrestamosAlDia(TrasBarrido(e, hoy))
  {
    BarridoConservaAportes(e.prestamos, hoy);
  }

  lemma CuentasTrasBarrido(e: Estado, hoy: int)
    requires LibrosAlDia(e) && UsuariosAlDia(e)
    ensures LibrosAlDia(TrasBarrido(e, hoy)) && UsuariosAlDia(TrasBarrido(e, hoy))
  {
    BarridoConservaAportes(e.prestamos, hoy);
    var e' := TrasBarrido(e, hoy);
    assert EnCurso(e'.prestamos, None) == EnCurso(e.prestamos, None);
  }

  /** Marking keeps each loan's book, borrower, contribution to the counts,
      invariant and fine, so the counts of loans not returned do not
      change. */
  lemma BarridoConservaAportes(ps: seq<PrestamoV>, hoy: int)
    ensures var qs := MarcarTodos(ps, hoy);
      && |qs| == |ps|
      && (forall i :: 0 <= i < |ps| ==> qs[i].isbn == ps[i].isbn && qs[i].usuario == ps[i].usuario)
      && (forall i :: 0 <= i < |ps| && ps[i].Inv() && CierreCorrecto(ps[i]) ==>
            qs[i].Inv() && CierreCorrecto(qs[i]))
      && (forall q :: EnCurso(qs, q) == EnCurso(ps, q))
  {
    var qs := MarcarTodos(ps, hoy);
    forall i | 0 <= i < |ps|
      ensures qs[i].isbn == ps[i].isbn && qs[i].usuario == ps[i].usuario
      ensures forall q :: Aporte(qs[i], q) == Aporte(ps[i], q)
      ensures ps[i].Inv() && CierreCorrecto(ps[i]) ==> qs[i].Inv() && CierreCorrecto(qs[i])
    {
      MarcadoIdempotente(ps[i], hoy);
    }
    forall q
      ensures EnCurso(qs, q) == EnCurso(ps, q)
    {
      EnCursoPuntual(ps, qs, q);
    }
  }

  /** A checkout followed on the same day by the return of the same book by
      the same borrower, when the pair had no other ACTIVO loan: the return
      succeeds and closes the new loan with fine zero; availability, the
      multiset of held books and the fine balance are back to what they
      were; the catalog entry has one more loan on its counter. */
  lemma PrestamoYDevolucionMismoDia(e: Estado, isbn: string, id: int, hoy: int)
    requires Referencias(e) && LibrosAlDia(e)
    requires ErrorDePrestamo(e, isbn, id).None?
    requires PrimerActivo(e.prestamos, isbn, id).None?
    ensures var e1 := TrasPrestamo(e, isbn, id, hoy);
      && Referencias(e1)
      && ErrorDeDevolucion(e1, isbn, id).None?
      && var e2 := TrasDevolucion(e1, isbn, id, hoy);
         && e2.libros == e.libros[isbn := e.libros[isbn].(contador := e.libros[isbn].contador + 1)]
         && multiset(e2.usuarios[id].prestados) == multiset(e.usuarios[id].prestados)
         && e2.usuarios[id].multas == e.usuarios[id].multas
         && e2.usuarios.Keys == e.usuarios.Keys
         && (forall k :: k in e.usuarios && k != id ==> e2.usuarios[k] == e.usuarios[k])
         && |e2.prestamos| == |e.prestamos| + 1
         && e2.prestamos[..|e.prestamos|] == e.prestamos
         && e2.prestamos[|e.prestamos|].estado == Devuelto
         && e2.prestamos[|e.prestamos|].multa == 0
  {
    var n := |e.prestamos|;
    var l, u := e.libros[isbn], e.usuarios[id];
    DosPasos(e, isbn, id, hoy);
    var e2 := TrasDevolucion(TrasPrestamo(e, isbn, id, hoy), isbn, id, hoy);
    assert e2.prestamos[..n] == e.prestamos;
    PrestarYDevolver(l);
  }

  /** A checkout followed on the same day by the return of the same book by
      the same borrower, whatever loans the pair already had: the return
      passes, the book's availability and the multiset of held books are
      back to what they were, the book has one more loan on its counter,
      and every other borrower is as before. */
  lemma PrestamoYDevolucionRestituye(e: Estado, isbn: string, id: int, hoy: int)
    requires Referencias(e) && LibrosAlDia(e)
    requires ErrorDePrestamo(e, isbn, id).None?
    ensures var e1 := TrasPrestamo(e, isbn, id, hoy);
      && Referencias(e1)
      && ErrorDeDevolucion(e1, isbn, id).None?
      && var e2 := TrasDevolucion(e1, isbn, id, hoy);
         && e2.libros == e.libros[isbn := e.libros[isbn].(contador := e.libros[isbn].contador + 1)]
         && multiset(e2.usuarios[id].prestados) == multiset(e.usuarios[id].prestados)
         && e2.usuarios.Keys == e.usuarios.Keys
         && (forall u :: u in e.usuarios && u != id ==> e2.usuarios[u] == e.usuarios[u])
         && |e2.prestamos| == |e.prestamos| + 1
  {
    var l := e.libros[isbn];
    DevolucionTrasPrestamo(e, isbn, id, hoy);
    Sobrescrito(e.libros, isbn, l.Prestado(), l.Prestado().Devuelto());
  }

  /** Which loan that same-day return closes: the pair's first ACTIVO loan
      before the checkout when there was one, and then the new loan stays
      ACTIVO and the fine charged is the older loan's; the new loan
      otherwise. Either way the closed loan is returned today and its fine,
      when positive, is added to the borrower's balance. */
  lemma PrestamoYDevolucionCierra(e: Estado, isbn: string, id: int, hoy: int)
    requires Referencias(e) && LibrosAlDia(e)
    requires ErrorDePrestamo(e, isbn, id).None?
    ensures var e1 := TrasPrestamo(e, isbn, id, hoy);
      && Referencias(e1)
      && var e2 := TrasDevolucion(e1, isbn, id, hoy);
         var n := |e.prestamos|;
         var k := CerradoTrasPrestamo(e, isbn, id);
         && |e2.prestamos| == n + 1
         && e2.prestamos[k].estado == Devuelto && e2.prestamos[k].devolucionReal == Some(hoy)
         && id in e2.usuarios
         && e2.usuarios[id].multas
              == e.usuarios[id].multas + (if e2.prestamos[k].multa > 0 then e2.prestamos[k].multa else 0)
         && (k < n ==> e2.prestamos[n] == PrestamoNuevo(isbn, id, hoy))
  {
    DevolucionTrasPrestamo(e, isbn, id, hoy);
  }

  /** The state after a checkout and a same-day return, as one value, with
      `k` the loan the return closes. */
  lemma DevolucionTrasPrestamo(e: Estado, isbn: string, id: int, hoy: int)
    requires Referencias(e) && LibrosAlDia(e)
    requires ErrorDePrestamo(e, isbn, id).None?
    ensures var e1 := TrasPrestamo(e, isbn, id, hoy);
      && Referencias(e1)
      && ErrorDeDevolucion(e1, isbn, id).None?
      && var ps := e.prestamos + [PrestamoNuevo(isbn, id, hoy)];
         var k := CerradoTrasPrestamo(e, isbn, id);
         var c := ps[k].Cerrado(hoy);
         var w := e.usuarios[id].ConLibro(isbn).SinLibro(isbn);
         TrasDevolucion(e1, isbn, id, hoy)
           == Estado(e.libros[isbn := e.libros[isbn].Prestado()][isbn := e.libros[isbn].Prestado().Devuelto()],
                     e.usuarios[id := e.usuarios[id].ConLibro(isbn)][id := if c.multa > 0 then w.ConMulta(c.multa) else w],
                     ps[k := c])
  {
    PrimerActivoTrasPrestamo(e, isbn, id, hoy);
    DevolucionEn(TrasPrestamo(e, isbn, id, hoy), isbn, id, hoy, CerradoTrasPrestamo(e, isbn, id));
  }

  /** The loan a return closes right after a checkout: the pair's first
      ACTIVO loan before the checkout, or else the one just appended. */
  function CerradoTrasPrestamo(e: Estado, isbn: string, id: int): (k: nat)
    ensures k <= |e.prestamos|
    ensures k < |e.prestamos| <==> PrimerActivo(e.prestamos, isbn, id).Some?
  {
    match PrimerActivo(e.prestamos, isbn, id)
    case None => |e.prestamos|
    case Some(i) => i
  }

  /** A checkout appends its loan after every earlier one, so the pair's
      first ACTIVO loan is the same as before when there was one, and the
      new loan otherwise; the book then has a copy out. */
  lemma PrimerActivoTrasPrestamo(e: Estado, isbn: string, id: int, hoy: int)
    requires Referencias(e) && LibrosAlDia(e)
    requires ErrorDePrestamo(e, isbn, id).None?
    ensures var e1 := TrasPrestamo(e, isbn, id, hoy);
      && e1 == Estado(e.libros[isbn := e.libros[isbn].Prestado()],
                      e.usuarios[id := e.usuarios[id].ConLibro(isbn)],
                      e.prestamos + [PrestamoNuevo(isbn, id, hoy)])
      && Referencias(e1)
      && PrimerActivo(e1.prestamos, isbn, id) == Some(CerradoTrasPrestamo(e, isbn, id))
      && e1.libros[isbn].PuedeDevolver()
  {
    var e1 := TrasPrestamo(e, isbn, id, hoy);
    match PrimerActivo(e.prestamos, isbn, id)
    case None =>
      NuevoEsPrimerActivo(e, isbn, id, hoy);
    case Some(i) =>
      assert forall j :: 0 <= j <= i ==> e1.prestamos[j] == e.prestamos[j];
      PrimerActivoEs(e1.prestamos, isbn, id, i);
  }

  /** The state after a checkout and a same-day return of the new loan, as
      one value. */
  lemma DosPasos(e: Estado, isbn: string, id: int, hoy: int)
    requires Referencias(e) && LibrosAlDia(e)
    requires ErrorDePrestamo(e, isbn, id).None?
    requires PrimerActivo(e.prestamos, isbn, id).None?
    ensures var e1 := TrasPrestamo(e, isbn, id, hoy);
      && Referencias(e1)
      && ErrorDeDevolucion(e1, isbn, id).None?
      && TrasDevolucion(e1, isbn, id, hoy)
         == Estado(e.libros[isbn := e.libros[isbn].Prestado().Devuelto()],
                   e.usuarios[id := e.usuarios[id].ConLibro(isbn).SinLibro(isbn)],
                   e.prestamos + [PrestamoNuevo(isbn, id, hoy).Cerrado(hoy)])
  {
    var e1 := TrasPrestamo(e, isbn, id, hoy);
    var n := |e.prestamos|;
    NuevoEsPrimerActivo(e, isbn, id, hoy);
    var cerrado := PrestamoNuevo(isbn, id, hoy).Cerrado(hoy);
    assert cerrado.multa == 0;
    var l1, u1 := e.libros[isbn].Prestado(), e.usuarios[id].ConLibro(isbn);
    assert e1 == Estado(e.libros[isbn := l1], e.usuarios[id := u1], e.prestamos + [PrestamoNuevo(isbn, id, hoy)]);
    DevolucionEn(e1, isbn, id, hoy, n);
    Sobrescrito(e.libros, isbn, l1, l1.Devuelto());
    Sobrescrito(e.usuarios, id, u1, u1.SinLibro(isbn));
    UltimoReemplazado(e.prestamos, PrestamoNuevo(isbn, id, hoy), cerrado);
  }

  /** A second put at the same key hides the first. */
  lemma Sobrescrito<K, V>(m: map<K, V>, k: K, a: V, b: V)
    ensures m[k := a][k := b] == m[k := b]
  {
  }

  /** Replacing the element just appended is appending the replacement. */
  lemma UltimoReemplazado<T>(s: seq<T>, a: T, b: T)
    ensures (s + [a])[|s| := b] == s + [b]
  {
  }

  /** A return whose first matching loan is at `i`, for a book with a copy
      out, succeeds and yields this state. */
  lemma DevolucionEn(e: Estado, isbn: string, id: int, hoy: int, i: nat)
    requires Referencias(e) && PrimerActivo(e.prestamos, isbn, id) == Some(i)
    requires e.libros[isbn].PuedeDevolver()
    ensures ErrorDeDevolucion(e, isbn, id).None?
    ensures var cerrado := e.prestamos[i].Cerrado(hoy);
      var u := e.usuarios[id].SinLibro(isbn);
      TrasDevolucion(e, isbn, id, hoy)
        == Estado(e.libros[isbn := e.libros[isbn].Devuelto()],
                  e.usuarios[id := if cerrado.multa > 0 then u.ConMulta(cerrado.multa) else u],
                  e.prestamos[i := cerrado])
  {
  }

  /** After a checkout that succeeds for a pair with no ACTIVO loan, the new
      loan is the pair's first ACTIVO loan, and a return of it would pass
      both checks. */
  lemma NuevoEsPrimerActivo(e: Estado, isbn: string, id: int, hoy: int)
    requires Referencias(e) && LibrosAlDia(e)
    requires ErrorDePrestamo(e, isbn, id).None?
    requires PrimerActivo(e.prestamos, isbn, id).None?
    ensures var e1 := TrasPrestamo(e, isbn, id, hoy);
      && Referencias(e1)
      && PrimerActivo(e1.prestamos, isbn, id) == Some(|e.prestamos|)
      && ErrorDeDevolucion(e1, isbn, id).None?
  {
    var e1 := TrasPrestamo(e, isbn, id, hoy);
    var n := |e.prestamos|;
    assert e1.prestamos == e.prestamos + [PrestamoNuevo(isbn, id, hoy)];
    assert forall j :: 0 <= j < n ==> e1.prestamos[j] == e.prestamos[j];
    var r := PrimerActivo(e1.prestamos, isbn, id);
    assert Coincide(e1.prestamos[n], isbn, id);
    assert r.Some? && r.value == n;
    assert e1.libros[isbn] == e.libros[isbn].Prestado();
  }

  /** What a return does, spelled out: a failed one changes nothing; a
      successful one gives the book one copy back, takes one occurrence of
      the ISBN off the borrower's list, adds the loan's fine to the
      borrower's balance, closes the first matching loan today with the
      fine of the policy, and changes nothing else. */
  lemma DevolucionExitosa(e: Estado, isbn: string, id: int, hoy: int)
    requires Referencias(e)
    ensures ErrorDeDevolucion(e, isbn, id).Some? ==> TrasDevolucion(e, isbn, id, hoy) == e
    ensures ErrorDeDevolucion(e, isbn, id).None? ==>
      var e' := TrasDevolucion(e, isbn, id, hoy);
      var i := PrimerActivo(e.prestamos, isbn, id).value;
      var p := e.prestamos[i];
      && e'.libros.Keys == e.libros.Keys && e'.usuarios.Keys == e.usuarios.Keys
      && e'.libros[isbn].disponibles == e.libros[isbn].disponibles + 1
      && e'.libros[isbn].contador == e.libros[isbn].contador
      && e'.libros[isbn].totales == e.libros[isbn].totales
      && (forall k :: k in e.libros && k != isbn ==> e'.libros[k] == e.libros[k])
      && multiset(e'.usuarios[id].prestados) == multiset(e.usuarios[id].prestados) - multiset{isbn}
      && e'.usuarios[id].multas == e.usuarios[id].multas
           + (if e'.prestamos[i].multa > 0 then e'.prestamos[i].multa else 0)
      && (forall k :: k in e.usuarios && k != id ==> e'.usuarios[k] == e.usuarios[k])
      && |e'.prestamos| == |e.prestamos|
      && (forall j :: 0 <= j < |e.prestamos| && j != i ==> e'.prestamos[j] == e.prestamos[j])
      && e'.prestamos[i].isbn == isbn && e'.prestamos[i].usuario == id
      && e'.prestamos[i].estado == Devuelto && e'.prestamos[i].devolucionReal == Some(hoy)
      && (p.Inv() ==> e'.prestamos[i].multa == MultaPorRetraso(p.vence, hoy))
  {
    if ErrorDeDevolucion(e, isbn, id).None? {
      var i := PrimerActivo(e.prestamos, isbn, id).value;
      var cerrado := e.prestamos[i].Cerrado(hoy);
      var u := e.usuarios[id].SinLibro(isbn);
      var u' := if cerrado.multa > 0 then u.ConMulta(cerrado.multa) else u;
      assert TrasDevolucion(e, isbn, id, hoy)
          == Estado(e.libros[isbn := e.libros[isbn].Devuelto()], e.usuarios[id := u'], e.prestamos[i := cerrado]);
    }
  }

  /** The source returns only ACTIVO loans: once the sweep has marked every
      loan of the pair VENCIDO, a return fails as "loan not found", while
      the borrower still holds the book. */
  lemma VencidoNoSeDevuelve(e: Estado, isbn: string, id: int, hoy: int)
    requires Consistente(e)
    requires exists j :: 0 <= j < |e.prestamos| && Coincide(e.prestamos[j], isbn, id)
    requires forall j :: 0 <= j < |e.prestamos| && Coincide(e.prestamos[j], isbn, id) ==>
               e.prestamos[j].vence < hoy
    ensures Referencias(TrasBarrido(e, hoy))
    ensures ErrorDeDevolucion(TrasBarrido(e, hoy), isbn, id) == Some(PrestamoNoEncontrado)
    ensures isbn in TrasBarrido(e, hoy).usuarios[id].prestados
  {
    var j :| 0 <= j < |e.prestamos| && Coincide(e.prestamos[j], isbn, id);
    assert PrimerActivo(e.prestamos, isbn, id).Some?;
    DevolucionNuncaExcede(e, isbn, id);
    LedgerTrasBarrido(e, hoy);
    BarridoCierraVencidos(e.prestamos, isbn, id, hoy);
  }

  /** After a sweep, a pair whose matching loans were all past due has no
      ACTIVO loan left. */
  lemma BarridoCierraVencidos(ps: seq<PrestamoV>, isbn: string, id: int, hoy: int)
    requires forall j :: 0 <= j < |ps| && Coincide(ps[j], isbn, id) ==> ps[j].vence < hoy
    ensures PrimerActivo(MarcarTodos(ps, hoy), isbn, id).None?
  {
    var qs := MarcarTodos(ps, hoy);
    forall k | 0 <= k < |qs|
      ensures !Coincide(qs[k], isbn, id)
    {
      assert qs[k] == ps[k].Marcado(hoy);
    }
  }

  // ---------------------------------------------------------------------
  // Queries (`obtenerLibrosDisponibles`, `obtenerUsuariosConMultas`)

  /** The ISBNs of the entries with a copy on the shelf: a catalog entry is
      listed exactly when at least one copy is available. */
  function Disponibles(e: Estado): (r: set<string>)
    ensures r <= e.libros.Keys
    ensures forall k :: k in e.libros ==> (k in r <==> e.libros[k].disponibles > 0)
  {
    set k | k in e.libros && e.libros[k].EstaDisponible()
  }

  /** The identifiers of the borrowers with a positive fine balance: a
      registered borrower is listed exactly when they owe something. */
  function ConMultas(e: Estado): (r: set<int>)
    ensures r <= e.usuarios.Keys
    ensures forall k :: k in e.usuarios ==> (k in r <==> e.usuarios[k].multas > 0)
  {
    set k | k in e.usuarios && e.usuarios[k].multas > 0
  }

  /** A checkout takes its book off the available list exactly when it
      lent the last copy on the shelf, and never changes who owes fines. */
  lemma ConsultasTrasPrestamo(e: Estado, isbn: string, id: int, hoy: int)
    ensures var e' := TrasPrestamo(e, isbn, id, hoy);
      Disponibles(e') ==
        if ErrorDePrestamo(e, isbn, id).None? && e.libros[isbn].disponibles == 1
        then Disponibles(e) - {isbn} else Disponibles(e)
    ensures ConMultas(TrasPrestamo(e, isbn, id, hoy)) == ConMultas(e)
  {
    var e' := TrasPrestamo(e, isbn, id, hoy);
    if ErrorDePrestamo(e, isbn, id).None? {
      assert forall k :: k in e'.libros && k != isbn ==> e'.libros[k] == e.libros[k];
      assert forall k :: k in e'.usuarios ==> e'.usuarios[k].multas == e.usuarios[k].multas;
    }
  }

  /** In a consistent library a successful return puts its book on the
      available list, and adds the borrower to those who owe fines exactly
      when the loan came back after its due day; a failed return changes
      neither list. */
  lemma ConsultasTrasDevolucion(e: Estado, isbn: string, id: int, hoy: int)
    requires Consistente(e)
    ensures var e' := TrasDevolucion(e, isbn, id, hoy);
      ErrorDeDevolucion(e, isbn, id).None? ==>
        Disponibles(e') == Disponibles(e) + {isbn}
        && ConMultas(e') ==
             if e.prestamos[PrimerActivo(e.prestamos, isbn, id).value].vence < hoy
             then ConMultas(e) + {id} else ConMultas(e)
    ensures ErrorDeDevolucion(e, isbn, id).Some? ==>
      Disponibles(TrasDevolucion(e, isbn, id, hoy)) == Disponibles(e)
      && ConMultas(TrasDevolucion(e, isbn, id, hoy)) == ConMultas(e)
  {
    if ErrorDeDevolucion(e, isbn, id).None? {
      var i := PrimerActivo(e.prestamos, isbn, id).value;
      assert e.libros[isbn].Inv() && e.usuarios[id].multas >= 0 && e.prestamos[i].Inv();
      DisponiblesTrasDevolucion(e, isbn, id, hoy);
      ConMultasTrasDevolucion(e, isbn, id, hoy);
    }
  }

  lemma DisponiblesTrasDevolucion(e: Estado, isbn: string, id: int, hoy: int)
    requires Referencias(e) && ErrorDeDevolucion(e, isbn, id).None?
    requires e.libros[isbn].Inv()
    ensures Disponibles(TrasDevolucion(e, isbn, id, hoy)) == Disponibles(e) + {isbn}
  {
    var e' := TrasDevolucion(e, isbn, id, hoy);
    assert e'.libros == e.libros[isbn := e.libros[isbn].Devuelto()];
    assert e'.libros[isbn].EstaDisponible();
  }

  lemma ConMultasTrasDevolucion(e: Estado, isbn: string, id: int, hoy: int)
    requires Referencias(e) && ErrorDeDevolucion(e, isbn, id).None?
    requires e.usuarios[id].multas >= 0 && e.prestamos[PrimerActivo(e.prestamos, isbn, id).value].Inv()
    ensures ConMultas(TrasDevolucion(e, isbn, id, hoy)) ==
      if e.prestamos[PrimerActivo(e.prestamos, isbn, id).value].vence < hoy
      then ConMultas(e) + {id} else ConMultas(e)
  {
    var e' := TrasDevolucion(e, isbn, id, hoy);
    var i := PrimerActivo(e.prestamos, isbn, id).value;
    var p := e.prestamos[i];
    var cerrado := p.Cerrado(hoy);
    assert cerrado.multa == MultaPorRetraso(p.vence, hoy);
    var u := e.usuarios[id].SinLibro(isbn);
    var u' := if cerrado.multa > 0 then u.ConMulta(cerrado.multa) else u;
    assert e'.usuarios == e.usuarios[id := u'];
    assert u'.multas > 0 <==> e.usuarios[id].multas > 0 || p.vence < hoy;
    ConMultasTrasUno(e, e', id, u');
    if p.vence >= hoy {
      assert id in ConMultas(e) <==> u'.multas > 0;
    }
  }

  /** Replacing one borrower changes the fines list at that identifier
      alone. */
  lemma ConMultasTrasUno(e: Estado, e': Estado, id: int, u: UsuarioV)
    requires e'.usuarios == e.usuarios[id := u]
    ensures ConMultas(e') == if u.multas > 0 then ConMultas(e) + {id} else ConMultas(e) - {id}
  {
  }
}
