/** The lending service (`Biblioteca`): a catalog keyed by ISBN, a registry
    of borrowers keyed by identifier and a ledger of loans in the order they
    were made. Each operation is proved to move the library's value view
    (`Vista`) exactly as the matching transition of `Modelo` says, and the
    lemmas of `Modelo` then say what the transitions keep. */
module Bibliotecas {
  import opened Comun
  import opened Listas
  import opened Libros
  import opened Usuarios
  import opened Prestamos
  import opened Modelo

  class Biblioteca {
    var libros: map<string, Libro>
    var usuarios: map<int, Usuario>
    var prestamos: seq<Prestamo>
    /** The borrowers' identifier sequence (`Usuario.CONTADOR_ID`, static in
        the source), from which every borrower's identifier is drawn. */
    const contador: ContadorId

    /** The library as a value: every entry, borrower and loan through its
        own view. */
    ghost function Vista(): Estado
      reads this, libros.Values, usuarios.Values, prestamos
    {
      Estado(VistasLibros(libros), VistasUsuarios(usuarios), VistasDe(prestamos))
    }

    /** Every loan names a catalogued book and a registered borrower. */
    predicate LedgerReferenciado()
      reads this
    {
      forall i :: 0 <= i < |prestamos| ==>
        prestamos[i].isbnLibro in libros && prestamos[i].idUsuario in usuarios
    }

    /** Each entry is filed under its own ISBN and each borrower under
        their own identifier (so no object is filed twice), every object
        keeps its own invariant, no loan is recorded twice, and every loan
        names a catalogued book and a registered borrower. */
    ghost predicate Valid()
      reads this, libros.Values, usuarios.Values, prestamos
    {
      CatalogoValido(libros) && RegistroValido(usuarios)
      && PrestamosValidos(prestamos) && LedgerReferenciado()
    }

    /** Every registered identifier has already been handed out by the
        sequence, so the sequence's next value is not registered. */
    predicate IdentificadoresTomados()
      reads this, contador
    {
      forall k :: k in usuarios ==> k < contador.siguiente
    }

    /** The value view of a valid library satisfies the model's reference
        invariant. */
    lemma VistaReferenciada()
      requires Valid()
      ensures Referencias(Vista())
    {
    }

    /** An empty catalog, registry and ledger, over the borrowers' shared
        identifier sequence. */
    constructor (contador: ContadorId)
      ensures this.contador == contador
      ensures Valid() && IdentificadoresTomados()
      ensures Vista() == Estado(map[], map[], [])
    {
      this.contador := contador;
      libros := map[];
      usuarios := map[];
      prestamos := [];
    }

    /** `agregarLibro`: a put under the entry's ISBN, replacing any entry
        already filed there. */
    method AgregarLibro(libro: Libro)
      requires Valid() && libro.Valid()
      modifies this
      ensures Valid()
      ensures libros == old(libros)[libro.isbn := libro]
      ensures usuarios == old(usuarios) && prestamos == old(prestamos)
      ensures Vista() == ConLibro(old(Vista()), libro.isbn, libro.Vista())
    {
      ghost var e := Vista();
      VistasLibrosPut(libros, libro.isbn, libro);
      libros := libros[libro.isbn := libro];
      assert VistasUsuarios(usuarios) == e.usuarios && VistasDe(prestamos) == e.prestamos;
    }

    /** `registrarUsuario`: a put under the borrower's identifier. A
        borrower built from the library's sequence (`Usuario.Crear`) has an
        identifier below the sequence's next value, and registering one
        keeps the registry holding only identifiers already handed out. */
    method RegistrarUsuario(usuario: Usuario)
      requires Valid() && usuario.Valid()
      modifies this
      ensures Valid()
      ensures old(IdentificadoresTomados()) && usuario.id < contador.siguiente ==> IdentificadoresTomados()
      ensures usuarios == old(usuarios)[usuario.id := usuario]
      ensures libros == old(libros) && prestamos == old(prestamos)
      ensures Vista() == ConUsuario(old(Vista()), usuario.id, usuario.Vista())
    {
      ghost var e := Vista();
      VistasUsuariosPut(usuarios, usuario.id, usuario);
      usuarios := usuarios[usuario.id := usuario];
      assert VistasLibros(libros) == e.libros && VistasDe(prestamos) == e.prestamos;
    }

    /** Drawing a borrower from the library's sequence (`Usuario.Crear`,
        which changes nothing but the sequence) gives an identifier no
        registered borrower has, that may be registered; registering that
        new borrower keeps a consistent library consistent. */
    twostate lemma UsuarioCreadoEsNuevo(new u: Usuario)
      requires old(IdentificadoresTomados()) && unchanged(this)
      requires u.id == old(contador.siguiente) && contador.siguiente == u.id + 1
      ensures IdentificadoresTomados() && u.id < contador.siguiente
      ensures u.id !in usuarios
      ensures Consistente(Vista()) && u.Vista() == UsuarioNuevo() ==>
        Consistente(ConUsuario(Vista(), u.id, u.Vista()))
    {
      if Consistente(Vista()) && u.Vista() == UsuarioNuevo() {
        ConsistenteTrasAltaDeUsuario(Vista(), u.id);
      }
    }

    /** `buscarLibroPorISBN`. */
    function BuscarLibroPorIsbn(isbn: string): (r: Option<Libro>)
      reads this
      ensures r.Some? <==> isbn in libros
      ensures r.Some? ==> r.value == libros[isbn] && r.value in libros.Values
    {
      if isbn in libros then Some(libros[isbn]) else None
    }

    /** `buscarUsuarioPorId`. */
    function BuscarUsuarioPorId(id: int): (r: Option<Usuario>)
      reads this
      ensures r.Some? <==> id in usuarios
      ensures r.Some? ==> r.value == usuarios[id] && r.value in usuarios.Values
    {
      if id in usuarios then Some(usuarios[id]) else None
    }

    /** `buscarLibrosPorTitulo`: the entries whose title, case-folded,
        contains the case-folded search text. Java's `toLowerCase` depends
        on the default locale, so the case mapping is a parameter. */
    function BuscarLibrosPorTitulo(titulo: string, minusculas: string -> string): (r: set<Libro>)
      reads this
      ensures r <= libros.Values
      ensures forall k :: k in libros ==>
        (libros[k] in r <==> exists i :: OcurreEn(minusculas(libros[k].titulo), minusculas(titulo), i))
    {
      ContieneSiiParaTodo(minusculas(titulo));
      set k | k in libros && Contiene(minusculas(libros[k].titulo), minusculas(titulo)) :: libros[k]
    }

    /** `obtenerLibrosDisponibles`: the entries filed under the ISBNs the
        model lists as available. */
    function ObtenerLibrosDisponibles(): (r: set<Libro>)
      requires Valid()
      reads this, libros.Values, usuarios.Values, prestamos
      ensures r <= libros.Values
      ensures forall k :: k in libros ==> (libros[k] in r <==> k in Disponibles(Vista()))
    {
      set k | k in libros && libros[k].EstaDisponible() :: libros[k]
    }

    /** `obtenerUsuariosConMultas`: the borrowers filed under the
        identifiers the model lists as owing fines. */
    function ObtenerUsuariosConMultas(): (r: set<Usuario>)
      requires Valid()
      reads this, libros.Values, usuarios.Values, prestamos
      ensures r <= usuarios.Values
      ensures forall k :: k in usuarios ==> (usuarios[k] in r <==> k in ConMultas(Vista()))
    {
      set k | k in usuarios && usuarios[k].multasAcumuladas > 0 :: usuarios[k]
    }

    /** `obtenerPrestamosDeUsuario`: the borrower's loans in ledger order,
        each recorded once. */
    function ObtenerPrestamosDeUsuario(id: int): (r: seq<Prestamo>)
      requires Valid()
      reads this, libros.Values, usuarios.Values, prestamos
      ensures forall i :: 0 <= i < |r| ==> r[i] in prestamos && r[i].idUsuario == id
      ensures forall p :: p in prestamos && p.idUsuario == id ==> p in r
      ensures Distintos(r)
      ensures r == PrestamosDe(prestamos, id)
    {
      PrestamosDeDistintos(prestamos, id);
      PrestamosDe(prestamos, id)
    }

    /** `obtenerTopLibrosPrestados`: the entries sorted by loan counter,
        highest first, cut to `limite`; a negative limit is refused (as
        `Stream.limit` does). Entries with equal counters may come in any
        order, as the catalog's iteration order is unspecified. */
    method ObtenerTopLibrosPrestados(limite: int) returns (r: Result<seq<Libro>>)
      requires Valid()
      ensures r.Failure? <==> limite < 0
      ensures r.Failure? ==> r.error == LimiteNegativo
      ensures r.Success? ==>
        var top := r.value;
        && |top| == Min(limite, |libros|)
        && Distintos(top)
        && (forall i :: 0 <= i < |top| ==> top[i] in libros.Values)
        && (forall i, j :: 0 <= i < j < |top| ==> top[i].contadorPrestamos >= top[j].contadorPrestamos)
        && (forall l, i :: l in libros.Values && l !in top && 0 <= i < |top| ==>
              l.contadorPrestamos <= top[i].contadorPrestamos)
    {
      if limite < 0 {
        return Failure(LimiteNegativo);
      }
      var pendientes := libros.Keys;
      var top: seq<Libro> := [];
      while |top| < limite && pendientes != {}
        invariant pendientes <= libros.Keys
        invariant |top| + |pendientes| == |libros.Keys| && |top| <= limite
        invariant forall i :: 0 <= i < |top| ==> top[i] in libros.Values && top[i].isbn !in pendientes
        invariant forall k :: k in libros && k !in pendientes ==> libros[k] in top
        invariant Distintos(top)
        invariant forall i, j :: 0 <= i < j < |top| ==> top[i].contadorPrestamos >= top[j].contadorPrestamos
        invariant forall k, i :: k in pendientes && 0 <= i < |top| ==>
          libros[k].contadorPrestamos <= top[i].contadorPrestamos
        decreases pendientes
      {
        var k := MasPrestado(pendientes);
        top := top + [libros[k]];
        pendientes := pendientes - {k};
      }
      r := Success(top);
    }

    /** The ISBN, among `pendientes`, of an entry with the highest loan
        counter. */
    method MasPrestado(pendientes: set<string>) returns (k: string)
      requires pendientes != {} && pendientes <= libros.Keys
      ensures k in pendientes
      ensures forall j :: j in pendientes ==> libros[j].contadorPrestamos <= libros[k].contadorPrestamos
    {
      k :| k in pendientes;
      var resto := pendientes - {k};
      while resto != {}
        invariant resto <= pendientes && k in pendientes
        invariant forall j :: j in pendientes && j !in resto ==>
          libros[j].contadorPrestamos <= libros[k].contadorPrestamos
        decreases resto
      {
        var j :| j in resto;
        if libros[j].contadorPrestamos > libros[k].contadorPrestamos {
          k := j;
        }
        resto := resto - {j};
      }
    }

    /** `realizarPrestamo`: the checks in their order, then the book lends
        a copy, the borrower takes the ISBN and a new loan opened today is
        appended to the ledger. */
    method RealizarPrestamo(isbn: string, id: int, hoy: int) returns (o: Outcome)
      requires Valid()
      modifies this, libros.Values, usuarios.Values
      ensures Valid()
      ensures libros == old(libros) && usuarios == old(usuarios)
      ensures o.Fail? ==> prestamos == old(prestamos)
      ensures o.Fail? ==> unchanged(libros.Values) && unchanged(usuarios.Values)
      ensures o.Ok? ==> |prestamos| == |old(prestamos)| + 1 && prestamos[..|old(prestamos)|] == old(prestamos)
      ensures o.Ok? ==> fresh(prestamos[|old(prestamos)|])
      ensures o == Resultado(ErrorDePrestamo(old(Vista()), isbn, id))
      ensures Vista() == TrasPrestamo(old(Vista()), isbn, id, hoy)
    {
      ghost var e := Vista();
      var l := BuscarLibroPorIsbn(isbn);
      if l.None? {
        return Fail(LibroNoEncontrado);
      }
      var u := BuscarUsuarioPorId(id);
      if u.None? {
        return Fail(UsuarioNoEncontrado);
      }
      var libro, usuario := l.value, u.value;
      if !libro.EstaDisponible() {
        return Fail(LibroNoDisponible);
      }
      if !usuario.PuedePedirPrestado() {
        return Fail(UsuarioSinCupo);
      }
      var prestado := libro.Prestar();
      assert prestado.Ok?;
      var agregado := usuario.AgregarLibroPrestado(isbn);
      assert agregado.Ok?;
      o := Ok;
      var p := new Prestamo(isbn, id, hoy);
      prestamos := prestamos + [p];
      PrestamoRegistrado(isbn, id, hoy);
    }

    /** The checkout's effects on the objects, as the model's checkout
        transition on the view. */
    twostate lemma PrestamoRegistrado(new isbn: string, new id: int, new hoy: int)
      requires old(Valid()) && isbn in libros && id in usuarios
      requires libros == old(libros) && usuarios == old(usuarios)
      requires |prestamos| == |old(prestamos)| + 1 && prestamos[..|old(prestamos)|] == old(prestamos)
      requires old(libros[isbn].EstaDisponible()) && old(usuarios[id].PuedePedirPrestado())
      requires libros[isbn].Valid() && libros[isbn].Vista() == old(libros[isbn].Vista()).Prestado()
      requires usuarios[id].Valid() && usuarios[id].Vista() == old(usuarios[id].Vista()).ConLibro(isbn)
      requires prestamos[|old(prestamos)|].Valid() && prestamos[|old(prestamos)|].Vista() == PrestamoNuevo(isbn, id, hoy)
      requires forall k :: k in libros && k != isbn ==> unchanged(libros[k])
      requires forall k :: k in usuarios && k != id ==> unchanged(usuarios[k])
      requires forall j :: 0 <= j < |old(prestamos)| ==> unchanged(prestamos[j])
      requires fresh(prestamos[|old(prestamos)|])
      ensures Valid()
      ensures Vista() == TrasPrestamo(old(Vista()), isbn, id, hoy)
    {
      var ps := old(prestamos);
      CatalogoTrasUno(libros, isbn);
      RegistroTrasUno(usuarios, id);
      LedgerIntacto(ps);
      assert prestamos == ps + [prestamos[|ps|]];
      VistasDeAgrega(ps, prestamos[|ps|]);
    }

    /** `devolverLibro`: the first ACTIVO loan of the pair in ledger order
        is looked up; the book takes a copy back (which may fail, and then
        nothing has changed), the borrower drops the ISBN, the loan is
        closed today and its fine, when positive, is charged to the
        borrower. */
    method DevolverLibro(isbn: string, id: int, hoy: int) returns (o: Outcome)
      requires Valid()
      modifies libros.Values, usuarios.Values, prestamos
      ensures Valid()
      ensures Referencias(old(Vista()))
      ensures o == Resultado(ErrorDeDevolucion(old(Vista()), isbn, id))
      ensures o.Fail? ==> unchanged(libros.Values) && unchanged(usuarios.Values)
      ensures Vista() == TrasDevolucion(old(Vista()), isbn, id, hoy)
    {
      ghost var e := Vista();
      var i := BuscarActivo(isbn, id);
      if i == |prestamos| {
        SinPrestamoActivo(isbn, id, hoy);
        return Fail(PrestamoNoEncontrado);
      }
      o := DevolverCopia(isbn, id, i);
      if o.Fail? {
        return;
      }
      CerrarPrestamo(isbn, id, hoy, i, e);
    }

    /** `libro.devolver()` on the book of the loan found at `i`: with every
        copy on the shelf it fails and nothing changes, as the model's
        return fails; otherwise the entry takes the copy back and the view
        changes at that entry alone. */
    method DevolverCopia(isbn: string, id: int, i: nat) returns (o: Outcome)
      requires Valid() && i < |prestamos|
      requires Coincide(prestamos[i].Vista(), isbn, id)
      requires forall j :: 0 <= j < i ==> !Coincide(prestamos[j].Vista(), isbn, id)
      modifies libros[isbn]
      ensures Valid() && Referencias(old(Vista()))
      ensures PrimerActivo(old(Vista()).prestamos, isbn, id) == Some(i)
      ensures o == Resultado(ErrorDeDevolucion(old(Vista()), isbn, id))
      ensures o.Ok? <==> old(Vista()).libros[isbn].PuedeDevolver()
      ensures o.Fail? ==> unchanged(libros[isbn])
      ensures o.Fail? ==> Vista() == old(Vista())
      ensures o.Ok? ==> Vista() == old(Vista()).(libros := old(Vista()).libros[isbn := old(libros[isbn].Vista()).Devuelto()])
    {
      PrimerActivoEn(isbn, id, i);
      var libro := libros[isbn];
      o := libro.Devolver();
      if o.Ok? {
        CatalogoTrasUno(libros, isbn);
        RegistroIntacto(usuarios);
        LedgerIntacto(prestamos);
      }
    }

    /** The rest of `devolverLibro` once the book took its copy back: the
        borrower drops the ISBN, the loan found at `i` is closed today, and
        its fine, when positive, is charged to the borrower. With the
        book's copy, this is the model's return from the state `e` before
        it. */
    method CerrarPrestamo(isbn: string, id: int, hoy: int, i: nat, ghost e: Estado)
      requires Valid() && Referencias(e) && PrimerActivo(e.prestamos, isbn, id) == Some(i)
      requires e.libros[isbn].PuedeDevolver()
      requires Vista() == e.(libros := e.libros[isbn := e.libros[isbn].Devuelto()])
      modifies usuarios.Values, prestamos
      ensures Valid()
      ensures Vista() == TrasDevolucion(e, isbn, id, hoy)
    {
      RegistrarCierre(isbn, id, hoy, i);
      DevolucionRegistrada(isbn, id, hoy, i, e);
    }

    /** The rest of a return once the book took its copy back: the ISBN
        leaves the borrower's list, the loan is closed, and its fine, when
        positive, is added to the borrower's balance. */
    method RegistrarCierre(isbn: string, id: int, hoy: int, i: nat)
      requires i < |prestamos| && PrestamosValidos(prestamos)
      requires id in usuarios && RegistroValido(usuarios)
      modifies usuarios[id], prestamos[i]
      ensures prestamos[i].Valid() && prestamos[i].Vista() == old(prestamos[i].Vista()).Cerrado(hoy)
      ensures forall j :: 0 <= j < |prestamos| && j != i ==> unchanged(prestamos[j])
      ensures forall k :: k in libros ==> unchanged(libros[k])
      ensures forall k :: k in usuarios && k != id ==> unchanged(usuarios[k])
      ensures usuarios[id].Valid()
      ensures usuarios[id].Vista() ==
        var u := old(usuarios[id].Vista()).SinLibro(isbn);
        if prestamos[i].multa > 0 then u.ConMulta(prestamos[i].multa) else u
    {
      var usuario := usuarios[id];
      usuario.RemoverLibroPrestado(isbn);
      CerrarEnLedger(i, hoy);
      if prestamos[i].multa > 0 {
        usuario.AgregarMulta(prestamos[i].multa);
      }
    }

    /** `prestamo.devolver(hoy)` on the loan at `i`: that loan is closed
        and no other loan of the ledger changes. */
    method CerrarEnLedger(i: nat, hoy: int)
      requires i < |prestamos| && PrestamosValidos(prestamos)
      modifies prestamos[i]
      ensures prestamos[i].Valid() && prestamos[i].Vista() == old(prestamos[i].Vista()).Cerrado(hoy)
      ensures forall j :: 0 <= j < |prestamos| && j != i ==> unchanged(prestamos[j])
    {
      var prestamo := prestamos[i];
      prestamo.Devolver(hoy);
      forall j | 0 <= j < |prestamos| && j != i
        ensures unchanged(prestamos[j])
      {
        assert prestamos[j] != prestamo;
      }
    }

    /** The search of `devolverLibro`: the index of the first ACTIVO loan of
        the pair in ledger order, or the ledger's length when there is none. */
    method BuscarActivo(isbn: string, id: int) returns (i: nat)
      ensures i <= |prestamos|
      ensures i < |prestamos| ==> Coincide(prestamos[i].Vista(), isbn, id)
      ensures forall j :: 0 <= j < i ==> !Coincide(prestamos[j].Vista(), isbn, id)
    {
      i := 0;
      while i < |prestamos| && !(prestamos[i].isbnLibro == isbn && prestamos[i].idUsuario == id
                                 && prestamos[i].estado == Activo)
        invariant i <= |prestamos|
        invariant forall j :: 0 <= j < i ==> !Coincide(prestamos[j].Vista(), isbn, id)
      {
        i := i + 1;
      }
    }

    /** A ledger with no ACTIVO loan of the pair makes a return fail as
        "loan not found". */
    lemma SinPrestamoActivo(isbn: string, id: int, hoy: int)
      requires Valid()
      requires forall j :: 0 <= j < |prestamos| ==> !Coincide(prestamos[j].Vista(), isbn, id)
      ensures Referencias(Vista())
      ensures ErrorDeDevolucion(Vista(), isbn, id) == Some(PrestamoNoEncontrado)
      ensures TrasDevolucion(Vista(), isbn, id, hoy) == Vista()
    {
      VistaReferenciada();
      var ps := Vista().prestamos;
      assert forall j :: 0 <= j < |ps| ==> !Coincide(ps[j], isbn, id);
    }

    /** The loan at `i` is the pair's first ACTIVO loan, so a return checks
        that loan's book, and fails with DevolucionExcedida exactly when
        every copy of it is on the shelf. */
    lemma PrimerActivoEn(isbn: string, id: int, i: nat)
      requires Valid() && i < |prestamos|
      requires Coincide(prestamos[i].Vista(), isbn, id)
      requires forall j :: 0 <= j < i ==> !Coincide(prestamos[j].Vista(), isbn, id)
      ensures Referencias(Vista()) && isbn in libros && id in usuarios
      ensures PrimerActivo(Vista().prestamos, isbn, id) == Some(i)
      ensures ErrorDeDevolucion(Vista(), isbn, id) ==
        if libros[isbn].Vista().PuedeDevolver() then None else Some(DevolucionExcedida)
    {
      VistaReferenciada();
      PrimerActivoEs(Vista().prestamos, isbn, id, i);
    }

    /** The borrower's and the loan's updates of a return, made after the
        book took its copy back, complete the model's return from the state
        `e` before it. */
    twostate lemma DevolucionRegistrada(new isbn: string, new id: int, new hoy: int, new i: nat, new e: Estado)
      requires old(Valid()) && Referencias(e) && PrimerActivo(e.prestamos, isbn, id) == Some(i)
      requires e.libros[isbn].PuedeDevolver()
      requires old(Vista()) == e.(libros := e.libros[isbn := e.libros[isbn].Devuelto()])
      requires libros == old(libros) && usuarios == old(usuarios) && prestamos == old(prestamos)
      requires i < |prestamos| && id in usuarios
      requires prestamos[i].Valid() && prestamos[i].Vista() == old(prestamos[i].Vista()).Cerrado(hoy)
      requires usuarios[id].Valid()
      requires usuarios[id].Vista() ==
        var u := old(usuarios[id].Vista()).SinLibro(isbn);
        if prestamos[i].multa > 0 then u.ConMulta(prestamos[i].multa) else u
      requires forall k :: k in libros ==> unchanged(libros[k])
      requires forall k :: k in usuarios && k != id ==> unchanged(usuarios[k])
      requires forall j :: 0 <= j < |prestamos| && j != i ==> unchanged(prestamos[j])
      ensures Valid()
      ensures Vista() == TrasDevolucion(e, isbn, id, hoy)
    {
      DevolucionEn(e, isbn, id, hoy, i);
      CatalogoIntacto(libros);
      RegistroTrasUno(usuarios, id);
      LedgerTrasUno(prestamos, i);
    }


    /** `actualizarEstadosPrestamos`: every loan of the ledger is marked
        against today. */
    method ActualizarEstadosPrestamos(hoy: int)
      requires Valid()
      modifies prestamos
      ensures Valid()
      ensures Vista() == TrasBarrido(old(Vista()), hoy)
    {
      var i := 0;
      while i < |prestamos|
        invariant 0 <= i <= |prestamos|
        invariant forall j :: 0 <= j < i ==>
          prestamos[j].Valid() && prestamos[j].Vista() == old(prestamos[j].Vista()).Marcado(hoy)
        invariant forall j :: i <= j < |prestamos| ==> unchanged(prestamos[j])
      {
        assert old(prestamos[i].Valid());
        prestamos[i].MarcarComoVencido(hoy);
        i := i + 1;
      }
      BarridoRegistrado(hoy);
    }

    /** The sweep's effects on the objects, as the model's sweep on the
        view. */
    twostate lemma BarridoRegistrado(new hoy: int)
      requires old(Valid())
      requires libros == old(libros) && usuarios == old(usuarios) && prestamos == old(prestamos)
      requires forall k :: k in libros ==> unchanged(libros[k])
      requires forall k :: k in usuarios ==> unchanged(usuarios[k])
      requires forall j :: 0 <= j < |prestamos| ==>
        prestamos[j].Valid() && prestamos[j].Vista() == old(prestamos[j].Vista()).Marcado(hoy)
      ensures Valid()
      ensures Vista() == TrasBarrido(old(Vista()), hoy)
    {
      forall k | k in libros
        ensures libros[k].Vista() == old(libros[k].Vista()) && libros[k].Valid()
      {
        assert unchanged(libros[k]);
      }
      forall k | k in usuarios
        ensures usuarios[k].Vista() == old(usuarios[k].Vista()) && usuarios[k].Valid()
      {
        assert unchanged(usuarios[k]);
      }
      assert VistasLibros(libros) == old(VistasLibros(libros));
      assert VistasUsuarios(usuarios) == old(VistasUsuarios(usuarios));
      assert VistasDe(prestamos) == MarcarTodos(old(VistasDe(prestamos)), hoy);
    }
  }
}
