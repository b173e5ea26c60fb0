/** A catalog entry (`Libro`): its identifying data, validated once at
    construction, and the two counters that lending changes in place. */
module Libros {
  import opened Comun
  import opened Validacion

  /** The part of a catalog entry that lending reads and changes: total
      copies, available copies and the lifetime loan counter. */
  datatype LibroV = LibroV(totales: int, disponibles: int, contador: int)
  {
    /** `estaDisponible`: at least one copy is on the shelf. */
    predicate EstaDisponible()
    {
      disponibles > 0
    }

    /** The guard of `devolver`: fewer copies on the shelf than exist. */
    predicate PuedeDevolver()
    {
      disponibles < totales
    }

    /** Availability stays between zero and the total (the constructor
        accepts a negative total; then no copy can ever be lent or returned
        and availability stays equal to that total), and the copies out on
        loan never exceed the loans ever made. */
    predicate Inv()
    {
      Min(0, totales) <= disponibles <= totales
      && totales - disponibles <= contador
    }

    /** One copy leaves the shelf and one more loan is counted. */
    function Prestado(): (r: LibroV)
      ensures r.totales == totales
      ensures r.totales - r.disponibles == (totales - disponibles) + 1
      ensures r.contador == contador + 1
      ensures Inv() && EstaDisponible() ==> r.Inv()
    {
      this.(disponibles := disponibles - 1, contador := contador + 1)
    }

    /** One copy comes back to the shelf; the loan counter keeps its value. */
    function Devuelto(): (r: LibroV)
      ensures r.totales == totales && r.contador == contador
      ensures r.totales - r.disponibles == (totales - disponibles) - 1
      ensures Inv() && PuedeDevolver() ==> r.Inv()
    {
      this.(disponibles := disponibles + 1)
    }
  }

  /** A new entry has every copy on the shelf and no loans yet; it satisfies
      the invariant whatever total it is given. */
  function LibroNuevo(totales: int): (r: LibroV)
    ensures r.Inv() && !r.PuedeDevolver()
    ensures r.totales == totales && r.contador == 0
  {
    LibroV(totales, totales, 0)
  }

  /** Lending a copy and taking it back leaves the shelf as it was and adds
      one to the loan counter. */
  lemma PrestarYDevolver(l: LibroV)
    requires l.Inv() && l.EstaDisponible()
    ensures l.Prestado().PuedeDevolver()
    ensures l.Prestado().Devuelto() == l.(contador := l.contador + 1)
  {
  }

  class Libro {
    const isbn: string
    const titulo: string
    const autor: string
    const anio: int
    const ejemplaresTotales: int
    var ejemplaresDisponibles: int
    var contadorPrestamos: int

    function Vista(): LibroV
      reads this
    {
      LibroV(ejemplaresTotales, ejemplaresDisponibles, contadorPrestamos)
    }

    /** The ISBN and the year were validated when the entry was built, and
        the counters keep the entry invariant. */
    ghost predicate Valid()
      reads this
    {
      IsbnValido(isbn) && AnioMinimo <= anio && Vista().Inv()
    }

    /** Builds an entry whose data has already passed validation; `Crear`
        is the checked entry point. */
    constructor (isbn: string, titulo: string, autor: string, anio: int, ejemplaresTotales: int)
      requires IsbnValido(isbn) && AnioMinimo <= anio
      ensures this.isbn == isbn && this.titulo == titulo && this.autor == autor
      ensures this.anio == anio && this.ejemplaresTotales == ejemplaresTotales
      ensures Vista() == LibroNuevo(ejemplaresTotales)
      ensures Valid()
    {
      this.isbn := isbn;
      this.titulo := titulo;
      this.autor := autor;
      this.anio := anio;
      this.ejemplaresTotales := ejemplaresTotales;
      this.ejemplaresDisponibles := ejemplaresTotales;
      this.contadorPrestamos := 0;
    }

    /** The constructor of the library: the ISBN is checked first, then the
        year against the current year; an entry is built only when both
        pass. */
    static method Crear(isbn: string, titulo: string, autor: string, anio: int,
                        ejemplaresTotales: int, anioActual: int)
      returns (r: Result<Libro>)
      ensures !IsbnValido(isbn) ==> r == Failure(IsbnInvalido)
      ensures IsbnValido(isbn) && !AnioValido(anio, anioActual) ==> r == Failure(AnioInvalido)
      ensures IsbnValido(isbn) && AnioValido(anio, anioActual) ==>
        r.Success? && fresh(r.value) && r.value.Valid()
        && r.value.isbn == isbn && r.value.titulo == titulo && r.value.autor == autor
        && r.value.anio == anio && r.value.Vista() == LibroNuevo(ejemplaresTotales)
    {
      if !IsbnValido(isbn) {
        return Failure(IsbnInvalido);
      }
      if !AnioValido(anio, anioActual) {
        return Failure(AnioInvalido);
      }
      var libro := new Libro(isbn, titulo, autor, anio, ejemplaresTotales);
      r := Success(libro);
    }

    /** `estaDisponible`: an entry with a copy on the shelf has a positive
        total; for an entry built with a non-negative total, no copy is
        available exactly when all of them are out. */
    predicate EstaDisponible(): (r: bool)
      reads this
      ensures Valid() && r ==> 0 < ejemplaresDisponibles <= ejemplaresTotales
      ensures Valid() && 0 <= ejemplaresTotales ==> (!r <==> ejemplaresDisponibles == 0)
    {
      Vista().EstaDisponible()
    }

    /** `prestar`: fails when no copy is available and changes nothing;
        otherwise one copy fewer and one loan more. */
    method Prestar() returns (o: Outcome)
      requires Valid()
      modifies this
      ensures Valid()
      ensures o == if old(Vista()).EstaDisponible() then Ok else Fail(LibroNoDisponible)
      ensures Vista() == if o.Ok? then old(Vista()).Prestado() else old(Vista())
      ensures o.Fail? ==> unchanged(this)
    {
      if !EstaDisponible() {
        return Fail(LibroNoDisponible);
      }
      ejemplaresDisponibles := ejemplaresDisponibles - 1;
      contadorPrestamos := contadorPrestamos + 1;
      o := Ok;
    }

    /** `devolver`: fails when every copy is already on the shelf and
        changes nothing; otherwise one copy more. */
    method Devolver() returns (o: Outcome)
      requires Valid()
      modifies this
      ensures Valid()
      ensures o == if old(Vista()).PuedeDevolver() then Ok else Fail(DevolucionExcedida)
      ensures Vista() == if o.Ok? then old(Vista()).Devuelto() else old(Vista())
      ensures o.Fail? ==> unchanged(this)
    {
      if ejemplaresDisponibles >= ejemplaresTotales {
        return Fail(DevolucionExcedida);
      }
      ejemplaresDisponibles := ejemplaresDisponibles + 1;
      o := Ok;
    }
  }

  /** A catalog seen as values, entry by entry. */
  ghost function VistasLibros(m: map<string, Libro>): (r: map<string, LibroV>)
    reads m.Values
    ensures r.Keys == m.Keys
  {
    map k | k in m :: m[k].Vista()
  }

  /** Every entry is filed under its own ISBN and keeps its invariant. */
  ghost predicate CatalogoValido(m: map<string, Libro>)
    reads m.Values
  {
    forall k :: k in m ==> m[k].isbn == k && m[k].Valid()
  }

  /** When only the entry filed under `isbn` may have changed, the catalog
      view changes at that key alone and the catalog stays valid. */
  twostate lemma CatalogoTrasUno(m: map<string, Libro>, new isbn: string)
    requires isbn in m && old(CatalogoValido(m)) && m[isbn].Valid()
    requires forall k :: k in m && k != isbn ==> unchanged(m[k])
    ensures VistasLibros(m) == old(VistasLibros(m))[isbn := m[isbn].Vista()]
    ensures CatalogoValido(m)
  {
  }

  /** When no entry changed, neither did the catalog's view. */
  twostate lemma CatalogoIntacto(m: map<string, Libro>)
    requires forall k :: k in m ==> unchanged(m[k])
    ensures VistasLibros(m) == old(VistasLibros(m))
    ensures old(CatalogoValido(m)) ==> CatalogoValido(m)
  {
    forall k | k in m
      ensures m[k].Vista() == old(m[k].Vista())
    {
      assert unchanged(m[k]);
    }
  }

  /** Filing an object under a key changes the view at that key alone; an
      object filed under its own key keeps the collection valid. */
  lemma VistasLibrosPut(m: map<string, Libro>, isbn: string, x: Libro)
    ensures VistasLibros(m[isbn := x]) == VistasLibros(m)[isbn := x.Vista()]
    ensures CatalogoValido(m) && x.isbn == isbn && x.Valid() ==> CatalogoValido(m[isbn := x])
  {
  }
}

