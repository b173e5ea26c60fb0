/** A borrower (`Usuario`): identity and e-mail fixed at registration, the
    list of ISBNs currently held and the accumulated fine balance. */
module Usuarios {
  import opened Comun
  import opened Validacion
  import opened Listas

  /** The part of a borrower that lending reads and changes. */
  datatype UsuarioV = UsuarioV(prestados: seq<string>, multas: int)
  {
    /** `puedePedirPrestado`: fewer than three books held and a fine
        balance below 5000. */
    predicate PuedePedirPrestado()
    {
      |prestados| < MaxLibros && multas < MultaMaxima
    }

    /** A borrower never holds more than three books. */
    predicate Inv()
    {
      |prestados| <= MaxLibros
    }

    /** The ISBN is appended to the held list; fines are untouched. */
    function ConLibro(isbn: string): (r: UsuarioV)
      ensures |r.prestados| == |prestados| + 1 && r.prestados[..|prestados|] == prestados
      ensures r.prestados[|prestados|] == isbn && r.multas == multas
      ensures multiset(r.prestados) == multiset(prestados) + multiset{isbn}
      ensures PuedePedirPrestado() ==> r.Inv()
    {
      this.(prestados := prestados + [isbn])
    }

    /** One occurrence of the ISBN leaves the held list, if there is one. */
    function SinLibro(isbn: string): (r: UsuarioV)
      ensures multiset(r.prestados) == multiset(prestados) - multiset{isbn}
      ensures |r.prestados| == if isbn in prestados then |prestados| - 1 else |prestados|
      ensures r.multas == multas
      ensures Inv() ==> r.Inv()
    {
      QuitarPrimeroMultiset(prestados, isbn);
      this.(prestados := QuitarPrimero(prestados, isbn))
    }

    /** `agregarMulta`: the amount is added to the balance. */
    function ConMulta(multa: int): (r: UsuarioV)
      ensures r.prestados == prestados
      ensures r.multas - multas == multa
    {
      this.(multas := multas + multa)
    }

    /** `pagarMultas`: the balance is settled in full. */
    function Pagado(): (r: UsuarioV)
      ensures r.prestados == prestados && r.multas == 0
      ensures Inv() ==> r.Inv()
    {
      this.(multas := 0)
    }
  }

  /** A new borrower holds nothing, owes nothing and may borrow. */
  function UsuarioNuevo(): (r: UsuarioV)
    ensures r.Inv() && r.PuedePedirPrestado()
    ensures r.prestados == [] && r.multas == 0
  {
    UsuarioV([], 0)
  }

  /** With three books held, no fine balance lets the borrower take a
      fourth. */
  lemma TopeDeLibros(u: UsuarioV)
    requires u.Inv() && |u.prestados| == MaxLibros
    ensures !u.PuedePedirPrestado()
  {
  }

  /** The identifier sequence shared by every borrower (`CONTADOR_ID`):
      starts at 1 and only moves forward, so each value it hands out is
      above every value handed out before. */
  class ContadorId {
    var siguiente: int

    constructor ()
      ensures siguiente == 1
    {
      siguiente := 1;
    }

    /** `getAndIncrement`: returns the current value and advances. */
    method Tomar() returns (id: int)
      modifies this
      ensures id == old(siguiente) && siguiente == id + 1
    {
      id := siguiente;
      siguiente := siguiente + 1;
    }
  }

  class Usuario {
    const id: int
    const nombre: string
    const email: string
    var librosPrestados: seq<string>
    var multasAcumuladas: int

    function Vista(): UsuarioV
      reads this
    {
      UsuarioV(librosPrestados, multasAcumuladas)
    }

    /** The e-mail was validated at registration and at most three books
        are held. */
    ghost predicate Valid()
      reads this
    {
      EmailValido(email) && Vista().Inv()
    }

    /** Builds a borrower whose e-mail has already passed validation, with
        the next identifier of the shared sequence: every borrower's
        identifier is drawn from it. `Crear` is the checked entry point. */
    constructor (contador: ContadorId, nombre: string, email: string)
      requires EmailValido(email)
      modifies contador
      ensures id == old(contador.siguiente) && contador.siguiente == id + 1
      ensures this.nombre == nombre && this.email == email
      ensures Vista() == UsuarioNuevo()
      ensures Valid()
    {
      var siguiente := contador.Tomar();
      this.id := siguiente;
      this.nombre := nombre;
      this.email := email;
      this.librosPrestados := [];
      this.multasAcumuladas := 0;
    }

    /** The checked construction: the e-mail is validated before an
        identifier is drawn from the shared counter, so a rejected address
        consumes none. */
    static method Crear(contador: ContadorId, nombre: string, email: string) returns (r: Result<Usuario>)
      modifies contador
      ensures !EmailValido(email) ==> r == Failure(EmailInvalido) && contador.siguiente == old(contador.siguiente)
      ensures EmailValido(email) ==>
        r.Success? && fresh(r.value) && r.value.Valid()
        && r.value.id == old(contador.siguiente) && contador.siguiente == old(contador.siguiente) + 1
        && r.value.nombre == nombre && r.value.email == email
        && r.value.Vista() == UsuarioNuevo()
    {
      if !EmailValido(email) {
        return Failure(EmailInvalido);
      }
      var u := new Usuario(contador, nombre, email);
      r := Success(u);
    }

    /** `puedePedirPrestado`: an eligible borrower has room for one more
        book, and a valid borrower at the three-book bound is refused. */
    function PuedePedirPrestado(): (r: bool)
      reads this
      ensures r <==> |librosPrestados| < MaxLibros && multasAcumuladas < MultaMaxima
      ensures Valid() && |librosPrestados| == MaxLibros ==> !r
    {
      Vista().PuedePedirPrestado()
    }

    /** `agregarLibroPrestado`: refuses a borrower who may not borrow and
        changes nothing; otherwise appends the ISBN. */
    method AgregarLibroPrestado(isbn: string) returns (o: Outcome)
      requires Valid()
      modifies this
      ensures Valid()
      ensures o == if old(Vista()).PuedePedirPrestado() then Ok else Fail(UsuarioSinCupo)
      ensures Vista() == if o.Ok? then old(Vista()).ConLibro(isbn) else old(Vista())
    {
      if !PuedePedirPrestado() {
        return Fail(UsuarioSinCupo);
      }
      librosPrestados := librosPrestados + [isbn];
      o := Ok;
    }

    /** `removerLibroPrestado`: `List.remove(Object)`, which drops the first
        occurrence and ignores an absent ISBN. */
    method RemoverLibroPrestado(isbn: string)
      requires Valid()
      modifies this
      ensures Valid()
      ensures Vista() == old(Vista()).SinLibro(isbn)
    {
      ghost var antes := Vista();
      librosPrestados := QuitarPrimero(librosPrestados, isbn);
      assert Vista() == antes.SinLibro(isbn);
    }

    /** `agregarMulta`: the source adds whatever amount it is given. */
    method AgregarMulta(multa: int)
      requires Valid()
      modifies this
      ensures Valid()
      ensures Vista() == old(Vista()).ConMulta(multa)
    {
      multasAcumuladas := multasAcumuladas + multa;
    }

    /** `pagarMultas`: resets the balance to zero. */
    method PagarMultas()
      requires Valid()
      modifies this
      ensures Valid()
      ensures Vista() == old(Vista()).Pagado()
    {
      multasAcumuladas := 0;
    }
  }

  /** A registry seen as values, borrower by borrower. */
  ghost function VistasUsuarios(m: map<int, Usuario>): (r: map<int, UsuarioV>)
    reads m.Values
    ensures r.Keys == m.Keys
  {
    map k | k in m :: m[k].Vista()
  }

  /** Every borrower is filed under their own identifier and keeps their
      invariant. */
  ghost predicate RegistroValido(m: map<int, Usuario>)
    reads m.Values
  {
    forall k :: k in m ==> m[k].id == k && m[k].Valid()
  }

  /** When only the borrower filed under `id` may have changed, the
      registry view changes at that key alone and the registry stays
      valid. */
  twostate lemma RegistroTrasUno(m: map<int, Usuario>, new id: int)
    requires id in m && old(RegistroValido(m)) && m[id].Valid()
    requires forall k :: k in m && k != id ==> unchanged(m[k])
    ensures VistasUsuarios(m) == old(VistasUsuarios(m))[id := m[id].Vista()]
    ensures RegistroValido(m)
  {
    forall k | k in m && k != id
      ensures m[k].Vista() == old(m[k].Vista())
    {
      assert unchanged(m[k]);
    }
  }

  /** Filing an object under a key changes the view at that key alone; an
      object filed under its own key keeps the collection valid. */
  lemma VistasUsuariosPut(m: map<int, Usuario>, id: int, x: Usuario)
    ensures VistasUsuarios(m[id := x]) == VistasUsuarios(m)[id := x.Vista()]
    ensures RegistroValido(m) && x.id == id && x.Valid() ==> RegistroValido(m[id := x])
  {
  }

  /** When no borrower changed, neither did the registry's view. */
  twostate lemma RegistroIntacto(m: map<int, Usuario>)
    requires forall k :: k in m ==> unchanged(m[k])
    ensures VistasUsuarios(m) == old(VistasUsuarios(m))
    ensures old(RegistroValido(m)) ==> RegistroValido(m)
  {
    forall k | k in m
      ensures m[k].Vista() == old(m[k].Vista())
    {
      assert unchanged(m[k]);
    }
  }
}
