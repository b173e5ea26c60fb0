/** A loan record (`Prestamo`): which book, which borrower, the dates, the
    status and the fine. Dates are day numbers; the caller supplies today's. */
module Prestamos {
  import opened Comun
  import opened Listas

  /** `EstadoPrestamo`: ACTIVO, DEVUELTO, VENCIDO. */
  datatype EstadoPrestamo = Activo | Devuelto | Vencido

  /** Whole days between the due day and the actual return day when the
      return is late, zero otherwise. */
  function DiasDeRetraso(vence: int, devuelto: int): (d: nat)
    ensures d > 0 <==> devuelto > vence
    ensures d > 0 ==> vence + d == devuelto
  {
    if devuelto > vence then devuelto - vence else 0
  }

  /** The fine policy: 500 for each whole day late, nothing for a return on
      or before the due day. */
  function MultaPorRetraso(vence: int, devuelto: int): (m: int)
    ensures m >= 0
    ensures m == 0 <==> devuelto <= vence
    ensures m % MultaPorDia == 0
  {
    MultaPorDia * DiasDeRetraso(vence, devuelto)
  }

  /** Each further day late adds exactly one day's fine, so a later return
      never costs less. */
  lemma MultaCreceConElRetraso(vence: int, devuelto: int)
    requires devuelto >= vence
    ensures MultaPorRetraso(vence, devuelto + 1) == MultaPorRetraso(vence, devuelto) + MultaPorDia
  {
  }

  /** A view of a loan as a value. */
  datatype PrestamoV = PrestamoV(isbn: string, usuario: int, inicio: int, vence: int,
                                 devolucionReal: Option<int>, estado: EstadoPrestamo, multa: int)
  {
    /** The due day is fourteen days after the start; a loan that has not
        been returned has no return date and no fine; a returned one has a
        return date and a fine that is not negative. */
    predicate Inv()
    {
      vence == inicio + DiasPrestamo
      && multa >= 0
      && (estado != Devuelto ==> devolucionReal == None && multa == 0)
      && (estado == Devuelto ==> devolucionReal.Some?)
    }

    /** `devolver` with `calcularMulta`: the status becomes DEVUELTO, the
        return day is recorded, and the fine is set only when the return is
        late (otherwise the previous fine stays, which for a loan not yet
        returned is zero). */
    function Cerrado(hoy: int): (r: PrestamoV)
      ensures r.estado == Devuelto && r.devolucionReal == Some(hoy)
      ensures r.isbn == isbn && r.usuario == usuario && r.inicio == inicio && r.vence == vence
      ensures Inv() ==> r.Inv()
      ensures Inv() && estado != Devuelto ==> r.multa == MultaPorRetraso(vence, hoy)
    {
      var multa' := if hoy > vence then MultaPorRetraso(vence, hoy) else multa;
      this.(devolucionReal := Some(hoy), estado := Devuelto, multa := multa')
    }

    /** `marcarComoVencido`: only the status may change, only from ACTIVO
        to VENCIDO, and only when today is past the due day. */
    function Marcado(hoy: int): (r: PrestamoV)
      ensures r == this.(estado := r.estado)
      ensures r.estado != estado <==> estado == Activo && hoy > vence
      ensures r.estado != estado ==> r.estado == Vencido
      ensures Inv() ==> r.Inv()
    {
      if estado == Activo && hoy > vence then this.(estado := Vencido) else this
    }
  }

  /** A new loan is ACTIVO, due fourteen days after it starts, with no
      return date and no fine. */
  function PrestamoNuevo(isbn: string, usuario: int, hoy: int): (p: PrestamoV)
    ensures p.Inv() && p.estado == Activo && p.inicio == hoy
    ensures p.isbn == isbn && p.usuario == usuario
  {
    PrestamoV(isbn, usuario, hoy, hoy + DiasPrestamo, None, Activo, 0)
  }

  /** Marking is idempotent and never touches a returned loan. */
  lemma MarcadoIdempotente(p: PrestamoV, hoy: int)
    ensures p.Marcado(hoy).Marcado(hoy) == p.Marcado(hoy)
    ensures p.estado == Devuelto ==> p.Marcado(hoy) == p
  {
  }

  /** The fines of the examples: returned on the due day costs nothing, one
      day later costs 500, and a loan started on day `d` and returned on day
      `d + 15` costs 500. */
  lemma EjemplosDeMulta(d: int)
    ensures PrestamoNuevo("", 0, d).Cerrado(d + DiasPrestamo).multa == 0
    ensures PrestamoNuevo("", 0, d).Cerrado(d + DiasPrestamo + 1).multa == MultaPorDia
    ensures PrestamoNuevo("", 0, d).Cerrado(d + 15).multa == 500
  {
  }

  class Prestamo {
    const isbnLibro: string
    const idUsuario: int
    const fechaPrestamo: int
    const fechaDevolucion: int
    var fechaDevolucionReal: Option<int>
    var estado: EstadoPrestamo
    var multa: int

    function Vista(): PrestamoV
      reads this
    {
      PrestamoV(isbnLibro, idUsuario, fechaPrestamo, fechaDevolucion,
                fechaDevolucionReal, estado, multa)
    }

    ghost predicate Valid()
      reads this
    {
      Vista().Inv()
    }

    /** A loan opened today. */
    constructor (isbnLibro: string, idUsuario: int, hoy: int)
      ensures Vista() == PrestamoNuevo(isbnLibro, idUsuario, hoy)
      ensures Valid()
    {
      this.isbnLibro := isbnLibro;
      this.idUsuario := idUsuario;
      this.fechaPrestamo := hoy;
      this.fechaDevolucion := hoy + DiasPrestamo;
      this.fechaDevolucionReal := None;
      this.estado := Activo;
      this.multa := 0;
    }

    /** `devolver`: records today as the return day, marks the loan
        DEVUELTO and computes the fine. */
    method Devolver(hoy: int)
      requires Valid()
      modifies this
      ensures Valid()
      ensures Vista() == old(Vista()).Cerrado(hoy)
    {
      fechaDevolucionReal := Some(hoy);
      estado := Devuelto;
      CalcularMulta();
    }

    /** `calcularMulta`: sets the fine only when the return day is after the
        due day. */
    method CalcularMulta()
      requires fechaDevolucionReal.Some?
      modifies this`multa
      ensures multa == if fechaDevolucionReal.value > fechaDevolucion
                       then MultaPorRetraso(fechaDevolucion, fechaDevolucionReal.value)
                       else old(multa)
    {
      if fechaDevolucionReal.value > fechaDevolucion {
        multa := MultaPorDia * (fechaDevolucionReal.value - fechaDevolucion);
      }
    }

    /** `marcarComoVencido`. */
    method MarcarComoVencido(hoy: int)
      requires Valid()
      modifies this
      ensures Valid()
      ensures Vista() == old(Vista()).Marcado(hoy)
    {
      if estado == Activo && hoy > fechaDevolucion {
        estado := Vencido;
      }
    }
  }

  /** The ledger seen as values, loan by loan. */
  ghost function VistasDe(ps: seq<Prestamo>): (r: seq<PrestamoV>)
    reads ps
    ensures |r| == |ps|
  {
    seq(|ps|, i requires 0 <= i < |ps| reads ps => ps[i].Vista())
  }

  /** Every loan keeps its invariant and none is recorded twice. */
  ghost predicate PrestamosValidos(ps: seq<Prestamo>)
    reads ps
  {
    (forall i :: 0 <= i < |ps| ==> ps[i].Valid()) && Distintos(ps)
  }

  /** A loan appended to the ledger appends its view. */
  lemma VistasDeAgrega(ps: seq<Prestamo>, p: Prestamo)
    ensures VistasDe(ps + [p]) == VistasDe(ps) + [p.Vista()]
  {
  }

  /** When no loan of the ledger changed, neither did its view. */
  twostate lemma LedgerIntacto(ps: seq<Prestamo>)
    requires forall i :: 0 <= i < |ps| ==> unchanged(ps[i])
    ensures VistasDe(ps) == old(VistasDe(ps))
    ensures old(PrestamosValidos(ps)) ==> PrestamosValidos(ps)
  {
  }

  /** When only the loan at `i` may have changed, the ledger's view
      changes at `i` alone and the ledger stays valid. */
  twostate lemma LedgerTrasUno(ps: seq<Prestamo>, new i: nat)
    requires i < |ps| && old(PrestamosValidos(ps)) && ps[i].Valid()
    requires forall j :: 0 <= j < |ps| && j != i ==> unchanged(ps[j])
    ensures VistasDe(ps) == old(VistasDe(ps))[i := ps[i].Vista()]
    ensures PrestamosValidos(ps)
  {
  }

  /** `obtenerPrestamosDeUsuario`'s filter: the loans of one borrower, in
      ledger order. */
  function PrestamosDe(ps: seq<Prestamo>, id: int): (r: seq<Prestamo>)
    ensures |r| <= |ps|
    ensures forall i :: 0 <= i < |r| ==> r[i] in ps && r[i].idUsuario == id
    ensures forall i :: 0 <= i < |ps| && ps[i].idUsuario == id ==> ps[i] in r
  {
    if ps == [] then []
    else if ps[0].idUsuario == id then [ps[0]] + PrestamosDe(ps[1..], id)
    else PrestamosDe(ps[1..], id)
  }

  /** The filter distributes over concatenation: filtering a ledger is
      filtering its parts and joining them in the same order, so the
      relative order of a borrower's loans is the ledger's order. */
  lemma {:induction false} PrestamosDeConcatena(ps: seq<Prestamo>, qs: seq<Prestamo>, id: int)
    ensures PrestamosDe(ps + qs, id) == PrestamosDe(ps, id) + PrestamosDe(qs, id)
  {
    if ps == [] {
      assert ps + qs == qs;
    } else {
      assert (ps + qs)[0] == ps[0] && (ps + qs)[1..] == ps[1..] + qs;
      PrestamosDeConcatena(ps[1..], qs, id);
      if ps[0].idUsuario == id {
        assert [ps[0]] + (PrestamosDe(ps[1..], id) + PrestamosDe(qs, id))
            == ([ps[0]] + PrestamosDe(ps[1..], id)) + PrestamosDe(qs, id);
      }
    }
  }

  /** Filtering a ledger that records no loan twice gives a list that
      records no loan twice. */
  lemma {:induction false} PrestamosDeDistintos(ps: seq<Prestamo>, id: int)
    requires Distintos(ps)
    ensures Distintos(PrestamosDe(ps, id))
  {
    if ps != [] {
      assert Distintos(ps[1..]);
      PrestamosDeDistintos(ps[1..], id);
      if ps[0].idUsuario == id {
        assert ps[0] !in ps[1..];
      }
    }
  }
}

