/** The construction-time validators of catalog entries and borrowers. The
    source checks ISBNs and e-mail addresses with regular expressions; here
    each pattern is written out as a predicate over characters, and the
    e-mail check, which scans the address once, is proved equal to the
    pattern's meaning. */
module Validacion {
  import opened Comun

  /** `\d` in a Java pattern without UNICODE_CHARACTER_CLASS: ASCII digits. */
  predicate EsDigito(c: char)
  {
    '0' <= c <= '9'
  }

  /** What the pattern `\d{n}` matches, read as the pattern reads: `n`
      times a digit, then the end of the string. */
  predicate Digitos(s: string, n: nat)
  {
    if n == 0 then s == [] else s != [] && EsDigito(s[0]) && Digitos(s[1..], n - 1)
  }

  /** `\d{n}` matches exactly the strings of `n` characters that are all
      digits. */
  lemma {:induction false} DigitosSii(s: string, n: nat)
    ensures Digitos(s, n) <==> |s| == n && forall i :: 0 <= i < |s| ==> EsDigito(s[i])
  {
    if n > 0 && s != [] {
      DigitosSii(s[1..], n - 1);
      assert forall i :: 1 <= i < |s| ==> s[i] == s[1..][i - 1];
    }
  }

  /** An ISBN is thirteen ASCII digits, which is exactly what `\d{13}`
      matches. */
  predicate IsbnValido(isbn: string): (r: bool)
    ensures r <==> Digitos(isbn, 13)
  {
    DigitosSii(isbn, 13);
    |isbn| == 13 && forall i :: 0 <= i < |isbn| ==> EsDigito(isbn[i])
  }

  /** A publication year lies between 1000 and the current year, inclusive:
      the year is refused exactly when it is below 1000 or after the current
      year, so before the year 1000 no year passes. */
  predicate AnioValido(anio: int, anioActual: int): (r: bool)
    ensures r <==> !(anio < AnioMinimo || anio > anioActual)
    ensures anioActual < AnioMinimo ==> !r
  {
    AnioMinimo <= anio <= anioActual
  }

  /** The character class `[A-Za-z0-9+_.-]` of the e-mail's local part. */
  predicate CaracterLocal(c: char)
  {
    ('A' <= c <= 'Z') || ('a' <= c <= 'z') || ('0' <= c <= '9')
    || c == '+' || c == '_' || c == '.' || c == '-'
  }

  /** The characters `.` does not match in a Java pattern compiled without
      DOTALL: the line terminators. */
  predicate FinDeLinea(c: char)
  {
    c == '\n' || c == '\r' || c == '\U{0085}' || c == '\U{2028}' || c == '\U{2029}'
  }

  /** Length of the longest prefix of `s` made of local-part characters. */
  function LongitudLocal(s: string): (k: nat)
    ensures k <= |s|
    ensures forall j :: 0 <= j < k ==> CaracterLocal(s[j])
    ensures k < |s| ==> !CaracterLocal(s[k])
  {
    if s == [] || !CaracterLocal(s[0]) then 0 else 1 + LongitudLocal(s[1..])
  }

  /** The e-mail check, in one pass: a non-empty run of local-part
      characters, then `@`, then at least one character, none of which is a
      line terminator. It accepts exactly the strings that
      `email.matches("^[A-Za-z0-9+_.-]+@(.+)$")` accepts. */
  predicate EmailValido(email: string): (r: bool)
    ensures r <==> CoincideConPatron(email)
  {
    LongitudLocalDecidePatron(email);
    var k := LongitudLocal(email);
    0 < k && k + 1 < |email| && email[k] == '@'
    && forall j :: k < j < |email| ==> !FinDeLinea(email[j])
  }

  /** What `email.matches("^[A-Za-z0-9+_.-]+@(.+)$")` means: the whole string
      splits at some `@` into a non-empty local part drawn from the class and
      a non-empty rest free of line terminators. */
  ghost predicate CoincideConPatron(email: string)
  {
    exists i :: 0 < i < |email| - 1 && email[i] == '@'
      && (forall j :: 0 <= j < i ==> CaracterLocal(email[j]))
      && (forall j :: i < j < |email| ==> !FinDeLinea(email[j]))
  }

  /** The pattern matches exactly when the longest local run is non-empty,
      is followed by `@` and then by a non-empty rest free of line
      terminators. The split is forced: `@` is not a local-part character,
      so the only `@` the pattern can use is the first character after the
      longest local run. */
  lemma LongitudLocalDecidePatron(email: string)
    ensures CoincideConPatron(email) <==>
      var k := LongitudLocal(email);
      0 < k && k + 1 < |email| && email[k] == '@'
      && forall j :: k < j < |email| ==> !FinDeLinea(email[j])
  {
    var k := LongitudLocal(email);
    if 0 < k && k + 1 < |email| && email[k] == '@'
       && forall j :: k < j < |email| ==> !FinDeLinea(email[j]) {
      assert 0 < k < |email| - 1 && email[k] == '@';
    }
    if CoincideConPatron(email) {
      var i :| 0 < i < |email| - 1 && email[i] == '@'
        && (forall j :: 0 <= j < i ==> CaracterLocal(email[j]))
        && (forall j :: i < j < |email| ==> !FinDeLinea(email[j]));
      assert !CaracterLocal(email[i]);
      assert k == i;
    }
  }

  /** The ISBN examples: thirteen digits are accepted, "123" is not. */
  lemma EjemplosDeIsbn()
    ensures IsbnValido("9780132350884")
    ensures !IsbnValido("123")
  {
  }

  /** The e-mail example "ana@email.com" is an address. */
  lemma EjemploDeEmailValido()
    ensures EmailValido("ana@email.com")
  {
    EmailCompuesto("ana", "email.com");
    assert "ana" + "@" + "email.com" == "ana@email.com";
  }

  /** A run of local-part characters followed by a character outside the
      class: the run is the longest local prefix. */
  lemma {:induction false} LongitudLocalTras(p: string, s: string)
    requires forall j :: 0 <= j < |p| ==> CaracterLocal(p[j])
    requires s != [] && !CaracterLocal(s[0])
    ensures LongitudLocal(p + s) == |p|
  {
    if p == [] {
      assert p + s == s;
    } else {
      assert (p + s)[1..] == p[1..] + s;
      LongitudLocalTras(p[1..], s);
    }
  }

  /** Any non-empty local part from the class, then `@`, then a non-empty
      rest without line terminators, is an address. */
  lemma EmailCompuesto(local: string, dominio: string)
    requires |local| > 0 && forall j :: 0 <= j < |local| ==> CaracterLocal(local[j])
    requires |dominio| > 0 && forall j :: 0 <= j < |dominio| ==> !FinDeLinea(dominio[j])
    ensures EmailValido(local + "@" + dominio)
  {
    var e := local + "@" + dominio;
    assert e == local + ("@" + dominio);
    LongitudLocalTras(local, "@" + dominio);
    forall j | |local| < j < |e|
      ensures !FinDeLinea(e[j])
    {
      assert e[j] == dominio[j - |local| - 1];
    }
  }

  /** Addresses the check refuses: "ana@" has nothing after the `@` and
      "@email.com" has an empty local part. */
  lemma EjemplosDeEmailInvalido()
    ensures !EmailValido("ana@")
    ensures !EmailValido("@email.com")
  {
    assert LongitudLocal("@") == 0;
    assert LongitudLocal("a@") == 1 by { assert "a@"[1..] == "@"; }
    assert LongitudLocal("na@") == 2 by { assert "na@"[1..] == "a@"; }
    assert LongitudLocal("ana@") == 3 by { assert "ana@"[1..] == "na@"; }
    assert LongitudLocal("@email.com") == 0;
  }
}
