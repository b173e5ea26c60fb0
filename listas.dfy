/** Sequence operations the library relies on: removing the first occurrence
    of an element (`List.remove(Object)` on a borrower's held books) and
    sequences without repeated elements. */
module Listas {

  /** No element occurs twice. */
  predicate Distintos<T(==)>(s: seq<T>)
  {
    forall i, j :: 0 <= i < j < |s| ==> s[i] != s[j]
  }

  /** `s` with its first occurrence of `x` taken out; `s` itself when `x`
      does not occur: one element shorter when `x` occurs, and nothing new
      appears. */
  function QuitarPrimero<T(==)>(s: seq<T>, x: T): (r: seq<T>)
    ensures x !in s ==> r == s
    ensures x in s ==> |r| == |s| - 1
    ensures forall y :: y in r ==> y in s
  {
    if s == [] then []
    else if s[0] == x then s[1..]
    else [s[0]] + QuitarPrimero(s[1..], x)
  }

  /** The reference definition: when `i` is the first index holding `x`, the
      result is `s` with position `i` cut out. */
  lemma {:induction false} QuitarPrimeroEnIndice<T>(s: seq<T>, x: T, i: nat)
    requires i < |s| && s[i] == x && x !in s[..i]
    ensures QuitarPrimero(s, x) == s[..i] + s[i + 1..]
  {
    if i > 0 {
      assert s[0] != x by { assert s[0] == s[..i][0]; }
      assert x !in s[1..][..i - 1] by { assert s[1..][..i - 1] == s[..i][1..]; }
      QuitarPrimeroEnIndice(s[1..], x, i - 1);
      assert s[1..][..i - 1] + s[1..][i..] == s[1..i] + s[i + 1..];
      assert [s[0]] + s[1..i] == s[..i];
    }
  }

  /** Exactly one occurrence of `x` leaves the multiset of elements when `x`
      occurs; nothing else changes. */
  lemma {:induction false} QuitarPrimeroMultiset<T>(s: seq<T>, x: T)
    ensures multiset(QuitarPrimero(s, x)) == multiset(s) - multiset{x}
  {
    if s != [] {
      assert s == [s[0]] + s[1..];
      if s[0] != x {
        QuitarPrimeroMultiset(s[1..], x);
      }
    }
  }

  /** `String.contains`: `t` occurs in `s` as a contiguous block, tried
      from the left. The empty text occurs everywhere, a prefix occurs, and
      nothing longer than `s` occurs in it. */
  function Contiene<T(==)>(s: seq<T>, t: seq<T>): (r: bool)
    ensures t == [] ==> r
    ensures |t| <= |s| && s[..|t|] == t ==> r
    ensures r ==> |t| <= |s|
    decreases |s|
  {
    |t| <= |s| && (s[..|t|] == t || Contiene(s[1..], t))
  }

  /** `t` starts at position `i` of `s`. */
  predicate OcurreEn<T(==)>(s: seq<T>, t: seq<T>, i: int)
  {
    0 <= i <= |s| - |t| && s[i..i + |t|] == t
  }

  /** The scan agrees with the definition of an occurrence: some position
      where `t` starts in `s`. */
  lemma {:induction false} ContieneSii<T>(s: seq<T>, t: seq<T>)
    ensures Contiene(s, t) <==> exists i :: OcurreEn(s, t, i)
    decreases |s|
  {
    if |t| <= |s| {
      if s[..|t|] == t {
        assert OcurreEn(s, t, 0);
      } else {
        ContieneSii(s[1..], t);
        if Contiene(s[1..], t) {
          var i :| OcurreEn(s[1..], t, i);
          assert s[i + 1..i + 1 + |t|] == s[1..][i..i + |t|];
          assert OcurreEn(s, t, i + 1);
        }
        if exists i :: OcurreEn(s, t, i) {
          var i :| OcurreEn(s, t, i);
          assert i > 0;
          assert s[1..][i - 1..i - 1 + |t|] == s[i..i + |t|];
          assert OcurreEn(s[1..], t, i - 1);
        }
      }
    }
  }

  /** `ContieneSii` for every text at once. */
  lemma ContieneSiiParaTodo<T>(t: seq<T>)
    ensures forall s: seq<T> {:trigger Contiene(s, t)} :: Contiene(s, t) <==> exists i :: OcurreEn(s, t, i)
  {
    forall s: seq<T>
      ensures Contiene(s, t) <==> exists i :: OcurreEn(s, t, i)
    {
      ContieneSii(s, t);
    }
  }
}
