/**
 * The text operations the catalogue relies on: Python's `str.lower`,
 * the substring test `a in b`, and the ordering `sorted` uses on names.
 */
module Texto {

  /** Upper-case letters that `str.lower` folds in this model: ASCII A-Z and the Latin-1 capitals À..Þ except ×. */
  predicate EsMayuscula(c: char)
  {
    ('A' <= c <= 'Z') || ('\U{C0}' <= c <= '\U{DE}' && c != '\U{D7}')
  }

  /** Lower-cases one character; in both ranges the small letter lies 32 code points above the capital. */
  function MinusculaDe(c: char): (r: char)
    ensures !EsMayuscula(r)
    ensures !EsMayuscula(c) ==> r == c
    ensures EsMayuscula(c) ==> r as int == c as int + 32
  {
    if EsMayuscula(c) then (c as int + 32) as char else c
  }

  /** `s.lower()`: same length, no capital left, every other character kept. */
  function Minusculas(s: string): (r: string)
    ensures |r| == |s|
    ensures forall i :: 0 <= i < |r| ==> !EsMayuscula(r[i])
    ensures forall i :: 0 <= i < |s| && !EsMayuscula(s[i]) ==> r[i] == s[i]
    ensures forall i :: 0 <= i < |s| && EsMayuscula(s[i]) ==> r[i] as int == s[i] as int + 32
  {
    seq(|s|, i requires 0 <= i < |s| => MinusculaDe(s[i]))
  }

  /** Lower-casing twice is lower-casing once. */
  lemma MinusculasIdempotente(s: string)
    ensures Minusculas(Minusculas(s)) == Minusculas(s)
  {
    var t := Minusculas(s);
    assert forall i :: 0 <= i < |t| ==> Minusculas(t)[i] == t[i];
  }

  /** `sub` occurs in `s` starting at position `i`. */
  ghost predicate Ocurre(s: string, sub: string, i: int)
  {
    0 <= i && i + |sub| <= |s| && s[i..i + |sub|] == sub
  }

  /** Python's `sub in s`: tries every starting position from the left. */
  function Contiene(s: string, sub: string): bool
    decreases |s|
  {
    if |sub| > |s| then false
    else if s[..|sub|] == sub then true
    else Contiene(s[1..], sub)
  }

  /** The substring test holds exactly when `sub` occurs somewhere in `s`. */
  lemma {:induction false} ContieneSiOcurre(s: string, sub: string)
    ensures Contiene(s, sub) <==> exists i :: Ocurre(s, sub, i)
    decreases |s|
  {
    if |sub| > |s| {
    } else if s[..|sub|] == sub {
      assert Ocurre(s, sub, 0);
    } else {
      ContieneSiOcurre(s[1..], sub);
      forall i | Ocurre(s[1..], sub, i)
        ensures Ocurre(s, sub, i + 1)
      {
        assert s[1..][i..i + |sub|] == s[i + 1..i + 1 + |sub|];
      }
      forall i | Ocurre(s, sub, i)
        ensures Ocurre(s[1..], sub, i - 1)
      {
        assert i != 0;
        assert s[1..][i - 1..i - 1 + |sub|] == s[i..i + |sub|];
      }
    }
  }

  /** The empty text occurs in every text (`"" in s` is true). */
  lemma ContieneVacio(s: string)
    ensures Contiene(s, "")
  {
  }

  /** Python's `a <= b` on strings: lexicographic by code point, a prefix before its extensions. */
  predicate MenorIgual(a: string, b: string)
  {
    if a == [] then true
    else if b == [] then false
    else if a[0] != b[0] then a[0] < b[0]
    else MenorIgual(a[1..], b[1..])
  }

  lemma {:induction false} MenorIgualReflexivo(a: string)
    ensures MenorIgual(a, a)
  {
    if a != [] {
      MenorIgualReflexivo(a[1..]);
    }
  }

  lemma {:induction false} MenorIgualTotal(a: string, b: string)
    ensures MenorIgual(a, b) || MenorIgual(b, a)
  {
    if a != [] && b != [] && a[0] == b[0] {
      MenorIgualTotal(a[1..], b[1..]);
    }
  }

  lemma {:induction false} MenorIgualAntisimetrico(a: string, b: string)
    requires MenorIgual(a, b) && MenorIgual(b, a)
    ensures a == b
  {
    if a != [] && b != [] {
      MenorIgualAntisimetrico(a[1..], b[1..]);
      assert a == [a[0]] + a[1..];
      assert b == [b[0]] + b[1..];
    }
  }

  lemma {:induction false} MenorIgualTransitivo(a: string, b: string, c: string)
    requires MenorIgual(a, b) && MenorIgual(b, c)
    ensures MenorIgual(a, c)
  {
    if a != [] && b != [] && c != [] && a[0] == b[0] && b[0] == c[0] {
      MenorIgualTransitivo(a[1..], b[1..], c[1..]);
    }
  }
}
