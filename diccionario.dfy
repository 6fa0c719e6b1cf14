/**
 * Python's `dict`: a finite map that also remembers the order in which its
 * keys were first inserted, which is the order `values()` walks them in.
 */
module Diccionario {
  import opened Comun

  /** `claves` is the insertion order, `valores` the mapping itself. */
  datatype Dict<K(==, !new), V> = Dict(claves: seq<K>, valores: map<K, V>)
  {
    /** Each key is listed once, and exactly the mapped keys are listed. */
    ghost predicate Valid()
    {
      SinRepetidos(claves) && forall k :: k in valores <==> k in claves
    }

    /** `d[k] = v`: a new key goes last, a key already present keeps its place. */
    function Poner(k: K, v: V): (d: Dict<K, V>)
      requires Valid()
      ensures d.Valid()
      ensures d.valores == valores[k := v]
      ensures k in valores ==> d.claves == claves
      ensures k !in valores ==> d.claves == claves + [k]
    {
      Dict(if k in valores then claves else claves + [k], valores[k := v])
    }

    /** `del d[k]`: the key leaves the mapping and the order; the other keys keep their order. */
    function Quitar(k: K): (d: Dict<K, V>)
      requires Valid()
      ensures d.Valid()
      ensures d.valores == valores - {k}
      ensures d.claves == Sin(claves, k)
    {
      Dict(Sin(claves, k), valores - {k})
    }
  }

  /** As many keys in the order as in the mapping: `len(d)` counts either. */
  lemma TamanoClaves<K(!new), V>(d: Dict<K, V>)
    requires d.Valid()
    ensures |d.claves| == |d.valores|
  {
    CardinalSinRepetidos(d.claves);
    assert d.valores.Keys == set k | k in d.claves;
  }

  lemma {:induction false} CardinalSinRepetidos<K(!new)>(s: seq<K>)
    requires SinRepetidos(s)
    ensures |set k | k in s| == |s|
  {
    if s != [] {
      var t := s[1..];
      assert SinRepetidos(t);
      CardinalSinRepetidos(t);
      assert (set k | k in s) == (set k | k in t) + {s[0]};
      assert s[0] !in (set k | k in t);
    }
  }

  /** The empty `{}`. */
  function Vacio<K(==, !new), V>(): (d: Dict<K, V>)
    ensures d.Valid() && d.valores == map[] && d.claves == []
  {
    Dict([], map[])
  }

  /** `s` without `k`. */
  function Sin<K(==, !new)>(s: seq<K>, k: K): (r: seq<K>)
    ensures forall x :: x in r <==> x in s && x != k
    ensures SinRepetidos(s) ==> SinRepetidos(r)
    ensures k !in s ==> r == s
  {
    if s == [] then []
    else if s[0] == k then Sin(s[1..], k)
    else
      var resto := Sin(s[1..], k);
      assert SinRepetidos(s) ==> SinRepetidos(s[1..]) && s[0] !in s[1..];
      [s[0]] + resto
  }

  /** In an order without repeats, deleting a key cuts out exactly its one position. */
  lemma {:induction false} SinEnPosicion<K(!new)>(s: seq<K>, i: int)
    requires SinRepetidos(s) && 0 <= i < |s|
    ensures Sin(s, s[i]) == s[..i] + s[i + 1..]
  {
    var k := s[i];
    var t := s[1..];
    assert SinRepetidos(t);
    if i == 0 {
      assert k !in t;
      assert Sin(s, k) == Sin(t, k) == t;
      assert s[..0] + s[1..] == t;
    } else {
      SinEnPosicion(t, i - 1);
      assert t[i - 1] == k;
      assert s[0] != k;
      assert Sin(s, k) == [s[0]] + Sin(t, k);
      assert s[..i] == [s[0]] + t[..i - 1];
      assert s[i + 1..] == t[i..];
    }
  }
}
