/**
 * The catalogue's entity: a product, both as a row of the durable table
 * and as the mutable object kept in memory.
 */
module Productos {
  import opened Comun

  /** The columns of one stored row apart from its key: name, quantity, price. */
  datatype Fila = Fila(nombre: string, cantidad: int, precio: real)

  /** A complete row, key included, as `SELECT *` yields it. */
  datatype Registro = Registro(id: int, nombre: string, cantidad: int, precio: real)

  function FilaDe(r: Registro): Fila
  {
    Fila(r.nombre, r.cantidad, r.precio)
  }

  function RegistroDe(id: int, f: Fila): Registro
  {
    Registro(id, f.nombre, f.cantidad, f.precio)
  }

  /** One stocked item. `id` is absent until the store has assigned one. */
  class Producto {
    var id: Option<int>
    var nombre: string
    var cantidad: int
    var precio: real

    constructor (nombre: string, cantidad: int, precio: real, id: Option<int> := None)
      ensures this.id == id && this.nombre == nombre
      ensures this.cantidad == cantidad && this.precio == precio
    {
      this.id := id;
      this.nombre := nombre;
      this.cantidad := cantidad;
      this.precio := precio;
    }
  }

  /** No two rows share a key (the table's primary key). */
  ghost predicate IdsDistintos(rs: seq<Registro>)
  {
    forall i, j :: 0 <= i < j < |rs| ==> rs[i].id != rs[j].id
  }

  function Ids(rs: seq<Registro>): set<int>
  {
    set r | r in rs :: r.id
  }

  /** The keys of the rows, in row order. */
  function Claves(rs: seq<Registro>): (ks: seq<int>)
    ensures |ks| == |rs|
    ensures forall i :: 0 <= i < |rs| ==> ks[i] == rs[i].id
  {
    seq(|rs|, i requires 0 <= i < |rs| => rs[i].id)
  }

  /**
   * The key order holds exactly the rows' keys, and has no repeats when the
   * rows' keys are distinct: a valid insertion order for a dictionary.
   */
  lemma ClavesSonIds(rs: seq<Registro>)
    ensures forall k :: k in Claves(rs) <==> k in Ids(rs)
    ensures IdsDistintos(rs) ==> SinRepetidos(Claves(rs))
  {
    var ks := Claves(rs);
    forall k | k in Ids(rs)
      ensures k in ks
    {
      var i :| 0 <= i < |rs| && rs[i].id == k;
      assert ks[i] == k;
    }
  }

  /**
   * What a loop over `rs` doing `d[r.id] = r` builds, starting from an empty
   * map: a later row with the same key overwrites an earlier one.
   */
  function ComoMapa(rs: seq<Registro>): map<int, Fila>
  {
    if rs == [] then map[]
    else ComoMapa(rs[..|rs| - 1])[rs[|rs| - 1].id := FilaDe(rs[|rs| - 1])]
  }

  /** Appending a row with a new key. */
  lemma AnadirRegistro(rs: seq<Registro>, r: Registro)
    requires IdsDistintos(rs) && r.id !in Ids(rs)
    ensures IdsDistintos(rs + [r])
    ensures Ids(rs + [r]) == Ids(rs) + {r.id}
    ensures ComoMapa(rs + [r]) == ComoMapa(rs)[r.id := FilaDe(r)]
  {
    forall i | 0 <= i < |rs|
      ensures rs[i].id != r.id
    {
      assert rs[i] in rs;
    }
    assert (rs + [r])[..|rs|] == rs;
    forall k | k in Ids(rs + [r])
      ensures k in Ids(rs) + {r.id}
    {
      var x :| x in rs + [r] && x.id == k;
      if x != r {
        assert x in rs;
      }
    }
  }

  /** One more row of a prefix: its key joins the order and its columns the map. */
  lemma PrefijoSiguiente(rs: seq<Registro>, i: int)
    requires IdsDistintos(rs) && 0 <= i < |rs|
    ensures rs[i].id !in Claves(rs[..i])
    ensures Claves(rs[..i + 1]) == Claves(rs[..i]) + [rs[i].id]
    ensures ComoMapa(rs[..i + 1]) == ComoMapa(rs[..i])[rs[i].id := FilaDe(rs[i])]
  {
    assert rs[..i + 1][..i] == rs[..i];
  }

  /** With distinct keys the map holds every row under its own key, and nothing else. */
  lemma {:induction false} ComoMapaEn(rs: seq<Registro>)
    requires IdsDistintos(rs)
    ensures ComoMapa(rs).Keys == Ids(rs)
    ensures forall r :: r in rs ==> ComoMapa(rs)[r.id] == FilaDe(r)
  {
    if rs != [] {
      var n := |rs| - 1;
      var pre := rs[..n];
      ComoMapaEn(pre);
      assert rs == pre + [rs[n]];
      forall r | r in rs
        ensures ComoMapa(rs)[r.id] == FilaDe(r)
      {
        if r != rs[n] {
          var i :| 0 <= i < |rs| && rs[i] == r;
          assert i < n;
          assert r in pre;
        }
      }
    }
  }

  /** Two orderings of the same rows, keys distinct, build the same map. */
  lemma PermutacionMismoMapa(a: seq<Registro>, b: seq<Registro>)
    requires multiset(a) == multiset(b)
    requires IdsDistintos(a) && IdsDistintos(b)
    ensures ComoMapa(a) == ComoMapa(b)
  {
    ComoMapaEn(a);
    ComoMapaEn(b);
    forall r | true
      ensures r in a <==> r in b
    {
      assert r in a <==> r in multiset(a);
      assert r in b <==> r in multiset(b);
    }
    assert Ids(a) == Ids(b);
  }

  /** The rows listed in the order of `ks`, each rebuilt from `v`. */
  function Enlistar(ks: seq<int>, v: map<int, Fila>): (rs: seq<Registro>)
    requires forall k :: k in ks ==> k in v
    ensures Claves(rs) == ks
    ensures forall r :: r in rs <==> r.id in ks && FilaDe(r) == v[r.id]
  {
    var rs := seq(|ks|, i requires 0 <= i < |ks| => RegistroDe(ks[i], v[ks[i]]));
    assert forall r: Registro :: r.id in ks && FilaDe(r) == v[r.id] ==> r in rs by {
      forall r: Registro | r.id in ks && FilaDe(r) == v[r.id]
        ensures r in rs
      {
        var i :| 0 <= i < |ks| && ks[i] == r.id;
        assert rs[i] == r;
      }
    }
    rs
  }

  /** Round trip: load rows with distinct keys into a map and a key order, list them again, and the rows come back unchanged. */
  lemma EnlistarComoMapa(rs: seq<Registro>)
    requires IdsDistintos(rs)
    ensures Ids(rs) == ComoMapa(rs).Keys
    ensures Enlistar(Claves(rs), ComoMapa(rs)) == rs
  {
    ComoMapaEn(rs);
    var back := Enlistar(Claves(rs), ComoMapa(rs));
    forall i | 0 <= i < |rs|
      ensures back[i] == rs[i]
    {
      assert rs[i] in rs;
      assert back[i].id == rs[i].id;
      assert back[i] in back;
    }
  }
}
