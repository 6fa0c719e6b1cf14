/**
 * The two read-only queries over the in-memory catalogue, as functions of
 * its rows in dictionary order: the case-insensitive name search and the
 * listing sorted by name.
 */
module Consultas {
  import opened Comun
  import opened Texto
  import opened Productos

  /** `consulta.lower() in nombre.lower()`. */
  predicate Coincide(nombre: string, consulta: string)
  {
    Contiene(Minusculas(nombre), Minusculas(consulta))
  }

  /** The test ignores case on both sides. */
  lemma CoincideSinMayusculas(nombre: string, consulta: string)
    ensures Coincide(nombre, consulta) == Coincide(Minusculas(nombre), consulta)
    ensures Coincide(nombre, consulta) == Coincide(nombre, Minusculas(consulta))
  {
    MinusculasIdempotente(nombre);
    MinusculasIdempotente(consulta);
  }

  /** The list comprehension of the search: the matching rows, in the order given. */
  function Filtrar(rs: seq<Registro>, consulta: string): (r: seq<Registro>)
    ensures forall x :: x in r <==> x in rs && Coincide(x.nombre, consulta)
    ensures Subsecuencia(r, rs)
  {
    if rs == [] then []
    else if Coincide(rs[0].nombre, consulta) then [rs[0]] + Filtrar(rs[1..], consulta)
    else Filtrar(rs[1..], consulta)
  }

  /** An empty query matches every row, since the empty text is in every name. */
  lemma {:induction false} FiltrarConsultaVacia(rs: seq<Registro>)
    ensures Filtrar(rs, "") == rs
  {
    if rs != [] {
      ContieneVacio(Minusculas(rs[0].nombre));
      assert Minusculas("") == "";
      FiltrarConsultaVacia(rs[1..]);
    }
  }

  /** Rows in ascending name order. */
  ghost predicate Ordenada(rs: seq<Registro>)
  {
    forall i, j :: 0 <= i < j < |rs| ==> MenorIgual(rs[i].nombre, rs[j].nombre)
  }

  /** The rows named exactly `n`, in the order given. */
  function ConNombre(rs: seq<Registro>, n: string): seq<Registro>
  {
    if rs == [] then []
    else (if rs[0].nombre == n then [rs[0]] else []) + ConNombre(rs[1..], n)
  }

  /** Places `x` before the first row whose name is not smaller than its own. */
  function Insertar(x: Registro, rs: seq<Registro>): (r: seq<Registro>)
    ensures multiset(r) == multiset(rs) + multiset{x}
  {
    if rs == [] || MenorIgual(x.nombre, rs[0].nombre) then [x] + rs
    else
      assert rs == [rs[0]] + rs[1..];
      [rs[0]] + Insertar(x, rs[1..])
  }

  lemma {:induction false} InsertarOrdenada(x: Registro, rs: seq<Registro>)
    requires Ordenada(rs)
    ensures Ordenada(Insertar(x, rs))
  {
    if rs == [] || MenorIgual(x.nombre, rs[0].nombre) {
      forall j | 0 <= j < |rs|
        ensures MenorIgual(x.nombre, rs[j].nombre)
      {
        if j > 0 {
          MenorIgualTransitivo(x.nombre, rs[0].nombre, rs[j].nombre);
        }
      }
    } else {
      MenorIgualTotal(x.nombre, rs[0].nombre);
      assert Ordenada(rs[1..]);
      InsertarOrdenada(x, rs[1..]);
      var t := Insertar(x, rs[1..]);
      forall j | 0 <= j < |t|
        ensures MenorIgual(rs[0].nombre, t[j].nombre)
      {
        assert t[j] in multiset(t);
        if t[j] != x {
          assert t[j] in multiset(rs[1..]);
          assert t[j] in rs[1..];
        }
      }
    }
  }

  /** Inserting does not reorder the rows that share a name with each other. */
  lemma {:induction false} InsertarEstable(x: Registro, rs: seq<Registro>, n: string)
    ensures ConNombre(Insertar(x, rs), n) == ConNombre([x] + rs, n)
  {
    assert ([x] + rs)[1..] == rs;
    if rs != [] && !MenorIgual(x.nombre, rs[0].nombre) {
      MenorIgualReflexivo(x.nombre);
      InsertarEstable(x, rs[1..], n);
      assert ([rs[0]] + Insertar(x, rs[1..]))[1..] == Insertar(x, rs[1..]);
      assert ([x] + rs[1..])[1..] == rs[1..];
      assert rs == [rs[0]] + rs[1..];
    }
  }

  /** `sorted(rows, key=nombre)`: a stable insertion sort. */
  function Ordenar(rs: seq<Registro>): (r: seq<Registro>)
    ensures multiset(r) == multiset(rs)
    ensures Ordenada(r)
  {
    if rs == [] then []
    else
      var t := Ordenar(rs[1..]);
      InsertarOrdenada(rs[0], t);
      assert rs == [rs[0]] + rs[1..];
      Insertar(rs[0], t)
  }

  /** Sorting is stable: rows with equal names keep their relative order. */
  lemma {:induction false} OrdenarEstable(rs: seq<Registro>)
    ensures forall n :: ConNombre(Ordenar(rs), n) == ConNombre(rs, n)
  {
    if rs != [] {
      OrdenarEstable(rs[1..]);
      forall n
        ensures ConNombre(Ordenar(rs), n) == ConNombre(rs, n)
      {
        InsertarEstable(rs[0], Ordenar(rs[1..]), n);
        assert ([rs[0]] + Ordenar(rs[1..]))[1..] == Ordenar(rs[1..]);
      }
    }
  }

  /** Sorting rows with distinct keys keeps the keys distinct. */
  lemma {:induction false} OrdenarIdsDistintos(rs: seq<Registro>)
    requires IdsDistintos(rs)
    ensures IdsDistintos(Ordenar(rs))
  {
    if rs != [] {
      OrdenarIdsDistintos(rs[1..]);
      var t := Ordenar(rs[1..]);
      forall r | r in t
        ensures r.id != rs[0].id
      {
        assert r in multiset(rs[1..]);
        var i :| 0 <= i < |rs[1..]| && rs[1..][i] == r;
        assert rs[i + 1] == r;
      }
      InsertarIdsDistintos(rs[0], t);
    }
  }

  lemma {:induction false} InsertarIdsDistintos(x: Registro, rs: seq<Registro>)
    requires IdsDistintos(rs)
    requires forall r :: r in rs ==> r.id != x.id
    ensures IdsDistintos(Insertar(x, rs))
  {
    if rs != [] && !MenorIgual(x.nombre, rs[0].nombre) {
      InsertarIdsDistintos(x, rs[1..]);
      var t := Insertar(x, rs[1..]);
      forall j | 0 <= j < |t|
        ensures t[j].id != rs[0].id
      {
        assert t[j] in multiset(t);
        if t[j] != x {
          assert t[j] in multiset(rs[1..]);
          var i :| 0 <= i < |rs[1..]| && rs[1..][i] == t[j];
          assert rs[i + 1] == t[j];
        }
      }
    }
  }
}
