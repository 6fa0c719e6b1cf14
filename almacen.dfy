/**
 * The durable table `productos(id INTEGER PRIMARY KEY AUTOINCREMENT, nombre,
 * cantidad, precio)` as the catalogue sees it. Every statement is one call
 * that either takes effect in full or, when the connection cannot be opened
 * or the engine raises, leaves the table as it was (an uncommitted statement
 * is rolled back when the connection closes). Whether it fails is the
 * argument `falla`, supplied by the environment.
 */
module Almacen {
  import opened Comun
  import opened Productos
  import opened Consultas

  /** The largest rowid SQLite assigns; AUTOINCREMENT fails once it has been used. */
  const MAX_ROWID: int := 0x7FFF_FFFF_FFFF_FFFF

  /** The rows whose key is below `n`. */
  function Hasta(m: map<int, Fila>, n: int): map<int, Fila>
  {
    map k | k in m && k < n :: m[k]
  }

  lemma HastaSiguiente(m: map<int, Fila>, n: int)
    ensures Hasta(m, n + 1) == if n in m then Hasta(m, n)[n := m[n]] else Hasta(m, n)
  {
  }

  class Tabla {
    /** The stored rows, by key. */
    var filas: map<int, Fila>
    /** The largest key ever assigned (the table's `sqlite_sequence` entry). */
    var secuencia: int

    ghost predicate Valid()
      reads this
    {
      0 <= secuencia <= MAX_ROWID && forall id :: id in filas ==> 1 <= id <= secuencia
    }

    /** A freshly created, empty table. */
    constructor Vacia()
      ensures Valid() && filas == map[] && secuencia == 0
    {
      filas := map[];
      secuencia := 0;
    }

    /** A table already on disk. */
    constructor Abrir(filas: map<int, Fila>, secuencia: int)
      requires 0 <= secuencia <= MAX_ROWID
      requires forall id :: id in filas ==> 1 <= id <= secuencia
      ensures Valid() && this.filas == filas && this.secuencia == secuencia
    {
      this.filas := filas;
      this.secuencia := secuencia;
    }

    /** `INSERT INTO productos (nombre, cantidad, precio)`; the result is `lastrowid`. */
    method Insertar(nombre: string, cantidad: int, precio: real, falla: bool) returns (id: Option<int>)
      requires Valid()
      modifies this
      ensures Valid()
      ensures id.Some? <==> !falla && old(secuencia) < MAX_ROWID
      ensures id.Some? ==> id.value == old(secuencia) + 1 && id.value !in old(filas)
      ensures id.Some? ==> filas == old(filas)[id.value := Fila(nombre, cantidad, precio)] && secuencia == id.value
      ensures id.None? ==> filas == old(filas) && secuencia == old(secuencia)
    {
      if falla || secuencia == MAX_ROWID {
        return None;
      }
      secuencia := secuencia + 1;
      filas := filas[secuencia := Fila(nombre, cantidad, precio)];
      id := Some(secuencia);
    }

    /** `DELETE FROM productos WHERE id = ?`. */
    method Borrar(id: int, falla: bool) returns (ok: bool)
      requires Valid()
      modifies this
      ensures Valid() && secuencia == old(secuencia)
      ensures ok == !falla
      ensures filas == if ok then old(filas) - {id} else old(filas)
    {
      if falla {
        return false;
      }
      filas := filas - {id};
      ok := true;
    }

    /** `UPDATE productos SET cantidad = ?, precio = ? WHERE id = ?`: the name is kept. */
    method Actualizar(id: int, cantidad: int, precio: real, falla: bool) returns (ok: bool)
      requires Valid()
      modifies this
      ensures Valid() && secuencia == old(secuencia)
      ensures ok == !falla
      ensures filas == if ok && id in old(filas)
                       then old(filas)[id := Fila(old(filas)[id].nombre, cantidad, precio)]
                       else old(filas)
    {
      if falla {
        return false;
      }
      if id in filas {
        filas := filas[id := Fila(filas[id].nombre, cantidad, precio)];
      }
      ok := true;
    }

    /**
     * `SELECT * FROM productos ORDER BY nombre ASC`: every row once, in
     * ascending name order; rows with equal names come in no promised order.
     */
    method SeleccionarTodo(falla: bool) returns (ok: bool, rs: seq<Registro>)
      requires Valid()
      ensures ok == !falla
      ensures ok ==> IdsDistintos(rs) && ComoMapa(rs) == filas && Ordenada(rs)
      ensures !ok ==> rs == []
    {
      if falla {
        return false, [];
      }
      // The table is scanned in rowid order, then sorted by name.
      var acc: seq<Registro> := [];
      for id := 1 to secuencia + 1
        invariant IdsDistintos(acc)
        invariant ComoMapa(acc) == Hasta(filas, id)
        invariant Ids(acc) == Hasta(filas, id).Keys
      {
        HastaSiguiente(filas, id);
        if id in filas {
          var r := RegistroDe(id, filas[id]);
          AnadirRegistro(acc, r);
          acc := acc + [r];
        }
      }
      assert Hasta(filas, secuencia + 1) == filas;
      rs := Ordenar(acc);
      OrdenarIdsDistintos(acc);
      PermutacionMismoMapa(acc, rs);
      ok := true;
    }
  }
}
