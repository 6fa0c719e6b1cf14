/**
 * The hardware-store catalogue: the class `Inventario`, which keeps a
 * dictionary of `Producto` objects keyed by id in step with the durable
 * table. Every mutator issues one statement to the table and mirrors the
 * change into the dictionary only when that statement did not fail. Removing
 * and updating first refuse an id the dictionary does not hold; adding goes
 * straight to the `INSERT` and relies on AUTOINCREMENT for a new key.
 * Printed messages are replaced by the returned `Estado`.
 */
module Ferreteria {
  import opened Comun
  import opened Diccionario
  import opened Productos
  import opened Consultas
  import opened Almacen

  /** Which message a mutator prints: success, "no product with that id", or a store error. */
  datatype Estado = Hecho | NoExiste | ErrorAlmacen

  /** Every cached entry is a stored row with the same columns. */
  ghost predicate SubMapa(a: map<int, Fila>, b: map<int, Fila>)
  {
    forall k :: k in a ==> k in b && a[k] == b[k]
  }

  /** The columns the objects of a dictionary currently hold, by key. */
  function VistaDe(d: Dict<int, Producto>): (v: map<int, Fila>)
    reads d.valores.Values
    ensures v.Keys == d.valores.Keys
  {
    map k | k in d.valores :: Fila(d.valores[k].nombre, d.valores[k].cantidad, d.valores[k].precio)
  }

  /**
   * Each entry's object carries its own key; so no object sits under two
   * keys, and updating one entry's object leaves the others alone.
   */
  ghost predicate ObjetosBienFormados(d: Dict<int, Producto>)
    reads d.valores.Values
  {
    forall k :: k in d.valores ==> d.valores[k].id == Some(k)
  }

  /**
   * The invariant between a dictionary and the table: the dictionary is well
   * formed and every entry is a stored row with the same columns. (A load that
   * fails leaves the dictionary empty while the table may hold rows, so
   * the two need not be equal.)
   */
  ghost predicate Coherente(d: Dict<int, Producto>, t: Tabla)
    reads t, d.valores.Values
  {
    && t.Valid()
    && d.Valid()
    && ObjetosBienFormados(d)
    && SubMapa(VistaDe(d), t.filas)
  }

  /** Writing the same row to both sides, or deleting the same key from both, keeps the cache inside the table. */
  lemma SubMapaMismoCambio(a: map<int, Fila>, b: map<int, Fila>, k: int, f: Fila)
    requires SubMapa(a, b)
    ensures SubMapa(a[k := f], b[k := f])
    ensures SubMapa(a - {k}, b - {k})
  {
  }

  /** Filing an object under a key changes the view at that key only. */
  lemma VistaPoner(d: Dict<int, Producto>, k: int, p: Producto)
    requires d.Valid()
    ensures VistaDe(d.Poner(k, p)) == VistaDe(d)[k := Fila(p.nombre, p.cantidad, p.precio)]
  {
  }

  /** Filing a new object under a new key keeps the objects well formed. */
  lemma BienFormadosPoner(d: Dict<int, Producto>, k: int, p: Producto)
    requires d.Valid() && ObjetosBienFormados(d)
    requires k !in d.valores && p !in d.valores.Values && p.id == Some(k)
    ensures ObjetosBienFormados(d.Poner(k, p))
  {
  }

  /** Deleting a key removes it from the view and nothing else. */
  lemma VistaQuitar(d: Dict<int, Producto>, k: int)
    requires d.Valid() && ObjetosBienFormados(d)
    ensures VistaDe(d.Quitar(k)) == VistaDe(d) - {k}
    ensures ObjetosBienFormados(d.Quitar(k))
  {
  }

  /** `d[id] = Producto(nombre, cantidad, precio, id)` for a key `d` does not hold yet. */
  method Archivar(d: Dict<int, Producto>, id: int, f: Fila) returns (e: Dict<int, Producto>)
    requires d.Valid() && ObjetosBienFormados(d) && id !in d.valores
    ensures e.Valid() && ObjetosBienFormados(e)
    ensures e.claves == d.claves + [id]
    ensures e.valores == d.valores[id := e.valores[id]] && fresh(e.valores[id])
    ensures VistaDe(e) == old(VistaDe(d))[id := f]
  {
    ghost var v0 := VistaDe(d);
    var p := new Producto(f.nombre, f.cantidad, f.precio, Some(id));
    assert VistaDe(d) == v0;
    assert ObjetosBienFormados(d);
    assert p !in d.valores.Values;
    VistaPoner(d, id, p);
    BienFormadosPoner(d, id, p);
    e := d.Poner(id, p);
  }

  /** The loading loop: files a new object for each row, in row order. */
  method ArchivarTodas(filas: seq<Registro>) returns (d: Dict<int, Producto>)
    requires IdsDistintos(filas)
    ensures d.Valid() && ObjetosBienFormados(d)
    ensures forall k :: k in d.valores ==> fresh(d.valores[k])
    ensures d.claves == Claves(filas)
    ensures VistaDe(d) == ComoMapa(filas)
  {
    d := Vacio();
    for i := 0 to |filas|
      invariant d.Valid() && ObjetosBienFormados(d)
      invariant forall k :: k in d.valores ==> fresh(d.valores[k])
      invariant d.claves == Claves(filas[..i])
      invariant VistaDe(d) == ComoMapa(filas[..i])
    {
      PrefijoSiguiente(filas, i);
      d := Archivar(d, filas[i].id, FilaDe(filas[i]));
    }
    assert filas[..|filas|] == filas;
  }

  class Inventario {
    /** The durable table. */
    const db: Tabla
    /** The in-memory dictionary `self.productos`. */
    var productos: Dict<int, Producto>

    ghost predicate Valid()
      reads this, db, productos.valores.Values
    {
      Coherente(productos, db)
    }

    /** The cache as a map from id to columns. */
    function Vista(): (v: map<int, Fila>)
      reads this, productos.valores.Values
      ensures v.Keys == productos.valores.Keys
    {
      VistaDe(productos)
    }

    /**
     * Builds the inventory over `db` and loads the dictionary from it; `falla`
     * says whether the load fails. After a failed load the dictionary is empty.
     */
    constructor (db: Tabla, falla: bool)
      requires db.Valid()
      ensures Valid() && this.db == db
      ensures forall k :: k in productos.valores ==> fresh(productos.valores[k])
      ensures falla ==> productos.claves == [] && Vista() == map[]
      ensures !falla ==> Vista() == db.filas && Ordenada(Registros())
    {
      this.db := db;
      productos := Vacio();
      new;
      var d := CargarProductos(falla);
      productos := d;
    }

    /**
     * `_cargar_productos`: reads every row, in name order, and files a new
     * `Producto` for each under its key.
     */
    method CargarProductos(falla: bool) returns (d: Dict<int, Producto>)
      requires db.Valid()
      ensures Coherente(d, db)
      ensures forall k :: k in d.valores ==> fresh(d.valores[k])
      ensures falla ==> d.claves == [] && d.valores == map[]
      ensures !falla ==> VistaDe(d) == db.filas && Ordenada(Enlistar(d.claves, VistaDe(d)))
    {
      d := Vacio();
      var ok, filas := db.SeleccionarTodo(falla);
      if ok {
        d := ArchivarTodas(filas);
        EnlistarComoMapa(filas);
      }
    }

    /** The cached rows in dictionary order (`self.productos.values()`). */
    function Registros(): (r: seq<Registro>)
      requires Valid()
      reads this, db, productos.valores.Values
      ensures Claves(r) == productos.claves
      ensures |r| == |Vista()|
      ensures forall x :: x in r <==> x.id in Vista() && FilaDe(x) == Vista()[x.id]
    {
      TamanoClaves(productos);
      Enlistar(productos.claves, Vista())
    }

    /**
     * `anadir_producto`: inserts the row; on success files a new object under
     * the id the table assigned, which is not yet in the dictionary.
     */
    method AnadirProducto(nombre: string, cantidad: int, precio: real, falla: bool) returns (estado: Estado)
      requires Valid()
      modifies this, db
      ensures Valid()
      ensures estado == (if !falla && old(db.secuencia) < MAX_ROWID then Hecho else ErrorAlmacen)
      ensures estado == Hecho ==>
        var id := old(db.secuencia) + 1;
        && id !in old(Vista())
        && Vista() == old(Vista())[id := Fila(nombre, cantidad, precio)]
        && productos.claves == old(productos.claves) + [id]
        && productos.valores == old(productos.valores)[id := productos.valores[id]]
        && fresh(productos.valores[id])
        && db.filas == old(db.filas)[id := Fila(nombre, cantidad, precio)]
        && db.secuencia == id
      ensures estado == ErrorAlmacen ==>
        productos == old(productos) && db.filas == old(db.filas) && db.secuencia == old(db.secuencia)
      ensures old(Vista() == db.filas) ==> Vista() == db.filas
    {
      ghost var v0, f0 := Vista(), db.filas;
      var id := db.Insertar(nombre, cantidad, precio, falla);
      assert Vista() == v0;
      if id.None? {
        return ErrorAlmacen;
      }
      var fila := Fila(nombre, cantidad, precio);
      SubMapaMismoCambio(v0, f0, id.value, fila);
      productos := Archivar(productos, id.value, fila);
      estado := Hecho;
    }

    /**
     * `eliminar_producto`: an id not in the dictionary is refused before the
     * table is touched; otherwise the entry goes only once the DELETE succeeded.
     */
    method EliminarProducto(id: int, falla: bool) returns (estado: Estado)
      requires Valid()
      modifies this, db
      ensures Valid()
      ensures estado == (if id !in old(productos.valores) then NoExiste else if falla then ErrorAlmacen else Hecho)
      ensures estado != Hecho ==> productos == old(productos) && db.filas == old(db.filas)
      ensures estado == Hecho ==>
        && Vista() == old(Vista()) - {id}
        && productos.valores == old(productos.valores) - {id}
        && productos.claves == Sin(old(productos.claves), id)
        && db.filas == old(db.filas) - {id}
      ensures db.secuencia == old(db.secuencia)
      ensures old(Vista() == db.filas) ==> Vista() == db.filas
    {
      if id !in productos.valores {
        return NoExiste;
      }
      ghost var v0, f0 := Vista(), db.filas;
      var ok := db.Borrar(id, falla);
      assert Vista() == v0;
      if !ok {
        return ErrorAlmacen;
      }
      VistaQuitar(productos, id);
      productos := productos.Quitar(id);
      assert Vista() == v0 - {id};
      assert db.filas == f0 - {id};
      SubMapaMismoCambio(v0, f0, id, Fila([], 0, 0.0));
      estado := Hecho;
    }

    /**
     * `actualizar_producto`: an absent id changes nothing; an argument left
     * as `None` keeps the current value; on success the cached object is
     * updated in place, and no other object changes.
     */
    method ActualizarProducto(id: int, falla: bool, cantidad: Option<int> := None, precio: Option<real> := None)
      returns (estado: Estado)
      requires Valid()
      modifies db, productos.valores.Values
      ensures Valid()
      ensures productos == old(productos)
      ensures estado == (if id !in productos.valores then NoExiste else if falla then ErrorAlmacen else Hecho)
      ensures estado != Hecho ==> Vista() == old(Vista()) && db.filas == old(db.filas)
      ensures estado == Hecho ==>
        var antes := old(Vista())[id];
        var despues := Fila(antes.nombre, cantidad.GetOr(antes.cantidad), precio.GetOr(antes.precio));
        && Vista() == old(Vista())[id := despues]
        && db.filas == old(db.filas)[id := despues]
      ensures forall k :: k in productos.valores && k != id ==> unchanged(productos.valores[k])
      ensures db.secuencia == old(db.secuencia)
      ensures old(Vista() == db.filas) ==> Vista() == db.filas
    {
      if id !in productos.valores {
        return NoExiste;
      }
      var actual := productos.valores[id];
      var nuevaCantidad := cantidad.GetOr(actual.cantidad);
      var nuevoPrecio := precio.GetOr(actual.precio);
      ghost var v0 := Vista();
      var ok := db.Actualizar(id, nuevaCantidad, nuevoPrecio, falla);
      assert Vista() == v0;
      if !ok {
        return ErrorAlmacen;
      }
      actual.cantidad := nuevaCantidad;
      actual.precio := nuevoPrecio;
      ghost var despues := Fila(actual.nombre, nuevaCantidad, nuevoPrecio);
      forall k | k in productos.valores
        ensures Vista()[k] == v0[id := despues][k]
      {
        if k != id {
          assert productos.valores[k] != actual;
        }
      }
      assert Vista() == v0[id := despues];
      estado := Hecho;
    }

    /**
     * `buscar_producto_por_nombre`: the cached products whose lower-cased
     * name contains the lower-cased query, in dictionary order; possibly none.
     */
    function Buscar(consulta: string): (r: seq<Registro>)
      requires Valid()
      reads this, db, productos.valores.Values
      ensures forall x :: x in r <==> x.id in Vista() && FilaDe(x) == Vista()[x.id] && Coincide(x.nombre, consulta)
      ensures Subsecuencia(r, Registros())
    {
      Filtrar(Registros(), consulta)
    }

    /**
     * `mostrar_inventario`: the cached products sorted by name; those with
     * equal names keep their dictionary order.
     */
    function Listado(): (r: seq<Registro>)
      requires Valid()
      reads this, db, productos.valores.Values
      ensures multiset(r) == multiset(Registros())
      ensures Ordenada(r)
      ensures forall n :: ConNombre(r, n) == ConNombre(Registros(), n)
    {
      OrdenarEstable(Registros());
      Ordenar(Registros())
    }
  }
}

/** A session against a fresh table, using only the contracts above. */
module Ejemplos {
  import opened Comun
  import opened Texto
  import opened Productos
  import opened Almacen
  import opened Ferreteria

  /** Add, search, partial update, refused and accepted removal, listing. */
  method Sesion()
  {
    var db := new Tabla.Vacia();
    var inv := new Inventario(db, false);
    assert inv.Vista() == map[];

    var e := inv.AnadirProducto("Hammer", 10, 4.50, false);
    assert e == Hecho;
    assert inv.Vista() == map[1 := Fila("Hammer", 10, 4.50)];

    // "ham" is found in "Hammer" once both are lower-cased.
    Encontrado(inv);

    CambiarCantidad(inv);
    Retirar(inv);
  }

  /** Leaving the price out keeps it. */
  method CambiarCantidad(inv: Inventario)
    requires inv.Valid() && inv.Vista() == map[1 := Fila("Hammer", 10, 4.50)]
    modifies inv.db, inv.productos.valores.Values
    ensures inv.Valid() && inv.Vista() == map[1 := Fila("Hammer", 7, 4.50)]
  {
    var e := inv.ActualizarProducto(1, false, Some(7));
    assert e == Hecho;
  }

  /** An absent id is refused; the present one goes, and the listing is then empty. */
  method Retirar(inv: Inventario)
    requires inv.Valid() && inv.Vista() == map[1 := Fila("Hammer", 7, 4.50)]
    modifies inv, inv.db
  {
    var e := inv.EliminarProducto(2, false);
    assert e == NoExiste;
    e := inv.EliminarProducto(1, false);
    assert e == Hecho;
    assert inv.Vista() == map[];
    var todos := inv.Listado();
    assert todos == [];
  }

  method Encontrado(inv: Inventario)
    requires inv.Valid() && inv.Vista() == map[1 := Fila("Hammer", 10, 4.50)]
  {
    assert Minusculas("Hammer") == "hammer";
    assert Minusculas("ham") == "ham";
    assert Ocurre("hammer", "ham", 0);
    ContieneSiOcurre("hammer", "ham");
    var hallados := inv.Buscar("ham");
    assert Registro(1, "Hammer", 10, 4.50) in hallados;
  }

  /** A row added and then reloaded comes back with the same columns. */
  method Reapertura()
  {
    var db := new Tabla.Vacia();
    var inv := new Inventario(db, false);
    var e := inv.AnadirProducto("Saw", 3, 12.0, false);
    assert e == Hecho && db.filas == map[1 := Fila("Saw", 3, 12.0)];
    var reabierto := new Inventario(db, false);
    assert reabierto.Vista()[1] == Fila("Saw", 3, 12.0);
  }
}
