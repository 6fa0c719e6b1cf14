# Hardware-store inventory, modelled in Dafny

This project models the core of a small hardware-store catalogue. The class
`Inventario` keeps products in a SQLite table `productos` with an
AUTOINCREMENT key. It also keeps a dictionary `self.productos` in memory,
mapping each id to a `Producto` object. Every mutator issues one SQL
statement and mirrors the change into the dictionary only if that statement
did not fail. Removing and updating first refuse an id the dictionary does
not hold. Adding does not look at the dictionary: it goes straight to the
`INSERT` and relies on AUTOINCREMENT for a new key.

The two queries, the name search and the sorted listing, read the dictionary
alone.

Files:

- `comun.dfy` (module `Comun`): `Option`, no-repeats and subsequence predicates.
- `texto.dfy` (module `Texto`): what the catalogue needs from Python strings.
  - `str.lower` on ASCII and Latin-1 capitals;
  - the substring test `a in b`;
  - the ordering of strings by code point, which `sorted` and the listing use.
- `diccionario.dfy` (module `Diccionario`): a Python `dict`. It is a map together
  with its insertion order (`claves`).
  - Assigning to an existing key keeps that key's position.
  - Assigning to a new key appends it.
  - `del` cuts the key out of the order.
- `productos.dfy` (module `Productos`): the product entity.
  - `Producto` is a class with mutable fields.
  - `Fila` and `Registro` are a stored row without and with its key.
  - Also here: how a loop of `d[r.id] = r` turns a row list into a map, and back.
- `consultas.dfy` (module `Consultas`): the search filter and a stable sort by name.
- `almacen.dfy` (module `Almacen`): the table, as class `Tabla`.
  - `filas` holds the stored rows; `secuencia` is the AUTOINCREMENT counter.
  - There is one method per SQL statement the catalogue issues.
- `inventario.dfy`:
  - module `Ferreteria` holds the class `Inventario`;
  - module `Ejemplos` holds a few concrete sessions checked against the contracts alone.

Every SQL statement either takes full effect or fails and leaves the table
as it was. Whether it fails is the argument `falla`, supplied by the
environment. A connection that cannot be opened behaves the same way, since
the Python code then skips the whole `try` block.

The invariant `Inventario.Valid` (`Ferreteria.Coherente`) has four parts:

- the dictionary is well formed;
- each cached object carries its own key as `id`;
- every cached entry is a stored row with the same columns;
- the table's keys are all at most its sequence counter.

A successful load makes the cache equal to the table, and every mutator
preserves that equality. A failed load leaves the cache empty while the table
keeps its rows. That is why the general invariant is "contained in", not
"equal".

The dictionary entry is deleted only after the `DELETE` has been committed
(inventario.py:138-140). If the statement raises, the entry stays.

## Model

| member | source | states |
|---|---|---|
| Productos.Producto.constructor | inventario.py:27-32 | The new object holds exactly the given name, quantity, price and optional id (`None` by default). |
| Ferreteria.Inventario.constructor | inventario.py:51-59 | After construction the invariant holds and every cached object is new. A failed load gives an empty dictionary. Otherwise the cache equals the table and the rows sit in name order. |
| Ferreteria.Inventario.CargarProductos | inventario.py:91-108 | On success the dictionary maps each stored id to a fresh object with that row's columns, the dictionary order being name order. On failure the dictionary is empty. Either way it is consistent with the table. |
| Ferreteria.ArchivarTodas | inventario.py:100-103 | The loop files one new object per row. The key order is the rows' key order, and the view is the map the rows build. |
| Ferreteria.Archivar | inventario.py:102-103 | Filing a new object under a key not yet present appends the key, changes the view at that key only, and keeps the objects well formed. |
| Ferreteria.Inventario.AnadirProducto | inventario.py:110-126 | Succeeds exactly when the store does not fail and the counter is below 2^63-1. On success the new id is the counter plus one, it was not cached, and cache and table both gain the same row under it. The id is appended to the dictionary order with a fresh object. On failure nothing changes. Cache/table equality is preserved. |
| Ferreteria.Inventario.EliminarProducto | inventario.py:128-145 | An id not in the dictionary gives `NoExiste` and touches nothing. If the `DELETE` fails, nothing changes. Otherwise the id leaves both the table and the dictionary's map, the map loses nothing else, its order loses just that key, and the counter is kept. Cache/table equality is preserved. |
| Ferreteria.Inventario.ActualizarProducto | inventario.py:147-170 | An absent id gives `NoExiste`; a store failure changes nothing. Otherwise cache and table at that id get the new quantity and price. An argument left as `None` keeps the current value, and the name is kept. No other object changes and the dictionary itself is the same. |
| Ferreteria.Inventario.Registros | inventario.py:174 | The values of the dictionary in insertion order: one row per cached key, matching the view. |
| Ferreteria.Inventario.Buscar | inventario.py:172-178 | The result holds exactly the cached products whose lower-cased name contains the lower-cased query. They come in dictionary order, and the result may be empty. |
| Ferreteria.Inventario.Listado | inventario.py:185-195 | The result is a permutation of the cached products, sorted by name, and products with equal names keep their dictionary order. An empty dictionary gives an empty listing. |
| Consultas.Filtrar | inventario.py:174 | A row is in the result exactly when it is in the input and its name matches. The result keeps the input order. |
| Consultas.FiltrarConsultaVacia | inventario.py:174 | An empty query returns every row unchanged. |
| Consultas.CoincideSinMayusculas | inventario.py:174 | The match ignores case on either side. |
| Consultas.Insertar | inventario.py:192 | Inserting a row adds exactly that row to the multiset. |
| Consultas.InsertarOrdenada | inventario.py:192 | Inserting into a name-sorted list keeps it sorted. |
| Consultas.InsertarEstable | inventario.py:192 | Insertion does not reorder rows that share a name. |
| Consultas.Ordenar | inventario.py:192 | `sorted(..., key=nombre)`: the result is a permutation of the input and is sorted by name. |
| Consultas.OrdenarEstable | inventario.py:192 | The sort is stable: for every name, the rows with that name appear in their original order. |
| Consultas.OrdenarIdsDistintos | inventario.py:98 | Sorting rows with distinct keys keeps them distinct. |
| Consultas.InsertarIdsDistintos | inventario.py:98 | Inserting a row whose key is new keeps the keys distinct. |
| Texto.MinusculaDe | inventario.py:174 | Lower-casing one character leaves no capital. A non-capital is unchanged, and a capital moves 32 code points up. |
| Texto.Minusculas | inventario.py:174 | `str.lower()` keeps the length and leaves no capital. Every capital moves 32 code points up to its small letter, and every other character is kept. |
| Texto.MinusculasIdempotente | inventario.py:174 | Lower-casing twice is lower-casing once. |
| Texto.ContieneSiOcurre | inventario.py:174 | `sub in s` holds exactly when `sub` occurs at some position of `s`. |
| Texto.ContieneVacio | inventario.py:174 | The empty string is in every string. |
| Texto.MenorIgualReflexivo | inventario.py:192 | The name ordering is reflexive. |
| Texto.MenorIgualTotal | inventario.py:192 | Any two names are comparable. |
| Texto.MenorIgualAntisimetrico | inventario.py:192 | Names that each precede the other are equal. |
| Texto.MenorIgualTransitivo | inventario.py:192 | The name ordering is transitive. |
| Productos.ClavesSonIds | inventario.py:100-103 | The key order the loading loop builds holds exactly the rows' keys, and has no repeats when the rows' keys are distinct. |
| Productos.AnadirRegistro | inventario.py:100-103 | Appending a row with a new key keeps keys distinct and adds exactly that key and row to the map. |
| Productos.PrefijoSiguiente | inventario.py:100-103 | One more loop iteration: the next row's key is new and joins the order, and its columns join the map. |
| Productos.ComoMapaEn | inventario.py:100-103 | With distinct keys, the map built by `d[id] = row` has exactly the rows' keys, and each row sits under its own key. |
| Productos.PermutacionMismoMapa | inventario.py:98-103 | Two orderings of the same rows with distinct keys build the same map, so the `ORDER BY` changes only the dictionary order. |
| Productos.Enlistar | inventario.py:174 | Listing a key order against a map gives one row per key, in that order, each carrying the map's columns. |
| Productos.EnlistarComoMapa | inventario.py:98-103 | Loading rows with distinct keys and listing the values again gives the same rows back, in the same order. |
| Diccionario.Vacio | inventario.py:94 | `{}`: a well-formed dictionary with no entries and an empty key order. |
| Diccionario.Dict.Poner | inventario.py:103 | `d[k] = v`: the map gains `k := v`. An existing key keeps its position and a new one is appended. The dictionary stays well formed. |
| Diccionario.Dict.Quitar | inventario.py:140 | `del d[k]`: the map loses `k`, and the order loses `k` and nothing else. |
| Diccionario.Sin | inventario.py:140 | Removing a key from an order keeps every other key. It keeps the order free of repeats, and changes nothing when the key is absent. |
| Diccionario.SinEnPosicion | inventario.py:140 | In an order without repeats, removing a key cuts out exactly its one position. |
| Diccionario.TamanoClaves | inventario.py:188 | A well-formed dictionary has as many ordered keys as entries, so `not self.productos` means both are empty. |
| Diccionario.CardinalSinRepetidos | inventario.py:188 | A sequence without repeats has as many distinct elements as positions. |
| Almacen.Tabla.Insertar | inventario.py:116-119 | The `INSERT` fails on a store error or once the counter has reached 2^63-1. Otherwise it stores the row under the counter plus one, a key not used before, which becomes `lastrowid` and the new counter. |
| Almacen.Tabla.Borrar | inventario.py:138-139 | On success the row with that id is gone and nothing else changes. On failure nothing changes. |
| Almacen.Tabla.Actualizar | inventario.py:161-163 | On success a present row gets the new quantity and price and keeps its name. An absent id leaves the table unchanged. |
| Almacen.Tabla.SeleccionarTodo | inventario.py:98-99 | On success the result holds every stored row exactly once, with distinct keys, in ascending name order. On failure it is empty. |
| Almacen.HastaSiguiente | inventario.py:98-99 | Scanning one more key extends the scanned part of the table by that key's row, if it exists. |

## Left out

- SQL text, the SQLite engine and its I/O: the table is the class `Tabla`, one method per statement.
- `_crear_tabla` (inventario.py:71-89) is not modelled. The table is assumed to exist, empty (`Tabla.Vacia`) or already on disk (`Tabla.Abrir`).
- `db_path` and the connection handling are not modelled.
  - An unopenable connection and a raised `sqlite3.Error` are both the failure argument `falla`.
  - A failed statement is rolled back, because the connection closes before the commit.
- Printed messages are not modelled. Each mutator instead returns which outcome it printed (`Estado`).
- `buscar_producto_por_nombre` and `mostrar_inventario` print rather than return. The model returns the list they print, and the "no results" and "empty" messages correspond to an empty list.
- `Producto.__str__` and the formatting of prices are not modelled.
- Prices are Dafny `real`, not binary floating point. No arithmetic is done on them.
- Quantities are unbounded integers. SQLite's 64-bit INTEGER column, and the `OverflowError` Python raises for larger values, are not modelled.
- Texto.Minusculas: folds only ASCII and Latin-1 capitals, not the whole of Unicode's `str.lower` (for example, not Greek, Cyrillic or characters whose lower case is longer).
- Almacen.Tabla.SeleccionarTodo: for rows with equal names, SQLite's `ORDER BY nombre` promises no order. The model's order is one admissible choice, and the contract says only "sorted by name".
- Almacen.Tabla.SeleccionarTodo: SQLite compares names in BINARY collation, byte by byte in UTF-8. The model compares code points, which orders strings the same way.
- The interactive menu and the program's entry point (inventario.py:202 onward) are not modelled.
- Concurrent access to the database file from other processes is not modelled.
