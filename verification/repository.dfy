/** The repository query the service lists benefits with: every record whose
    `ativo` flag is set. */
module BeneficioRepository {
  import opened Beneficio

  /** A listed record together with its id. */
  datatype Row = Row(id: Id, beneficio: Beneficio)

  /** The row `r` shows a stored, active record exactly as stored. */
  predicate IsActiveRow(store: Store, r: Row) {
    r.id in store && store[r.id] == r.beneficio && r.beneficio.ativo
  }

  /** The ids of the active records. */
  function ActiveIds(store: Store): set<Id> {
    set id | id in store && store[id].ativo
  }

  /** No id is listed twice. */
  predicate DistinctIds(rows: seq<Row>) {
    forall i, j :: 0 <= i < j < |rows| ==> rows[i].id != rows[j].id
  }

  /** `findAllActive`: the query returns exactly the active records, each once,
      in no particular order (the query has no ORDER BY). */
  method FindAllActive(store: Store) returns (rows: seq<Row>)
    ensures forall r :: r in rows <==> IsActiveRow(store, r)
    ensures DistinctIds(rows)
  {
    rows := [];
    var pending := store.Keys;
    while pending != {}
      invariant pending <= store.Keys
      invariant forall r :: r in rows ==> IsActiveRow(store, r) && r.id !in pending
      invariant forall id :: id in store.Keys - pending && store[id].ativo ==> Row(id, store[id]) in rows
      invariant DistinctIds(rows)
      decreases pending
    {
      var id :| id in pending;
      if store[id].ativo {
        rows := rows + [Row(id, store[id])];
      }
      pending := pending - {id};
    }
  }
}
