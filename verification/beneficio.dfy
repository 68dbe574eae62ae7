/** The `Beneficio` entity and the store of all benefit records, keyed by id. */
module Beneficio {

  /** A Java `Long`: ids are 64-bit signed integers. */
  newtype Id = x: int | -0x8000_0000_0000_0000 <= x < 0x8000_0000_0000_0000

  /** One benefit balance. `valor` is a `BigDecimal` amount written as an
      integer count of the smallest currency unit (cents, say): the service
      only compares, adds and subtracts amounts, all exact. `version` is the
      optimistic-locking token, carried along but never interpreted. */
  datatype Beneficio = Beneficio(
    nome: string,
    descricao: string,
    valor: int,
    ativo: bool,
    version: int
  )

  /** Every persisted record, by id. */
  type Store = map<Id, Beneficio>

  /** No record holds a negative amount. */
  predicate NonNegative(store: Store) {
    forall id :: id in store ==> store[id].valor >= 0
  }

  /** The amounts of the records named by `ids`, added up. */
  ghost function ValorOver(store: Store, ids: set<Id>): int
    requires ids <= store.Keys
    decreases ids
  {
    if ids == {} then 0
    else
      var id :| id in ids;
      store[id].valor + ValorOver(store, ids - {id})
  }

  /** The value held by the whole store. */
  ghost function TotalValor(store: Store): int {
    ValorOver(store, store.Keys)
  }

  /** The sum does not depend on which id is taken out first: any member of
      `ids` can be split off. */
  lemma {:induction false} ValorOverSplit(store: Store, ids: set<Id>, k: Id)
    requires ids <= store.Keys
    requires k in ids
    ensures ValorOver(store, ids) == store[k].valor + ValorOver(store, ids - {k})
    decreases ids
  {
    var id :| id in ids && store[id].valor + ValorOver(store, ids - {id}) == ValorOver(store, ids);
    if id != k {
      ValorOverSplit(store, ids - {id}, k);
      ValorOverSplit(store, ids - {k}, id);
      assert ids - {id} - {k} == ids - {k} - {id};
    }
  }

  /** Two stores that agree on the amounts of `ids` give the same sum over them. */
  lemma {:induction false} ValorOverFrame(s1: Store, s2: Store, ids: set<Id>)
    requires ids <= s1.Keys && ids <= s2.Keys
    requires forall id :: id in ids ==> s1[id].valor == s2[id].valor
    ensures ValorOver(s1, ids) == ValorOver(s2, ids)
    decreases ids
  {
    if ids != {} {
      var id :| id in ids && s1[id].valor + ValorOver(s1, ids - {id}) == ValorOver(s1, ids);
      ValorOverSplit(s2, ids, id);
      ValorOverFrame(s1, s2, ids - {id});
    }
  }

  /** Replacing the amount of one existing record changes the total by exactly
      the difference of the two amounts. */
  lemma UpdateValorTotal(store: Store, id: Id, b: Beneficio)
    requires id in store
    ensures TotalValor(store[id := b]) == TotalValor(store) - store[id].valor + b.valor
  {
    var s' := store[id := b];
    assert s'.Keys == store.Keys;
    ValorOverSplit(store, store.Keys, id);
    ValorOverSplit(s', s'.Keys, id);
    ValorOverFrame(store, s', store.Keys - {id});
  }
}
