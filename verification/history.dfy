/** Sequences of calls into the service. Every call runs in its own
    transaction; a refused transfer throws before writing, so the store it
    leaves is the one it found. */
module ServiceHistory {
  import opened Wrappers
  import opened Beneficio
  import opened BeneficioRepository
  import opened BeneficioService

  /** A state-changing call into the service. */
  datatype Call =
    | TransferCall(fromId: Option<Id>, toId: Option<Id>, amount: Option<int>)
    | DeleteCall(id: Id)

  /** The store after one call. */
  function Step(store: Store, call: Call): Store {
    match call
    case TransferCall(f, t, a) => StoreAfter(store, Transfer(store, f, t, a))
    case DeleteCall(id) => Delete(store, id)
  }

  /** The store after a sequence of calls, in order. */
  function Replay(store: Store, calls: seq<Call>): Store
    decreases |calls|
  {
    if calls == [] then store else Replay(Step(store, calls[0]), calls[1..])
  }

  /** One call keeps the store's value, its ids, every record's display data,
      and never reactivates a record. */
  lemma StepInvariants(store: Store, call: Call)
    ensures TotalValor(Step(store, call)) == TotalValor(store)
    ensures NonNegative(store) ==> NonNegative(Step(store, call))
    ensures Step(store, call).Keys == store.Keys
    ensures ActiveIds(Step(store, call)) <= ActiveIds(store)
    ensures forall id :: id in store ==>
      && Step(store, call)[id].nome == store[id].nome
      && Step(store, call)[id].descricao == store[id].descricao
  {
    match call
    case TransferCall(f, t, a) =>
      if Transfer(store, f, t, a).Success? {
        TransferConservesTotal(store, f, t, a);
        if NonNegative(store) {
          TransferPreservesNonNegative(store, f, t, a);
        }
        TransferKeepsActiveIds(store, f, t, a);
      }
    case DeleteCall(id) =>
      DeleteConservesTotal(store, id);
      DeleteHidesOnlyTarget(store, id);
  }

  /** Over any sequence of transfers and deletes: the store's value is
      conserved, no amount turns negative, no record is physically removed, and
      no deleted record comes back into the listing. */
  lemma {:induction false} ReplayInvariants(store: Store, calls: seq<Call>)
    ensures TotalValor(Replay(store, calls)) == TotalValor(store)
    ensures NonNegative(store) ==> NonNegative(Replay(store, calls))
    ensures Replay(store, calls).Keys == store.Keys
    ensures ActiveIds(Replay(store, calls)) <= ActiveIds(store)
    decreases |calls|
  {
    if calls != [] {
      StepInvariants(store, calls[0]);
      ReplayInvariants(Step(store, calls[0]), calls[1..]);
    }
  }
}
