/** The business rules of `BeneficioService`: listing, soft delete, and the
    checked transfer of value between two benefit records. */
module BeneficioService {
  import opened Wrappers
  import opened Beneficio
  import opened BeneficioRepository

  /** Why a transfer is refused. Each variant is one `IllegalArgumentException`
      the service throws, carrying the data its message reports. */
  datatype TransferError =
    | NullArguments                                // an id or the amount is null
    | NonPositiveAmount                            // amount <= 0
    | SameBeneficio                                // fromId equals toId
    | SourceNotFound(id: Id)                       // no record with fromId
    | DestinationNotFound(id: Id)                  // no record with toId
    | SourceInactive                               // source record has ativo = false
    | DestinationInactive                          // destination record has ativo = false
    | InsufficientFunds(current: int, requested: int)  // source valor < amount

  /** `findAll`: delegates to the repository's active-records query. */
  method FindAll(store: Store) returns (rows: seq<Row>)
    ensures forall r :: r in rows <==> IsActiveRow(store, r)
    ensures DistinctIds(rows)
  {
    rows := FindAllActive(store);
  }

  /** `delete`: a soft delete. An existing record keeps everything but its
      `ativo` flag, which is cleared; a missing id changes nothing. */
  function Delete(store: Store, id: Id): (r: Store)
    ensures r.Keys == store.Keys
    ensures id in store ==>
      && !r[id].ativo
      && r[id].valor == store[id].valor
      && r[id].nome == store[id].nome
      && r[id].descricao == store[id].descricao
      && r[id].version == store[id].version
    ensures forall other :: other in store && other != id ==> r[other] == store[other]
  {
    if id in store then store[id := store[id].(ativo := false)] else store
  }

  /** `transfer`: checks the arguments, then both records, then the funds, and
      only when every check passes debits the source and credits the
      destination. A refused transfer yields the error of the first failed
      check and no new store. */
  function Transfer(store: Store, fromId: Option<Id>, toId: Option<Id>, amount: Option<int>)
    : (r: Result<Store, TransferError>)
    ensures r.Success? ==>
      && fromId.Some? && toId.Some? && amount.Some?
      && var f, t, a, s' := fromId.value, toId.value, amount.value, r.value;
      && f in store && t in store && f != t
      && s'.Keys == store.Keys
      // value moves from source to destination, and their sum is kept
      && s'[f].valor == store[f].valor - a
      && s'[t].valor == store[t].valor + a
      && s'[f].valor + s'[t].valor == store[f].valor + store[t].valor
      // the debit never overdraws the source; the credit strictly increases the destination
      && s'[f].valor >= 0
      && s'[t].valor > store[t].valor
      // nothing but the two amounts changes
      && (forall id :: id in store ==>
            && s'[id].nome == store[id].nome
            && s'[id].descricao == store[id].descricao
            && s'[id].ativo == store[id].ativo
            && s'[id].version == store[id].version)
      && (forall id :: id in store && id != f && id != t ==> s'[id] == store[id])
  {
    if fromId.None? || toId.None? || amount.None? then Failure(NullArguments)
    else
      var f, t, a := fromId.value, toId.value, amount.value;
      if a <= 0 then Failure(NonPositiveAmount)
      else if f == t then Failure(SameBeneficio)
      else if f !in store then Failure(SourceNotFound(f))
      else if t !in store then Failure(DestinationNotFound(t))
      else
        var from, to := store[f], store[t];
        if !from.ativo then Failure(SourceInactive)
        else if !to.ativo then Failure(DestinationInactive)
        else if from.valor < a then Failure(InsufficientFunds(from.valor, a))
        else
          Success(store[f := from.(valor := from.valor - a)][t := to.(valor := to.valor + a)])
  }

  /** The store a caller observes after a transfer: the new store on success,
      and, since every refusal is thrown before anything is written, the old
      store otherwise. */
  function StoreAfter(store: Store, r: Result<Store, TransferError>): Store {
    if r.Success? then r.value else store
  }

  // ---------------------------------------------------------------------
  // The transfer checks as an independent, ordered list
  // ---------------------------------------------------------------------

  /** The checks `transfer` performs, in the order it performs them. */
  datatype Check =
    | ArgumentsPresent | AmountPositive | IdsDistinct
    | SourceExists | DestinationExists
    | SourceActive | DestinationActive
    | FundsSufficient

  const Checks: seq<Check> := [
    ArgumentsPresent, AmountPositive, IdsDistinct,
    SourceExists, DestinationExists,
    SourceActive, DestinationActive,
    FundsSufficient
  ]

  /** Whether check `c` passes, each judged on its own. A check that needs an
      argument or a record that is missing counts as failed. */
  predicate Passes(c: Check, store: Store, fromId: Option<Id>, toId: Option<Id>, amount: Option<int>) {
    match c
    case ArgumentsPresent => fromId.Some? && toId.Some? && amount.Some?
    case AmountPositive => amount.Some? && amount.value > 0
    case IdsDistinct => fromId.Some? && toId.Some? && fromId.value != toId.value
    case SourceExists => fromId.Some? && fromId.value in store
    case DestinationExists => toId.Some? && toId.value in store
    case SourceActive => fromId.Some? && fromId.value in store && store[fromId.value].ativo
    case DestinationActive => toId.Some? && toId.value in store && store[toId.value].ativo
    case FundsSufficient =>
      fromId.Some? && fromId.value in store && amount.Some? && store[fromId.value].valor >= amount.value
  }

  /** `e` is the error the service reports when check `c` fails. */
  predicate Reports(c: Check, e: TransferError, store: Store, fromId: Option<Id>, toId: Option<Id>, amount: Option<int>) {
    match c
    case ArgumentsPresent => e == NullArguments
    case AmountPositive => e == NonPositiveAmount
    case IdsDistinct => e == SameBeneficio
    case SourceExists => fromId.Some? && e == SourceNotFound(fromId.value)
    case DestinationExists => toId.Some? && e == DestinationNotFound(toId.value)
    case SourceActive => e == SourceInactive
    case DestinationActive => e == DestinationInactive
    case FundsSufficient =>
      fromId.Some? && fromId.value in store && amount.Some?
      && e == InsufficientFunds(store[fromId.value].valor, amount.value)
  }

  /** Check number `i` is the first that fails. */
  predicate FirstFailure(i: int, store: Store, fromId: Option<Id>, toId: Option<Id>, amount: Option<int>) {
    && 0 <= i < |Checks|
    && !Passes(Checks[i], store, fromId, toId, amount)
    && forall j :: 0 <= j < i ==> Passes(Checks[j], store, fromId, toId, amount)
  }

  /** A transfer succeeds exactly when every check passes. */
  lemma TransferSucceedsIffAllChecksPass(store: Store, fromId: Option<Id>, toId: Option<Id>, amount: Option<int>)
    ensures Transfer(store, fromId, toId, amount).Success?
        <==> forall i :: 0 <= i < |Checks| ==> Passes(Checks[i], store, fromId, toId, amount)
  {
    if !Transfer(store, fromId, toId, amount).Success? {
      var i := FirstFailureIndex(store, fromId, toId, amount);
      assert !Passes(Checks[i], store, fromId, toId, amount);
    }
  }

  /** When a transfer is refused, some check fails: the index of the first one. */
  function FirstFailureIndex(store: Store, fromId: Option<Id>, toId: Option<Id>, amount: Option<int>): (i: int)
    requires Transfer(store, fromId, toId, amount).Failure?
    ensures FirstFailure(i, store, fromId, toId, amount)
    ensures Reports(Checks[i], Transfer(store, fromId, toId, amount).error, store, fromId, toId, amount)
  {
    if !Passes(ArgumentsPresent, store, fromId, toId, amount) then 0
    else if !Passes(AmountPositive, store, fromId, toId, amount) then 1
    else if !Passes(IdsDistinct, store, fromId, toId, amount) then 2
    else if !Passes(SourceExists, store, fromId, toId, amount) then 3
    else if !Passes(DestinationExists, store, fromId, toId, amount) then 4
    else if !Passes(SourceActive, store, fromId, toId, amount) then 5
    else if !Passes(DestinationActive, store, fromId, toId, amount) then 6
    else 7
  }

  /** The error reported is always that of the first failed check, in the
      order null arguments, positive amount, distinct ids, source exists,
      destination exists, source active, destination active, funds. */
  lemma TransferReportsFirstFailedCheck(store: Store, fromId: Option<Id>, toId: Option<Id>, amount: Option<int>, i: int)
    requires FirstFailure(i, store, fromId, toId, amount)
    ensures Transfer(store, fromId, toId, amount).Failure?
    ensures Reports(Checks[i], Transfer(store, fromId, toId, amount).error, store, fromId, toId, amount)
  {
    assert !Passes(Checks[i], store, fromId, toId, amount);
    TransferSucceedsIffAllChecksPass(store, fromId, toId, amount);
    var k := FirstFailureIndex(store, fromId, toId, amount);
    // each of the two failures lies at or after the other, so they coincide
    assert !Passes(Checks[k], store, fromId, toId, amount);
    assert i <= k;
    assert k <= i;
  }

  // ---------------------------------------------------------------------
  // Properties of transfer
  // ---------------------------------------------------------------------

  /** The argument checks come first and read no record: when one of them
      fails, any two stores give the same refusal. */
  lemma ArgumentChecksIgnoreStore(s1: Store, s2: Store, fromId: Option<Id>, toId: Option<Id>, amount: Option<int>)
    requires !Passes(ArgumentsPresent, s1, fromId, toId, amount)
          || !Passes(AmountPositive, s1, fromId, toId, amount)
          || !Passes(IdsDistinct, s1, fromId, toId, amount)
    ensures Transfer(s1, fromId, toId, amount).Failure?
    ensures Transfer(s1, fromId, toId, amount) == Transfer(s2, fromId, toId, amount)
  {
  }

  /** A zero amount between equal ids is refused for the amount, not for the
      ids: the positivity check precedes the distinct-ids check. */
  lemma ZeroAmountToSelfReportsAmount(store: Store, id: Id)
    ensures Transfer(store, Some(id), Some(id), Some(0)) == Failure(NonPositiveAmount)
  {
  }

  /** When neither record exists, the missing source is the one reported. */
  lemma MissingSourceReportedFirst(store: Store, f: Id, t: Id, a: int)
    requires a > 0 && f != t && f !in store
    ensures Transfer(store, Some(f), Some(t), Some(a)) == Failure(SourceNotFound(f))
  {
  }

  /** When both records exist but neither is active, the inactive source is
      the one reported, and inactivity is reported before any lack of funds. */
  lemma InactiveSourceReportedFirst(store: Store, f: Id, t: Id, a: int)
    requires a > 0 && f != t && f in store && t in store && !store[f].ativo
    ensures Transfer(store, Some(f), Some(t), Some(a)) == Failure(SourceInactive)
  {
  }

  /** With valid arguments and two active records, the transfer is refused for
      funds exactly when the source holds less than the amount, and the refusal
      reports the balance and the amount; moving the whole balance succeeds. */
  lemma InsufficientFundsIff(store: Store, f: Id, t: Id, a: int)
    requires a > 0 && f != t && f in store && t in store
    requires store[f].ativo && store[t].ativo
    ensures Transfer(store, Some(f), Some(t), Some(a)).Failure?
        <==> store[f].valor < a
    ensures store[f].valor < a ==>
        Transfer(store, Some(f), Some(t), Some(a)) == Failure(InsufficientFunds(store[f].valor, a))
    ensures store[f].valor == a ==>
        Transfer(store, Some(f), Some(t), Some(a)).Success?
        && Transfer(store, Some(f), Some(t), Some(a)).value[f].valor == 0
  {
  }

  /** The store the caller sees is unchanged exactly when the transfer is
      refused: a refusal writes nothing, and a success always changes the
      destination's amount. */
  lemma RefusalLeavesStore(store: Store, fromId: Option<Id>, toId: Option<Id>, amount: Option<int>)
    ensures StoreAfter(store, Transfer(store, fromId, toId, amount)) == store
        <==> Transfer(store, fromId, toId, amount).Failure?
  {
    var r := Transfer(store, fromId, toId, amount);
    if r.Success? {
      var t := toId.value;
      assert r.value[t].valor != store[t].valor;
    }
  }

  /** A successful transfer keeps the value of the whole store. */
  lemma TransferConservesTotal(store: Store, fromId: Option<Id>, toId: Option<Id>, amount: Option<int>)
    requires Transfer(store, fromId, toId, amount).Success?
    ensures TotalValor(Transfer(store, fromId, toId, amount).value) == TotalValor(store)
  {
    var f, t, a := fromId.value, toId.value, amount.value;
    var debited := store[f := store[f].(valor := store[f].valor - a)];
    UpdateValorTotal(store, f, store[f].(valor := store[f].valor - a));
    UpdateValorTotal(debited, t, store[t].(valor := store[t].valor + a));
  }

  /** A successful transfer never makes any amount negative. */
  lemma TransferPreservesNonNegative(store: Store, fromId: Option<Id>, toId: Option<Id>, amount: Option<int>)
    requires NonNegative(store)
    requires Transfer(store, fromId, toId, amount).Success?
    ensures NonNegative(Transfer(store, fromId, toId, amount).value)
  {
  }

  /** A successful transfer neither lists nor hides any record. */
  lemma TransferKeepsActiveIds(store: Store, fromId: Option<Id>, toId: Option<Id>, amount: Option<int>)
    requires Transfer(store, fromId, toId, amount).Success?
    ensures ActiveIds(Transfer(store, fromId, toId, amount).value) == ActiveIds(store)
  {
  }

  /** The scenario of balances 100.00 and 50.00 with a transfer of 30.00,
      in cents: the source ends at 70.00 and the destination at 80.00. */
  lemma TransferExample(store: Store)
    requires 1 in store && 2 in store
    requires store[1].ativo && store[2].ativo
    requires store[1].valor == 10000 && store[2].valor == 5000
    ensures Transfer(store, Some(1), Some(2), Some(3000)).Success?
    ensures Transfer(store, Some(1), Some(2), Some(3000)).value[1].valor == 7000
    ensures Transfer(store, Some(1), Some(2), Some(3000)).value[2].valor == 8000
  {
  }

  // ---------------------------------------------------------------------
  // Properties of delete
  // ---------------------------------------------------------------------

  /** After a delete the record is no longer listed, and every other record
      keeps its listing status. */
  lemma DeleteHidesOnlyTarget(store: Store, id: Id)
    ensures ActiveIds(Delete(store, id)) == ActiveIds(store) - {id}
  {
  }

  /** Deleting twice is the same as deleting once. */
  lemma DeleteIdempotent(store: Store, id: Id)
    ensures Delete(Delete(store, id), id) == Delete(store, id)
  {
  }

  /** A soft delete keeps every amount, so the store's value is unchanged. */
  lemma DeleteConservesTotal(store: Store, id: Id)
    ensures TotalValor(Delete(store, id)) == TotalValor(store)
  {
    if id in store {
      UpdateValorTotal(store, id, store[id].(ativo := false));
    }
  }

  /** A deleted record can no longer take part in a transfer, on either side. */
  lemma DeletedCannotTransfer(store: Store, id: Id, other: Id, a: int)
    requires id in store
    ensures Transfer(Delete(store, id), Some(id), Some(other), Some(a)).Failure?
    ensures Transfer(Delete(store, id), Some(other), Some(id), Some(a)).Failure?
  {
  }
}
