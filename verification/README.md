# Benefit balances: transfer and soft delete

This project models the business rules of the benefit service (`BeneficioService`) of a small Spring application that keeps named benefit balances (`Beneficio`: `nome`, `descricao`, `valor`, `ativo`, `version`). It proves properties of the model in Dafny.

- The persisted state is a finite map from a 64-bit id to an immutable `Beneficio` record (module `Beneficio`).
- `valor` is a `BigDecimal` compared with `compareTo`. Here it is an integer count of the smallest currency unit. The service only compares, adds and subtracts amounts, and all three are exact on such integers.
- `findAllActive`, the repository query the service lists with, is a method that walks the store and returns the active rows (module `BeneficioRepository`).
- `findAll`, `delete` and `transfer` are in module `BeneficioService`. `transfer` is a pure function from (store, fromId, toId, amount) to either a new store or a `TransferError` variant. Each variant is one of the `IllegalArgumentException`s the service throws, and it carries the ids and amounts its message reports.
- Nullable `Long`/`BigDecimal` arguments are `Option` values.
- The order of the checks in `transfer` is also restated as an independent list, `Checks`, each item judged on its own. The lemmas prove that the service reports the first check that fails, and succeeds exactly when all of them pass.
- Module `ServiceHistory` replays any sequence of transfers and deletes. Each call is its own transaction, and a refusal is thrown before any write. The module proves what holds across all such calls: the total value is conserved, no record is removed, and no deleted record returns. If no amount is negative at the start, none becomes negative.
- `delete` of a missing id does nothing (BeneficioService.java:33).
- `transfer` has no version-checked write and no retry loop. It reads both records, checks them, and saves both.
- The service code never writes `version`, so the model keeps it unchanged in every operation.

## Model

| member | source | states |
|---|---|---|
| BeneficioRepository.FindAllActive | backend-module/src/main/java/com/example/backend/repository/BeneficioRepository.java:12-13 | the rows returned are exactly the stored records whose `ativo` is true, each shown as stored and each id once |
| BeneficioService.FindAll | backend-module/src/main/java/com/example/backend/service/BeneficioService.java:19-21 | listing returns exactly the active records, each once, because it delegates to the active-records query |
| BeneficioService.Delete | backend-module/src/main/java/com/example/backend/service/BeneficioService.java:31-37 | on an existing id only `ativo` is cleared: the record stays, with its `valor`, `nome` and `descricao`; a missing id leaves the store as it was; other records are untouched; `version` stays as it was because the service code never writes it |
| BeneficioService.Transfer | backend-module/src/main/java/com/example/backend/service/BeneficioService.java:39-79 | on success all three arguments were present, the ids were distinct and both records existed; the source loses `amount`, the destination gains it, and their sum is kept; the source ends non-negative; only the two `valor` fields change, and `version` stays as it was because the service code never writes it |
| BeneficioService.FirstFailureIndex | backend-module/src/main/java/com/example/backend/service/BeneficioService.java:40-72 | every refused transfer has a first failing check in the fixed order, and the error it reports is the one for that check |
| BeneficioService.TransferSucceedsIffAllChecksPass | backend-module/src/main/java/com/example/backend/service/BeneficioService.java:40-79 | a transfer succeeds if and only if all eight checks pass, each judged independently |
| BeneficioService.TransferReportsFirstFailedCheck | backend-module/src/main/java/com/example/backend/service/BeneficioService.java:40-72 | whichever check fails first decides the refusal: null arguments, then a non-positive amount, then equal ids, then a missing source (with `fromId`), a missing destination (with `toId`), an inactive source, an inactive destination, and insufficient funds |
| BeneficioService.ArgumentChecksIgnoreStore | backend-module/src/main/java/com/example/backend/service/BeneficioService.java:40-48 | when the null, positive-amount or distinct-ids check fails, the refusal is the same for every store: those checks read no record |
| BeneficioService.ZeroAmountToSelfReportsAmount | backend-module/src/main/java/com/example/backend/service/BeneficioService.java:43-48 | a transfer of 0 from an id to itself reports the positive-amount error, not the same-id error |
| BeneficioService.MissingSourceReportedFirst | backend-module/src/main/java/com/example/backend/service/BeneficioService.java:50-58 | with valid arguments and a missing source, the error is source-not-found with `fromId`, whether or not the destination exists |
| BeneficioService.InactiveSourceReportedFirst | backend-module/src/main/java/com/example/backend/service/BeneficioService.java:63-72 | when both records exist and the source is inactive, the refusal names the source, whatever the destination's state and the funds |
| BeneficioService.InsufficientFundsIff | backend-module/src/main/java/com/example/backend/service/BeneficioService.java:70-72 | with valid arguments and two active records, the transfer fails exactly when the source's `valor` is below the amount; the error carries that `valor` and the amount; moving the whole balance succeeds and leaves 0 |
| BeneficioService.RefusalLeavesStore | backend-module/src/main/java/com/example/backend/service/BeneficioService.java:40-72 | the store the caller sees is unchanged exactly when the transfer is refused: every refusal comes before the first write, and a success always changes the destination's amount |
| BeneficioService.TransferConservesTotal | backend-module/src/main/java/com/example/backend/service/BeneficioService.java:74-78 | a successful transfer keeps the sum of `valor` over the whole store |
| BeneficioService.TransferPreservesNonNegative | backend-module/src/main/java/com/example/backend/service/BeneficioService.java:70-75 | if no record is negative before a successful transfer, none is after it |
| BeneficioService.TransferKeepsActiveIds | backend-module/src/main/java/com/example/backend/service/BeneficioService.java:74-78 | a transfer changes no record's listing status |
| BeneficioService.TransferExample | backend-module/src/test/java/com/example/backend/service/BeneficioServiceTest.java:106-115 | with balances 100.00 and 50.00, a transfer of 30.00 succeeds and leaves 70.00 and 80.00 |
| BeneficioService.DeleteHidesOnlyTarget | backend-module/src/main/java/com/example/backend/service/BeneficioService.java:31-37 | after a delete, the listed ids are the previous ones minus the deleted id |
| BeneficioService.DeleteIdempotent | backend-module/src/main/java/com/example/backend/service/BeneficioService.java:31-37 | deleting twice gives the same store as deleting once |
| BeneficioService.DeleteConservesTotal | backend-module/src/main/java/com/example/backend/service/BeneficioService.java:31-37 | a soft delete keeps the sum of `valor` over the store |
| BeneficioService.DeletedCannotTransfer | backend-module/src/main/java/com/example/backend/service/BeneficioService.java:63-68 | after a delete, a transfer from or to that record is refused |
| ServiceHistory.StepInvariants | backend-module/src/main/java/com/example/backend/service/BeneficioService.java:31-79 | one delete or transfer call, successful or refused, keeps the total value, the set of ids, every `nome` and `descricao`, and non-negativity, and never reactivates a record |
| ServiceHistory.ReplayInvariants | backend-module/src/main/java/com/example/backend/service/BeneficioService.java:13-79 | any sequence of transfer and delete calls keeps the total value and the set of ids, keeps every amount non-negative when it started so, and never brings a deleted record back into the listing |

## Left out

- Optimistic locking: the `version` field is carried unchanged. Its increments happen inside the persistence layer on `save`, which this model does not include. Version-conflict detection, retries and concurrent transfers are not modelled either; the service code shows no version check and no retry loop.
- Transaction boundaries (`@Transactional`) are modelled only as "a refused call leaves the store as it was". Every refusal is thrown before the first write, so no rollback is ever needed.
- `save` and `findById` are not modelled. They pass straight through to the Spring Data repository and hold no logic. `save` can also write any record, including one with a negative `valor`. For that reason the history invariants cover transfers and deletes only.
- `delete` with a null id is not modelled: the id is a plain `Id`. The repository's reaction to a null key belongs to Spring Data, and the HTTP layer always passes a path id.
- The entity class `Beneficio` is not part of this model. Its `valor` and `ativo` are taken to be non-null. A null there would make `transfer` throw a `NullPointerException`, and that path is not modelled.
- Error message texts and `BigDecimal` scale and formatting are not modelled. Errors are variants carrying the ids and amounts.
- The order of the rows the active-records query returns is not modelled, because the query has no ORDER BY.
- The REST controller, the DTO mapping, the EJB service and the Angular frontend are not modelled. They are routing, field copying and UI.
