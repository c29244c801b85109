# Auction service core: bid reconciliation, connection loop, auction list

This project is a Dafny model of the sequential logic in the GO auction service.
The rest of that service is HTTP and document-database plumbing. The model covers three pieces.

- **`BiddingWorker`** (`AuctionService/Services/BiddingWorker.cs`):
  - The constructor resolves the RabbitMQ host, port, user and password from configuration, with defaults.
    The port goes through a model of `int.TryParse` (module `BrokerConfig`).
  - The `ReceivedAsync` handler reconciles one bid message against the auction store (module `Reconciler`, class `Worker.BiddingWorker`).
    It decodes the bid and looks up its auction. It drops the bid when `AuctionEnd < now`, strictly.
    Otherwise it sets `HighestBidId` to the bid's id and replaces the whole record.
    Every exception is caught inside the handler.
    A missing auction is not caught by the null test at line 78. Reading `AuctionEnd` at line 72 throws first, and the catch at line 85 handles it.
    The observable result is the same: no write.
  - The `ExecuteAsync` loop is a state machine over a `connected` flag (module `Supervisor`, method `Worker.BiddingWorker.ExecuteAsync`).
    Abstract events stand in for real broker calls: a pass whose connect succeeds, a pass whose connect fails (any of the three catch clauses), a channel shutdown, and a stop request.
    After a failure the loop waits `retryDelaySeconds`, which is 5 and never changes. There is no attempt cap.
    While connected, a pass only waits one second.
- **`AuctionService`** (`AuctionService/Services/AuctionService.cs`): a list-backed store.
  - Class `Services.AuctionService` holds `_auctions` as a sequence field.
  - `CreateAuction`, `DeleteAuction` and `EditAuction` are methods that reassign that field.
  - The LINQ queries are functions that read it: `GetAllAuctions`, `GetAuctionById`, `UserGetAuctionWinner`, `GetAuctionByStartTime` and `GetAuctionByEndTime`.
    Each delegates to a module-level function that carries the contract: `FirstById`, `ServiceWinner` and `Where`.
- **`AuctionRepository.UserGetAuctionWinner`** (`AuctionService/Repository/AuctionRepository.cs`): the selection after the database fetch.
  The fetched auction (or null) is the parameter.

Both winner selections use `OrderByDescending(b => b.Amount).FirstOrDefault()`.
It is modelled once, in module `Bidding`, as a stable insertion sort followed by taking the head.
The proved consequence: the winner is the earliest bid of maximal amount.

Time is integer ticks and `now` is a parameter. The store is a map from id to record.
Decoding is an opaque outcome: a bid, the JSON `null`, or a deserializer exception.

## Model

| member | source | states |
|---|---|---|
| `BrokerConfig.ParseInt32` | AuctionService/Services/BiddingWorker.cs:27 | `int.TryParse` succeeds only with a value in the 32-bit range; empty text fails |
| `BrokerConfig.ParseFormatRoundTrip` | AuctionService/Services/BiddingWorker.cs:27 | parsing the decimal text of any 32-bit integer gives that integer back |
| `BrokerConfig.ParseFormat` | AuctionService/Services/BiddingWorker.cs:27 | the text of any integer parses to it if it fits in 32 bits, and fails otherwise |
| `BrokerConfig.ParseRejectsOverflow` | AuctionService/Services/BiddingWorker.cs:27 | the text of an integer outside the 32-bit range is rejected |
| `BrokerConfig.ParseIgnoresSurroundingWhite` | AuctionService/Services/BiddingWorker.cs:27 | leading and trailing white space around the number does not change the parsed value |
| `BrokerConfig.AlphabeticIsRejected` | AuctionService/Services/BiddingWorker.cs:27 | an ASCII letter anywhere in the text makes the parse fail |
| `BrokerConfig.ResolveConfig` | AuctionService/Services/BiddingWorker.cs:24-30 | a missing host, user or password takes `rabbitmq`, `admin`, `admin`; a present value, even empty, is used as given; the port is 5672 unless the text parses, and then it is the parsed value |
| `BrokerConfig.ResolveDefaults` | AuctionService/Services/BiddingWorker.cs:26-29 | an empty configuration gives (`rabbitmq`, 5672, `admin`, `admin`) |
| `BrokerConfig.ResolveConfiguredPort` | AuctionService/Services/BiddingWorker.cs:27 | a configured port written as a 32-bit integer, possibly padded with white space, is the port used |
| `BrokerConfig.ResolveUnparsablePort` | AuctionService/Services/BiddingWorker.cs:27 | a configured port that contains an ASCII letter, or overflows 32 bits, falls back to 5672 |
| `Worker.BiddingWorker.constructor` | AuctionService/Services/BiddingWorker.cs:19-31 | the factory holds the resolved configuration; the loop variables start disconnected with a 5-second retry delay |
| `Reconciler.Decide` | AuctionService/Services/BiddingWorker.cs:62-88 | a write happens exactly when the bid decoded, its auction exists, and `now <= AuctionEnd`; the write is that record with `HighestBidId` set to the bid id; each other outcome is characterised both ways (ended, missing auction caught, null payload, malformed payload caught) |
| `Reconciler.Replace` | AuctionService/Repository/AuctionRepository.cs:31-35 | a replace by id keeps the key set, overwrites the matching record, and inserts nothing when no record matches |
| `Reconciler.OpenAuctionRecordsBid` | AuctionService/Services/BiddingWorker.cs:68-82 | a bid on an auction that has not ended becomes its `HighestBidId`, and every other record is unchanged |
| `Reconciler.EndingNowAccepts` | AuctionService/Services/BiddingWorker.cs:72-76 | an auction whose end equals `now` still takes the bid, because the comparison is strict |
| `Reconciler.RejectedMessageChangesNothing` | AuctionService/Services/BiddingWorker.cs:64-88 | a malformed or null payload, a missing auction, or an ended auction leaves the store unchanged, with no write |
| `Reconciler.OnlyHighestBidOfOpenTargetChanges` | AuctionService/Services/BiddingWorker.cs:72-82 | no field except `HighestBidId` ever changes; a record changes only when it is the bid's auction and has not ended |
| `Reconciler.HandlingIsIdempotent` | AuctionService/Services/BiddingWorker.cs:80-81 | a message handled again, at the same clock reading or a later one, leaves the store as the first handling did |
| `Reconciler.LaterBidWins` | AuctionService/Services/BiddingWorker.cs:80-81 | of two in-time bids on one auction the later one is recorded, whatever the amounts |
| `Reconciler.ApplyKeepsWellKeyed` | AuctionService/Services/BiddingWorker.cs:80-81 | handling a message keeps every record stored under its own id |
| `Reconciler.HighestBidComesFromRun` | AuctionService/Services/BiddingWorker.cs:60-89 | over any run of messages the keys stay the same, only `HighestBidId` changes, and it is either the original or the id of a bid in the run for that auction |
| `Worker.BiddingWorker.EditAuction` | AuctionService/Repository/AuctionRepository.cs:31-35 | the store becomes the replace-by-id of the record, and the record is logged as written |
| `Worker.BiddingWorker.ReceivedAsync` | AuctionService/Services/BiddingWorker.cs:60-89 | the handler returns normally on every path; its outcome and new store equal `Decide` and `Apply`; exactly one write is made when the bid is applied, and none otherwise |
| `Worker.BiddingWorker.ExecuteAsync` | AuctionService/Services/BiddingWorker.cs:33-126 | the loop variables start as declared, and after the events they equal `Replay` from the initial state; events after a stop are never seen |
| `Supervisor.Step` | AuctionService/Services/BiddingWorker.cs:40-125 | one event never changes the retry delay; a stopped loop ignores everything; at most one connect attempt is made per pass, and only while disconnected; becoming connected needs a successful pass |
| `Supervisor.StoppedIsFinal` | AuctionService/Services/BiddingWorker.cs:40 | once the loop has ended, no later event changes its state |
| `Supervisor.NotStoppedBeforeStop` | AuctionService/Services/BiddingWorker.cs:40 | without a stop request the loop keeps running |
| `Supervisor.FailuresRetryForever` | AuctionService/Services/BiddingWorker.cs:106-120 | any number of failures of any kind leaves the worker disconnected and running, with one attempt per failure and a 5000 ms wait after each: no cap and no growth |
| `Supervisor.FailuresThenSuccessConnects` | AuctionService/Services/BiddingWorker.cs:42-98 | any number of failures followed by one success ends connected, after one more attempt |
| `Supervisor.DelayNeverChanges` | AuctionService/Services/BiddingWorker.cs:38 | over any events the retry delay keeps its value, the earlier waits are kept, and every new wait is either 1000 ms or the retry delay |
| `Supervisor.ConnectedOnlyAfterSuccess` | AuctionService/Services/BiddingWorker.cs:97-104 | while the loop runs, a disconnected worker becomes connected only through a successful pass with no shutdown after it |
| `Supervisor.ShutdownDisconnects` | AuctionService/Services/BiddingWorker.cs:100-104 | a shutdown before any stop, with no successful pass after it, leaves the worker disconnected |
| `Supervisor.ConnectedOnlyWaits` | AuctionService/Services/BiddingWorker.cs:122-125 | while connected, a pass makes no connect attempt and only waits 1000 ms |
| `Bidding.InsertDescending` | AuctionService/Services/AuctionService.cs:43 | inserting a bid adds exactly that bid, and puts it first when nothing in front has a larger amount |
| `Bidding.InsertKeepsSorted` | AuctionService/Services/AuctionService.cs:43 | insertion keeps the list sorted by descending amount |
| `Bidding.OrderByDescending` | AuctionService/Services/AuctionService.cs:43 | the result is a permutation of the bids, sorted by descending amount |
| `Bidding.HighestBid` | AuctionService/Services/AuctionService.cs:43 | the result is null exactly for an empty list; otherwise it is one of the bids, with an amount at least that of every bid |
| `Bidding.HighestBidIsEarliestMaximum` | AuctionService/Services/AuctionService.cs:43 | the chosen bid is the earliest one of maximal amount, so ties go to the earlier bid |
| `Bidding.EarliestMaximumIsUnique` | AuctionService/Services/AuctionService.cs:43 | any index that holds the earliest maximal bid is the one chosen |
| `Services.FirstIndex` | AuctionService/Services/AuctionService.cs:21 | gives no index exactly when no auction has the id; otherwise the index of the first auction with that id |
| `Services.FirstById` | AuctionService/Services/AuctionService.cs:35-38 | `GetAuctionById` is null exactly when no auction has the id; otherwise it is the first auction with that id |
| `Services.Where` | AuctionService/Services/AuctionService.cs:46-54 | every kept auction satisfies the filter, and each matching auction is kept as often as it occurs |
| `Services.WhereAppend` | AuctionService/Services/AuctionService.cs:46-54 | filtering distributes over concatenation, so the original order is kept |
| `Services.WhereKeepsAll` | AuctionService/Services/AuctionService.cs:14-17 | a filter that every auction passes changes nothing |
| `Services.WhereIdempotent` | AuctionService/Services/AuctionService.cs:14-17 | filtering twice is filtering once |
| `Services.EditStatus` | AuctionService/Services/AuctionService.cs:19-28 | the length and every id are kept; only the first auction with the id can change, and only in its `Status`; with no match the list is unchanged |
| `Services.ServiceWinner` | AuctionService/Services/AuctionService.cs:40-44 | a missing auction or an empty bid list gives `Guid.Empty`; a null bid list throws; otherwise the result is the `UserId` of a bid of maximal amount |
| `Services.AuctionService.constructor` | AuctionService/Services/AuctionService.cs:7 | the list starts empty |
| `Services.AuctionService.CreateAuction` | AuctionService/Services/AuctionService.cs:9-12 | the auction is appended at the end, with no duplicate-id check |
| `Services.AuctionService.DeleteAuction` | AuctionService/Services/AuctionService.cs:14-17 | the list becomes the order-preserving filter without the id, and no auction with that id remains |
| `Services.AuctionService.EditAuction` | AuctionService/Services/AuctionService.cs:19-28 | the list becomes `EditStatus` of the old list |
| `Services.CreateThenGetById` | GO-AuctionTests/AuctionTest.cs:82-90 | after `CreateAuction(a)`, a lookup of `a.Id` finds an auction with that id; it finds `a` itself when the id was new |
| `Services.CreateKeepsEarlierLookups` | AuctionService/Services/AuctionService.cs:35-38 | appending does not change which earlier auction a lookup finds |
| `Services.DeleteRemovesEveryMatch` | AuctionService/Services/AuctionService.cs:14-17 | after a delete no auction with the id is found, and deleting again changes nothing |
| `Services.DeleteAbsentIsNoOp` | AuctionService/Services/AuctionService.cs:14-17 | deleting an id no auction has leaves the list unchanged |
| `Services.EditThenGetById` | GO-AuctionTests/AuctionTest.cs:53-68 | after an edit, a lookup of the id returns the first match with the new status |
| `Services.CreateThenQueryByTime` | GO-AuctionTests/AuctionTest.cs:114-135 | a start or end time query after `CreateAuction(a)` returns the earlier answer, followed by `a` when it matches |
| `Services.HighestBidderWins` | GO-AuctionTests/AuctionTest.cs:93-111 | for bids of 100, 200 and 150 the winner is the user of the 200 bid |
| `Repository.UserGetAuctionWinner` | AuctionService/Repository/AuctionRepository.cs:47-56 | the result is null exactly for a missing auction or a null or empty bid list; otherwise it is a `User` carrying only the `UserId` of a bid of maximal amount |
| `Repository.WinnerIsEarliestMaximum` | AuctionService/Repository/AuctionRepository.cs:54-55 | the repository's winner is the user of the earliest bid of maximal amount |
| `Repository.AgreesWithService` | AuctionService/Repository/AuctionRepository.cs:47-56 | the repository and the service pick the same winner; they differ only in writing "no winner" as null or `Guid.Empty`, and in a null bid list (null or a throw) |

## Left out

- RabbitMQ client calls are not modelled: connection and channel creation, queue declaration, `BasicConsumeAsync` with `autoAck: true`, and the closing of the channel and connection after the loop (`BiddingWorker.cs:47-57, 91-95, 128-135`). They are broker I/O. The model reduces them to success or failure events.
- A connection left open by a connect phase that fails after `CreateConnectionAsync` is not tracked, because connection objects are not modelled.
- The handler and the loop are modelled independently. Deliveries are not tied to the `connected` flag, because the broker decides when callbacks run.
- Concurrency is not modelled. That covers parallel handler invocations and the last-writer-wins race between two bids on one auction. It also covers the shutdown callback that writes `connected` from another thread, and a shutdown that arrives before the callback is registered at line 100. Events are applied as one sequential interleaving.
- `Task.Delay`, cancellation tokens and `DateTime.UtcNow` are not modelled. Waits are recorded as millisecond values, the clock is a parameter, and cancellation is a `Stop` event. A cancellation during `Task.Delay` throws out of `ExecuteAsync` and skips the close block; that is not modelled.
- Failures of the two store calls in the handler are not modelled. `GetAuctionById` (line 70) and `EditAuction` (line 81) are driver calls that can throw, for example when the database is unreachable or a call times out. The catch at line 85 would swallow such an exception. A failed lookup means no write. A failed replace leaves it unknown whether the write reached the server. In the model both calls always succeed, so `Reconciler.OpenAuctionRecordsBid` and the other store properties hold only for a store that answers.
- `ResolveConfig`: the configuration is an exact-match map. `IConfiguration` looks keys up case-insensitively, so `rabbitmq_host` also supplies `RABBITMQ_HOST`. The map stands for that lookup with every key already written in the canonical upper case. A configuration holding two keys that differ only in case is not modelled.
- UTF-8 and JSON decoding are not modelled. They are library code, so the decode result is an input.
- Logging is not modelled. The handler's outcome value records which log branch was taken.
- The MongoDB wrappers in `AuctionRepository.cs` other than the replace that `EditAuction` performs are not modelled. They are thin driver calls.
- The controller, `Program.cs` and the `IAuctionRepository` interface are not modelled. `GetAuctionStatus` has no implementation.
- Aliasing of `Auction` objects in `AuctionService` is not modelled. `GetAllAuctions` returns the live list. `EditAuction` mutates an object that callers may hold, and an object added twice would change in both places. Auctions are values here.
- Null auctions in the list and null arguments are not modelled. Either would throw a null dereference inside the LINQ predicates.
- A null element inside a bid list is not modelled.
- `existing.Id = auction.Id` is a no-op, because the two ids are equal at that point. The model writes it anyway.
- `GOCore` types are not modelled in full. A GUID is a natural number compared only for equality, `Guid.Empty` is 0, and an amount is an integer. The real amount type may be decimal.
- `BrokerConfig.ParseInt32`: does not model culture-specific sign symbols or the trailing NUL characters that .NET number parsing also accepts. Both are library details.
- The service's query functions (`GetAuctionById`, `UserGetAuctionWinner`, `GetAuctionByStartTime`, `GetAuctionByEndTime`, `GetAllAuctions`) have no contract of their own. Each is one call to the module-level function listed in the table, and the contract is stated there.
