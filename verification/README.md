# The path of a parking event, modelled and proved

A vehicle (an STM32 board) announces every second what it does. Its START and STOP messages travel over
I2C to a BeagleBone, through a pipe between two processes, over TCP to a server, and end as rows of an
SQLite table that say who parked where, for how long and for how much. This project models every stage
and proves what each keeps, and then what the stages guarantee together: however many messages are lost,
and however connections break, a session whose START and STOP both arrive has its own row, with its true
timestamps and their true difference (`Sessions.EndToEnd`, `Sessions.InterleavedEndToEnd`); and where nothing
fails, every session does (`FaultFree.EverySessionIsBooked`).

`dafny verify dfyconfig.toml` checks the whole project.

## How to read it

| module | stage |
|---|---|
| `Coordinates`, `Simulator`, `Journeys` | the vehicle's map, its task as a class, its exact trace language, what a parked vehicle keeps |
| `I2cSenders` | the vehicle's I2C sender task |
| `I2cProcesses` | the BeagleBone's validator and filter |
| `EthProcesses` | the BeagleBone's retry loop, TCP streams with partial writes, framing |
| `Pipelines` | all of the above as one state machine over every schedule and every failure |
| `Servers` | `recv`, parsing and dispatching as imperative methods |
| `Tables`, `Pricing`, `Nearest` | the SQL statements and queries as functions, the price formula, the nearest-lot scan |
| `Databases` | the `Database` class: memory and disk copy, updated in place |
| `Matching`, `History` | bracket matching defined by counting; the log table is that matching |
| `Recovery` | crashes, failed copies, reboots and reopenings |
| `Threads` | the server's threads at the granularity of single SQL statements |
| `Sessions` | composition of vehicle, transport and database: what any faults leave true |
| `FaultFree` | the same path without faults: everything that should happen does |
| `Wire`, `Words`, `Floats`, `Sequences`, `Wrappers` | byte layout, machine integers, IEEE singles, subsequences |

Code that the repository writes step by step is a method on a class here, proved equal to a function
(`Simulator.Next`, `Tables.Apply`, `EthProcesses.Attempt`, ...). The theorems about whole runs are lemmas
about those functions.

Conventions:

- Integers have their machine width. Conversion of a `uint32_t` to `int`, and `int` overflow, keep the low
  32 bits as two's complement (`Words.Int32`); in C++ the overflow itself is undefined, and
  `Pricing.HoursExact` says exactly when it happens.
- Coordinates travel as 32-bit patterns. Comparisons decode them as IEEE 754 singles exactly (`Floats.FloatOf`),
  with NaN and the infinities; distances and money are real numbers, without rounding.
- What SQLite, the file system, `rand`, the clock and the network answer are parameters: `Tables.Env`,
  `Recovery.Event`, `Simulator.Tick`, `EthProcesses.Try`, `Pipelines.Action`. A theorem for all of them holds
  for every failure and every schedule. An action that is not enabled changes nothing.
- An endless loop is modelled one pass at a time, or for as long as a given list of outcomes lasts.
- A `Store` carries, as a ghost, its lineage: the calls its content comes from. Copying one database over
  another copies the lineage too.
- `endParking` reads `log_id` through an `int`. Theorems about whole histories assume at most 2^31 - 1
  successful STARTs; `Tables.StopClosesSelectedRow` shows that this is exactly when a STOP closes the row it
  selected.

Where code and documentation disagree, the model follows the code:

- `max_daily` is documented as optional (`server/README.md:106`), but leaving it out stores 0, which caps every
  hourly stay at nothing: `Pricing.OmittedCapIsFree`.
- The vehicle's eastern edge `35.9f` and the validator's `35.9` are meant to be the same number. The float is
  above the double, so what a vehicle sends from that edge is rejected, and nothing else that it sends
  in time: `I2cProcesses.SentMessageAcceptedIff`.
- A message with a NaN coordinate passes the validator, whose comparisons are all false then: `I2cProcesses.AcceptedIff`.
- `removeCity` ignores the outcome of deleting the city's lots (`Tables.CityRemovalIsExact`, `Tables.CityRemovalCanBeHalfDone`).
- `findClosestLot` counts a lot only below the largest `double`; no lot is ever that far away
  (`Nearest.LotDistanceBelowMax`).

## Model

| member | source | states |
|---|---|---|
| FaultFree.EverySessionIsBooked | STM32/GPS_sim/Src/gps_sim.c:38-69 | Without faults the whole path does its job: for every run of a vehicle with a valid licence there is a run of the system after which nothing is on its way, and serving what was decoded leaves every finished session, unless parked on the eastern edge, with its own closed row with its true times |
| FaultFree.ForwardsMarksOffEdge | BBG/Src/i2c_process.c:73-95 | Of such a run the BeagleBone forwards exactly the STARTs and STOPs sent off the eastern edge |
| FaultFree.ServingBooksAll | server/Src/server.cpp:87-108 | Serving requests that have a nearest lot, with no statement failing, makes one call for each, in order |
| FaultFree.SessionTakes | server/Src/db.cpp:105-201 | When a session's START and STOP both reach the database without SQL errors, both take effect |
| Sessions.InterleavedEndToEnd | server/Src/server.cpp:79-83 | The whole path through the server's threads: for every run of a vehicle and its pipeline and every statement-level interleaving in which no customer has two requests in flight and the vehicle's requests arrive in decoding order, the database is that of a call history in which every session whose START and STOP both take effect has its own row with its true times |
| Sessions.EndToEnd | STM32/GPS_sim/Src/gps_sim.c:38-69 | For every run of a vehicle and of its pipeline, and every database history in which the vehicle's calls keep the decoding order: the calls stem from the vehicle's announcements, and in whichever way they do, each session whose START and STOP both take effect has its own row with both true timestamps and their difference |
| Sessions.OwnStopClosesOwnRow | server/Src/db.cpp:136-201 | With any messages deleted and any other vehicles interleaved, if a session's START and its own STOP both succeed, that STOP closes the row that START inserted; both timestamps can be read back for any clock that has not wrapped, and the duration is their difference if and only if that fits an int |
| Sessions.OwnStopIsPartner | server/Src/db.cpp:138-165 | The same pairing stated on call histories: the two calls are matching brackets |
| Sessions.StopClosesOwnOrOlder | server/Src/db.cpp:138-165 | An acknowledged STOP always closes a row of its own vehicle and never of a later session; it is its own session's exactly when that session's START took effect |
| Sessions.DecodedFollowMarks | server/Src/server.cpp:87-124 | Everything the server decodes from one vehicle, over all its connections, is a subsequence of the STARTs and STOPs the vehicle announced |
| Sessions.ServingKeepsOrder | server/Src/server.cpp:87-108 | Serving messages one after the other adds, for every customer, a subsequence of that customer's messages to the call history: the premise of EndToEnd |
| Sessions.StartIsBookedOnNearestLot | server/Src/server.cpp:153-171 | Serving a START adds one open row with the lot nearest to it, its licence and its timestamp, readable without loss |
| Sessions.StopResolvesToBookedLot | server/Src/server.cpp:153-181 | A session's STOP resolves to the lot stored in the row its START created, whatever happens in between, if that lot stays and none is added nearer |
| History.LogIsBracketMatching | server/Src/db.cpp:105-201 | After every call history, row k stands for the k-th successful START with its values, is open exactly while that START is an unmatched bracket of its customer, and otherwise holds exactly what its matching STOP wrote, priced on the lot table as it stood then |
| History.OpenRowsAreUnmatchedStarts | server/Src/db.cpp:138-142 | A customer's open rows, in id order, are exactly the customer's unmatched STARTs |
| History.StopAcknowledgedIffMatched | server/Src/db.cpp:153-160 | A STOP returns PDB_OK if and only if it is a closing bracket with a partner; otherwise it changes nothing |
| History.StopMeetsPartner | server/Src/db.cpp:138-165 | The newest-open-row query finds a row exactly when the STOP has a partner, and finds the partner's row |
| History.ClosedRowIsCharged | server/Src/db.cpp:167-196 | In every history a closed row holds its STOP's time, the difference, and a charge given by the columns of the lot's row as it stood at that STOP: a flat lot's price whatever the duration and the cap; an hourly lot's begun hours or its cap, whichever is less; 0 if the lot was gone or its price could not be read |
| History.NextIdCountsStarts | server/Src/db.cpp:52-61 | The next log id is one more than the number of successful STARTs, so all ids fit an int exactly up to 2^31 - 1 of them |
| History.HistoryIsFrozen | server/Src/db.cpp:105-436 | Under every sequence of public operations rows are only added, keep their START columns, and never change once closed |
| History.HistoryIsCounted | server/Src/db.cpp:126-196 | The number of rows is the number of acknowledged STARTs, the number of closed rows that of acknowledged STOPs |
| Matching.StopMatchesNewestUnmatched | server/Src/db.cpp:138-142 | Matching defined by counting brackets coincides with the rule of the query: a STOP belongs to the newest START that is still unmatched |
| Matching.MatchIsUnique | server/Src/db.cpp:138-142 | A START has at most one STOP and a STOP at most one START |
| Tables.NewestOpenIsLast | server/Src/db.cpp:138-142 | The query answers the last open row of the customer, and nothing only if there is none |
| Tables.StopClosesSelectedRow | server/Src/db.cpp:162-196 | endParking closes the row it selected if and only if the row's id fits an int; for a larger id it reports success and leaves the row open |
| Tables.UpdateHitsOneRow | server/Src/db.cpp:172-189 | While ids fit, the update by log_id changes the selected row and no other |
| Tables.ApplyKeepsOrder | server/Src/db.cpp:34-61 | Every operation keeps row and lot ids ascending and never hands one out twice |
| Tables.AdminKeepsLog | server/Src/db.cpp:240-436 | City and lot operations leave the log alone |
| Tables.FindLotIsLookup | server/Src/db.cpp:205-224 | A lot is found by its id exactly when it is in the table |
| Tables.ChargeFollowsLotTable | server/Src/db.cpp:203-238 | A session is charged the price formula on the lot's current row, or 0 if the lot is gone |
| Tables.AddedLotIsFound | server/Src/db.cpp:302-336 | A new lot is found under a fresh id with exactly the values given, and no other lookup changes |
| Tables.AddedCityIsPresent | server/Src/db.cpp:240-263 | After an acknowledged addition the table has the city under its new id and name, and otherwise what it had |
| Tables.AcknowledgedIff | server/Src/db.cpp:105-436 | For every operation, exactly when it is acknowledged: which statements must succeed, and what the tables and arguments must be like |
| Tables.LotRemovalIsExact | server/Src/db.cpp:338-362 | removeLot removes the lot with that id and no other, and keeps the order of the rest |
| Tables.CityRemovalIsExact | server/Src/db.cpp:265-300 | Whichever statements fail: success is reported for the second deletion alone, the lots go exactly if the first is executed, the rest keeps its order; after a success no lot of the city is left if and only if the first was executed or there was none |
| Tables.CityRemovalCanBeHalfDone | server/Src/db.cpp:276-299 | Two inputs: a removal reported as done that leaves the city's lot, and one reported as failed that took it |
| Tables.ErrorChangesNothing | server/Src/db.cpp:105-436 | A call that reports an error has changed nothing if and only if it is not a city's removal whose first deletion took some lot |
| Tables.EditIsExact | server/Src/db.cpp:364-436 | A price update touches only that lot's price, and its cap only for a positive one; a type change touches only that lot's type |
| Tables.CitiesStayDistinct | server/Src/db.cpp:35-38 | In every history no two cities share a name or an id, all ids are below the next one to be given, and adding a city fails exactly when its name is taken |
| Pricing.HoursExact | server/Src/db.cpp:235 | The hour count is the ceiling of max(duration, 0) / 3600 if and only if the addition does not overflow |
| Pricing.LongStayPricedNegative | server/Src/db.cpp:235 | The hour count is negative for exactly the longer stays |
| Pricing.ChargeIsHoursOrCap | server/Src/db.cpp:232-237 | An hourly stay costs its begun hours or the cap, whichever is less |
| Pricing.FlatRateIgnoresStay | server/Src/db.cpp:232-233 | A stay on a flat-rate lot costs the lot's price, however long it is and whatever the cap |
| Pricing.PriceMonotoneAndCapped | server/Src/db.cpp:232-237 | A longer stay never costs less, and none costs more than the cap |
| Pricing.SplittingNeverSaves | server/Src/db.cpp:232-237 | cost(a + b) <= cost(a) + cost(b) |
| Pricing.OmittedCapIsFree | server/Src/price_updater.cpp:75 | A stay on an hourly lot added without a cap is free of charge if and only if the lot's price is 0 or the hours do not overflow, and never costs anything |
| Nearest.LeastIsFirstMinimum | server/Src/db.cpp:464-483 | The scan answers exactly when some distance is finite, with the first position of minimum distance and no other |
| Nearest.AnswerSideOfBisector | server/Src/db.cpp:467-483 | The vehicle is on the answer's side of the perpendicular bisector between the answer and any other lot, strictly so for a lot earlier in the table |
| Nearest.AnsweredIffPlaced | server/Src/db.cpp:467-486 | A lot is answered if and only if the vehicle's and some lot's coordinates are numbers, and the answer's then are |
| Nearest.AnswerIsFound | server/Src/db.cpp:469-481 | The answered id, looked up as when the stay is priced, finds that same lot |
| Nearest.LotAtPlaceWins | server/Src/db.cpp:467-483 | A vehicle standing where a lot lies is booked on the first lot there |
| Nearest.NoLotNearerInBoth | server/Src/db.cpp:473-482 | A lot no farther than the answer in both coordinates only ties with it, and comes later in the table |
| Nearest.LotDistanceBelowMax | server/Src/db.cpp:464 | Every finite distance between two float positions is below the scan's initial minimum |
| Nearest.NearestIsStable | server/Src/db.cpp:302-487 | After any sequence of operations that keeps the nearest lot and adds none strictly nearer, the same query returns the same lot |
| Databases.Database.constructor | server/Src/db.cpp:10-32 | Opening copies disk to memory, content and history, unless the copy fails or a database cannot be opened |
| Databases.Database.Open | server/Src/db.cpp:10-78 | The same with the creation of the tables: it is attempted only with the file open, and its failure leaves the caller without a database but memory restored |
| Databases.Database.Close | server/Src/db.cpp:80-91 | Closing copies memory to disk if the disk database is open and the copy succeeds |
| Databases.Database.Backup | server/Src/db.cpp:438-451 | A copy is whole or does not happen |
| Databases.Database.FlushToDisk | server/Src/db.cpp:93-103 | Disk becomes equal to memory, or stays as it was and an error is reported |
| Databases.Database.StartParking | server/Src/db.cpp:105-134 | Status, memory, disk and both histories after the call, on every path |
| Databases.Database.EndParking | server/Src/db.cpp:136-201 | The same for the select, price and update sequence |
| Databases.Database.CalculatePrice | server/Src/db.cpp:203-238 | The branches of the price query compute the price formula, 0 for a failing query or a missing lot; `History.ClosedRowIsCharged` gives the amount by the lot's columns |
| Databases.Database.AddCity | server/Src/db.cpp:240-263 | The same as StartParking for a new city, refused when the name is taken |
| Databases.Database.RemoveCity | server/Src/db.cpp:265-300 | The same for the two deletions, of which the first may fail unnoticed |
| Databases.Database.AddLot | server/Src/db.cpp:302-336 | The same for a new lot, refused for a NaN coordinate |
| Databases.Database.RemoveLot | server/Src/db.cpp:338-362 | The same for removing a lot |
| Databases.Database.UpdateLotPrice | server/Src/db.cpp:364-409 | The same for a price update with or without a cap |
| Databases.Database.SetLotType | server/Src/db.cpp:411-436 | The same for a type change |
| Databases.Database.FindClosestLot | server/Src/db.cpp:453-487 | The loop returns the id of the first lot of minimum distance, or false with the caller's variable untouched; which lot that is, `Nearest.AnswerSideOfBisector` and `Nearest.AnsweredIffPlaced` say without naming a distance |
| Recovery.StoresFollowLineage | server/Src/db.cpp:24-103 | Over all runs with failed copies, interrupted operations, reboots and openings, memory is the result of its lineage and disk that of the operations up to the last successful copy |
| Recovery.ReopeningRestoresLastCopy | server/Src/db.cpp:24-32 | Reopening restores exactly the state after the operations up to the last successful copy |
| Recovery.ClosingMakesDurable | server/Src/db.cpp:80-91 | Closing with a successful copy makes everything in memory durable, and otherwise changes nothing |
| Recovery.DurableIsPrefix | server/Src/db.cpp:93-103 | Between openings, what is on disk is the result of a prefix of the operations |
| Recovery.AcknowledgedSurvive | server/Src/db.cpp:123-130 | If no copy fails, every operation acknowledged PDB_OK survives interruptions, reboots and any number of openings, in order |
| Recovery.DurableGrows | server/Src/db.cpp:93-103 | If no copy fails, the history on disk only ever grows at its end |
| Recovery.AcknowledgedForGood | server/Src/db.cpp:123-130 | So an acknowledged operation keeps its effect: every later disk copy continues the very history that ended with it |
| Recovery.OpeningAgainLosesNothing | server/Src/price_updater.cpp:34 | With nothing failing, one more process that opens the database changes nothing, and memory and disk hold every operation so far |
| Recovery.AfterReboot | server/Src/db.cpp:29-32 | What disk holds after any past, a reboot, an opening and a first success; the past stays durable if and only if the restore succeeds or that one operation repeats it |
| Recovery.FailedRestoreLosesHistory | server/Src/db.cpp:29-32 | After any past, a reboot and an opening whose restore fails, the next success overwrites everything acknowledged before |
| Threads.InterleavingIsSerial | server/Src/server.cpp:79-83 | If no customer has two requests in flight, every statement-level interleaving equals a serial order of whole requests in which each finished one occurs once and each customer's occur in order of arrival, and every STOP about to update does so while its row is still its customer's newest open one |
| Threads.AloneIsServe | server/Src/server.cpp:153-187 | Undisturbed, the statements of a thread do to memory and disk exactly what the sequential server code does, for every outcome of every statement and of the copy |
| Threads.StartIsBooked | server/Src/db.cpp:105-130 | A START whose statements succeed adds one open row with the nearest lot, the licence and the time, in memory and on disk |
| Threads.TurnsFinish | server/Src/server.cpp:79-83 | Five turns finish a request, whatever the other threads do in between and whatever fails |
| Threads.AllOkIsWell | server/Src/server.cpp:79-83 | If no statement of a run fails, every request takes effect as one whose statements all succeed |
| Threads.AllServedAtRest | server/Src/server.cpp:79-83 | When nothing fails and all threads have come to rest, memory and disk are what serving every received request once, without failure, leaves, each customer's in order of arrival |
| Threads.ArrivalOrderKept | server/Src/server.cpp:79-83 | Under that discipline each customer's requests take effect in order of arrival, with at most one still on its way |
| Threads.SerialIsServeAll | server/Src/server.cpp:87-108 | The serial reference is the database after the call history that the sequential connection loop leaves for the same requests |
| Threads.DirtyMeansPendingFlush | server/Src/db.cpp:93-130 | With copies succeeding, disk differs from memory only while some thread is between its write and its copy |
| Threads.OverlapOutcome | server/Src/db.cpp:138-189 | Once two STOPs of one customer have found the same row, on any two threads, every schedule of what remains leaves the whole database with that one row closed, by the STOP written last |
| Threads.OverlapIsSerialIffOneOpen | server/Src/db.cpp:138-189 | For every such schedule the outcome is that of serving the two STOPs in one order or the other if and only if the row is the customer's only open one |
| Threads.OverlapOccurs | server/Src/server.cpp:79-83 | Whenever two STOPs of a customer with an open row arrive, such an overlap can occur and finish |
| Servers.RecvRequest | server/Src/server.cpp:110-124 | However the stream is cut, the buffer is filled with its next bytes, or a too short tail is consumed and false returned |
| Servers.ParseRequest | server/Src/server.cpp:126-151 | The request has the decoded fields, or the type byte is invalid and the request is untouched |
| Servers.HandleRequest | server/Src/server.cpp:153-187 | The history of memory and disk after a request: a call on the nearest lot for START and STOP, none without a lot or for IDLE |
| Servers.HandleNext | server/Src/server.cpp:91-107 | One pass of the loop serves the next block of the stream, or ends |
| Servers.HandleClient | server/Src/server.cpp:87-108 | A whole connection, on one reused buffer, serves exactly the messages of the stream's consecutive 17-byte blocks, in order, and drops only a shorter tail |
| Wire.CodecRoundTrip | server/Src/server.cpp:126-151 | Parsing inverts the packed layout on every valid message, re-encoding a parsed buffer gives back its bytes, and a buffer is rejected exactly when its first byte exceeds 2 |
| Wire.LayoutIsPacked | STM32/GPS_sim/Inc/gps_sim.h:39-45 | The bytes on the wire: the type, then four little-endian fields from bytes 1, 5, 9 and 13 on |
| Wire.BlocksOfEncoded | BBG/Inc/gps_msg.h:26-35 | Cutting encoded messages into 17-byte blocks gives back the messages, whatever shorter tail follows |
| Wire.BlocksOfPrefix | server/Src/server.cpp:110-124 | A prefix of a stream yields a prefix of its messages |
| Words.WrapRoundTrip | server/Src/db.cpp:119-121 | Wrapping a licence or id into an int and back loses nothing, so lookups never confuse two of them |
| Words.WrappedDifference | server/Src/db.cpp:168 | The wrapped difference of two wrapped timestamps is the true one if and only if it fits an int |
| EthProcesses.EthProcess.ReadMessage | BBG/Src/eth_process.c:39-54 | A pipe read takes one message, throws a short one away, and an error takes nothing |
| EthProcesses.EthProcess.Deliver | BBG/Src/eth_process.c:65-88 | The retry loop is the iterated attempt; it completes the message if and only if some try's write is accepted whole on a connection it makes or, for the first, finds; nothing else is completed |
| EthProcesses.DeliversIff | BBG/Src/eth_process.c:67-88 | The same of every list of tries, so that the first such try completes the message |
| EthProcesses.AttemptCompletesIff | BBG/Src/eth_process.c:69-81 | A pass with a connection and a full write completes exactly the held message; any other keeps it, completes nothing and leaves no socket |
| EthProcesses.AttemptSends | BBG/Src/eth_process.c:79-85 | As many bytes of the message as the write accepts go to the current or new connection, which stays open only if that is all of them |
| EthProcesses.AttemptKeeps | BBG/Src/eth_process.c:67-88 | Whatever a pass of the retry loop meets, messages in sockets, in hand and in the pipe are together unchanged, and every stream stays framed |
| EthProcesses.ReadKeeps | BBG/Src/eth_process.c:41-54 | A read never comes up short and keeps the same messages in the same order |
| EthProcesses.ShortReadIsLost | BBG/Src/eth_process.c:50-54 | A read of fewer bytes than a message would throw them away |
| EthProcesses.ReceiveKeeps | server/Src/server.cpp:110-124 | Receiving any number of bytes keeps the server's blocks aligned with the client's frames |
| EthProcesses.ReceiveAdvances | server/Src/server.cpp:114-123 | Every chunk up to a whole request is taken, and the number of bytes received determines what has been decoded |
| EthProcesses.DecodedIsPrefix | server/Src/server.cpp:87-124 | Each connection decodes a prefix of the messages written whole to it, and all of them once it is read to its end |
| EthProcesses.AllReadAllDecoded | server/Src/server.cpp:87-124 | If every stream is read to its end, the decoded requests in connection order are the completed messages |
| Pipelines.NoDuplicateNoShiftedFrame | BBG/Src/eth_process.c:65-88 | Under every failure schedule: prefix per connection, no message completed twice over all connections, and equality once everything is read |
| Pipelines.Conservation | STM32/Core/Src/main.c:163 | In every reachable state completed, held, piped and upstream messages are in this order a subsequence of the emitted ones, field for field; past the I2C process none is lost; the queue never exceeds 16 |
| Pipelines.PipeStaysAligned | BBG/Src/i2c_process.c:88-94 | The pipe always holds whole messages, which are read in exactly the order they were written |
| Pipelines.FaultFreeDelivers | BBG/Src/eth_process.c:35-92 | For every run of the vehicle there is a run of the whole system in which the server decodes exactly the announcements that the validator forwards, and nothing is left on the way |
| Pipelines.QueueTakesSixteen | STM32/Core/Src/main.c:163 | The queue fills up to sixteen messages, and with sixteen in it the vehicle's task is blocked |
| Pipelines.AbandonedIsFinal | server/Src/server.cpp:93-96 | What is decoded when the server stops reading a connection is all it ever decodes from it |
| I2cSenders.I2cSender.Send | STM32/GPS_sim/Src/i2c_send.c:21-49 | The loop takes the oldest message each time and puts on the bus those whose single transmission succeeds |
| I2cSenders.BusCarriesDelivered | STM32/GPS_sim/Src/i2c_send.c:40-45 | Read in units of 17 bytes, the bus yields exactly the messages at the positions of the successful transmissions, in queue order |
| I2cSenders.PassIsGetAndTransmit | STM32/GPS_sim/Src/i2c_send.c:26-46 | One pass is the two pipeline actions: the message leaves the queue for good and arrives unaltered exactly if transmitted |
| I2cProcesses.I2cProcess.MemcpyValidate | BBG/Src/i2c_process.c:100-134 | The buffer is decoded into the message whether or not it is accepted, and accepted exactly if it passes every check |
| I2cProcesses.I2cProcess.Pass | BBG/Src/i2c_process.c:50-96 | Only a full-length, accepted START or STOP whose write succeeds enters the pipe, byte for byte |
| I2cProcesses.OnlyTopLongitudeExceeds | BBG/Inc/gps_msg.h:17 | Of all floats within the vehicle's box, exactly one exceeds the validator's longitude bound: 35.9f |
| I2cProcesses.AcceptedIff | BBG/Src/i2c_process.c:104-131 | Of all messages, those accepted: known type, licence from 1000000 up, a time between the factory clock and now, and a place in the vehicle's box off its eastern edge; a NaN coordinate passes too |
| I2cProcesses.SentMessageAcceptedIff | BBG/Src/i2c_process.c:104-131 | Of everything a vehicle sends in any run, the validator accepts exactly what has a licence from 1000000 up, is not dated after its clock and was not sent from the eastern edge |
| I2cProcesses.AcceptedTimesAreExact | BBG/Src/i2c_process.c:124-131 | With the clock below 2^31, the server's conversions, the duration and the rounding up to hours are exact for accepted timestamps |
| Simulator.GpsTask.constructor | STM32/GPS_sim/Src/gps_sim.c:20-36 | The initial globals |
| Simulator.GpsTask.Iterate | STM32/GPS_sim/Src/gps_sim.c:38-73 | One pass of the task: the next globals and the message sent, in every branch; what that means over whole runs, `Simulator.TraceIsInGrammar`, `Journeys.DrivingMoves`, `Journeys.SessionNeverMoves` and `Journeys.TimesAreExact` say |
| Simulator.GpsTask.UpdatePosition | STM32/GPS_sim/Src/gps_sim.c:85-97 | The four comparisons bring the vehicle into the box if and only if no coordinate is NaN, and leave it where the step took it if that is within |
| Coordinates.ClampInRange | STM32/GPS_sim/Src/gps_sim.c:93-96 | Clamping brings everything but NaN into the range and keeps what is in it |
| Coordinates.ClampIsNearest | STM32/GPS_sim/Src/gps_sim.c:93-96 | Clamping takes the nearest value of the range |
| Simulator.TraceIsInGrammar | STM32/GPS_sim/Src/gps_sim.c:36-69 | Every trace is a prefix of IDLE^n0 (START IDLE^(d-1) STOP IDLE^n)* with n0, n in 5..15 and d in 1..10, and no counter ever wraps or underflows |
| Simulator.DrawIsCongruent | STM32/GPS_sim/Src/gps_sim.c:80-83 | What is drawn is the number of the range that exceeds its minimum by the remainder of `rand` |
| Journeys.EveryPrefixOccurs | STM32/GPS_sim/Src/gps_sim.c:36-83 | Conversely, every prefix of every word of that grammar is the trace of some run |
| Journeys.SessionNeverMoves | STM32/GPS_sim/Src/gps_sim.c:40-69 | From START to STOP every message carries the same coordinates |
| Journeys.DrivingMoves | STM32/GPS_sim/Src/gps_sim.c:59-62 | Outside its sessions, in every run, the vehicle sends the place its step took it to, or the edge the step went past |
| Journeys.TimesAreExact | STM32/Core/Src/main.c:474-477 | Every message carries the start time plus the timer interrupts up to it, modulo 2^32 |
| Journeys.ClockIsMonotone | STM32/Core/Src/main.c:474-477 | Timestamps never decrease while the clock does not wrap |
| Journeys.StaysInBox | STM32/GPS_sim/Src/gps_sim.c:85-97 | In a run without NaN every message's coordinates lie in the clamp box |
| Journeys.MarksArePaired | STM32/GPS_sim/Src/gps_sim.c:99-109 | STARTs and STOPs alternate, and each STOP repeats its START's place and is not older |
| Coordinates.StartInBox | STM32/GPS_sim/Inc/gps_sim.h:13-19 | The starting point lies in the box |
| Floats.FloatSpacing | BBG/Inc/gps_msg.h:26-35 | Zero is zero, and each float exceeds the one before by one unit of its binade |
| Floats.FloatsAscend | BBG/Inc/gps_msg.h:26-35 | The order of the bit patterns of positive floats is the order of the numbers |
| Floats.FloatClasses | BBG/Inc/gps_msg.h:26-35 | Which patterns are numbers, infinities and NaN |
| Floats.SignNegates | BBG/Inc/gps_msg.h:26-35 | The sign bit negates |

## Left out

- SQLite itself: statements are functions on rows in id order, `backup` is an atomic whole copy, and the declared foreign keys are not enforced because nothing enables them.
- A database whose file cannot be opened has no tables: the model shows a blank content there, and the failing statements are for the environment to say.
- The exhaustion of AUTOINCREMENT ids.
- Names with an embedded NUL character, which SQLite would cut there.
- Money that is NaN or infinite, and rounding of `double` in prices and distances.
- Sessions.InterleavedEndToEnd: assumes that a vehicle's requests reach the threads in decoding order. One connection guarantees it; two connections of the same vehicle are read by independent threads, which do not.
- Threads.InterleavingIsSerial: does not cover the price updater's statements, which run in another process; the lot table is fixed there.
- Recovery.AcknowledgedSurvive: does not cover another process opening the database between a mutation and its copy to disk.
- Journeys.EveryPrefixOccurs: draws are free; the sequence that the fixed seed of `rand` yields is not modelled.
- Journeys.StaysInBox: assumes the random step does not produce NaN; rounding of the addition is not modelled.
- Atomicity of pipe writes of 17 bytes is an assumption, guaranteed by POSIX.1 `write()` and PIPE_BUF; a full pipe that blocks the writer is a write that has not happened yet.
- The microcontroller's HAL and kernel, sockets and the I2C bus: only their outcomes (delivered, dropped, so many bytes accepted, a chunk received).
- Delivery beyond a full `write`: bytes accepted by a socket may never be read; the theorems speak of what is read.
- Logging, including the malformed log text for an invalid type byte (`server/Src/server.cpp:132`), and the output of the command line.
- Configuration, installation, argument parsing and the user interface (`BBG/Src/main.c`, `BBG/Src/config.c`, the command line of the price updater).
- Generated and vendored code of the microcontroller, except the clock tick and the queue size.
