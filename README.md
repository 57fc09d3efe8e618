# Paxos acceptor, modelled in Dafny

This project models the acceptor of a small single-decree Paxos service
(`acceptor.py`). The acceptor keeps two pieces of state: one highest proposal id
shared by all keys, which starts at -1, and a map from each key to the last
promise recorded for it. It answers two messages:

- **Prepare.** It looks up the key's stored promise. It ACKs when the id is
  strictly above the highest id, and only then records the new promise and its
  id. It answers with the new promise and the previously stored one.
- **AcceptRequest.** It accepts when the id is at least the highest id. An
  accepted request is sent to every learner in turn. Each reply overwrites the
  response status: COMMITTED (and the COMMITTED count goes up), else ACK on
  HTTP 200, else NACK. The status starts at NACK. A final NACK is answered
  with HTTP 409. Handling an AcceptRequest never changes the acceptor's state.

Modules:

- `Wrappers` (`wrappers.dfy`): `Option`.
- `Messages` (`messages.dfy`): proposals, Prepare, Promise, AcceptRequest, the
  response, and the learner reply `(status, code)`.
- `AcceptorSpec` (`acceptor_spec.dfy`): the state as a value, the gating rules,
  `PrepareStep` and `AcceptRequestOutcome` for one message, `Run` over a
  history of messages, and the lemmas about them.
- `AcceptorObject` (`acceptor.dfy`): the `Acceptor` class. Its fields
  `highest` and `currentRequests` are updated in place. `State()` gives their
  value.
- `Handlers` (`handlers.dfy`): the decision logic of the two POST handlers.
  `HandleAcceptRequest` has a loop over the learner replies. It has no
  `modifies` clause, so the frame itself proves that the acceptor's state is
  unchanged.

Where the code departs from textbook Paxos, the model follows the code:

- The highest id is global, not per key.
- Accepting records no `last_accepted` value.
- The final accept status is decided by the last learner reply, not by a
  majority of learners.

## Model

| member | source | states |
|---|---|---|
| `AcceptorObject.Acceptor.constructor` | acceptor.py:31-37 | a new acceptor has highest id -1 and no stored promises |
| `AcceptorObject.Acceptor.RemoveLastPromise` | acceptor.py:39-41 | always returns None and modifies nothing (no `modifies` clause) |
| `AcceptorObject.Acceptor.SetLastPromise` | acceptor.py:43-45 | the promise is stored under its key, other keys keep theirs, and its id becomes the highest whatever the old highest was |
| `AcceptorObject.Acceptor.GetLastPromise` | acceptor.py:47-50 | returns a value exactly when the key has a stored promise, and then that promise |
| `AcceptorObject.Acceptor.HighestProposal` | acceptor.py:52-56 | a present, non-zero argument replaces the highest id; None or 0 leaves it; the stored promises are untouched; the result is the highest id afterwards |
| `AcceptorObject.Acceptor.ShouldPromise` | acceptor.py:58-64 | true exactly when the Prepare's id is strictly above the highest id |
| `AcceptorObject.Acceptor.ShouldAccept` | acceptor.py:66-68 | true exactly when the request's id is at least the highest id |
| `Handlers.HandlePrepare` | acceptor.py:76-90 | response and new state are those of `PrepareStep`; the response carries the promise stored before; the highest id does not decrease |
| `Handlers.HandleAcceptRequest` | acceptor.py:102-134 | the loop over the learner replies produces exactly `AcceptRequestOutcome`; the acceptor is not modified |
| `AcceptorSpec.LastPromise` | acceptor.py:47-50 | the stored promise for a key, or None when the key has none |
| `AcceptorSpec.ShouldPromise` | acceptor.py:59-64 | the strict gate; a promised id would also pass `ShouldAccept` |
| `AcceptorSpec.ShouldAccept` | acceptor.py:67-68 | the non-strict gate; no contract of its own, its relation to `ShouldPromise` is stated by `PromiseImpliesAccept` and `EqualIdAcceptedNotPromised` |
| `AcceptorSpec.RecordPromise` | acceptor.py:43-45 | afterwards the promise is the one stored for its key, its id is the highest, and every other key's promise is unchanged |
| `AcceptorSpec.PrepareStep` | acceptor.py:82-90 | the promise answers this Prepare, is ACK exactly when `ShouldPromise` holds, the response carries the previously stored promise, and the highest id does not decrease; `PrepareAckRecords` and `PrepareNackUnchanged` state the new state |
| `AcceptorSpec.Classify` | acceptor.py:117-123 | a reply yields COMMITTED exactly when its status is COMMITTED, and NACK exactly when it is not COMMITTED and its code is not 200 |
| `AcceptorSpec.AcceptRequestOutcome` | acceptor.py:109-131 | the response echoes the proposal, HTTP 409 exactly on NACK, every learner contacted when accepted and none otherwise, and the count never exceeds the learners contacted |
| `AcceptorSpec.Tally` | acceptor.py:112-123 | the COMMITTED count never exceeds the number of replies |
| `AcceptorSpec.PromiseImpliesAccept` | acceptor.py:59-68 | a promised id would be accepted; an accepted id is promised unless it equals the highest |
| `AcceptorSpec.EqualIdAcceptedNotPromised` | acceptor.py:59-68 | an id equal to the highest is NACKed by Prepare and passes AcceptRequest |
| `AcceptorSpec.PrepareAckRecords` | acceptor.py:83-89 | an ACKed Prepare sets the highest id to its id and stores its promise under its key; every other key's promise is unchanged |
| `AcceptorSpec.PrepareNackUnchanged` | acceptor.py:83-86 | a NACKed Prepare answers NACK and leaves the whole state unchanged |
| `AcceptorSpec.PrepareReturnsPrevious` | acceptor.py:82-90 | the response carries the promise stored for the key before the Prepare, or None when there was none |
| `AcceptorSpec.PrepareHighestIsMax` | acceptor.py:83-89 | after a Prepare the highest id is the larger of the old highest and the Prepare's id |
| `AcceptorSpec.PromisedIdThenAccepted` | acceptor.py:59-68 | after an ACKed Prepare, an AcceptRequest with the same id is accepted and a repeated Prepare with it is NACKed |
| `AcceptorSpec.HighestIsGlobal` | acceptor.py:33-64 | after an ACKed Prepare on any key, every Prepare at or below its id, on any key, is NACKed and changes nothing |
| `AcceptorSpec.LastReplyDecides` | acceptor.py:114-123 | the final status is the classification of the last learner reply, or NACK with no replies |
| `AcceptorSpec.TallyCountsCommitted` | acceptor.py:112-123 | the count equals the number of replies whose status is COMMITTED |
| `AcceptorSpec.TallyCountExtremes` | acceptor.py:112-123 | the count is 0 exactly when no reply is COMMITTED and equals the number of replies exactly when all are |
| `AcceptorSpec.RejectedAcceptIsConflict` | acceptor.py:113-131 | a request below the highest id ends NACK with HTTP 409, count 0 and no learner contacted |
| `AcceptorSpec.AcceptedFoldsReplies` | acceptor.py:113-123 | an accepted request contacts every learner; the last reply decides the status; the count is the COMMITTED replies |
| `AcceptorSpec.NoLearnersIsConflict` | acceptor.py:109-131 | with no learners the status stays NACK and the answer is 409 |
| `AcceptorSpec.AcceptOutcomeShape` | acceptor.py:109-131 | the response echoes the proposal; HTTP 409 exactly on NACK and 200 otherwise; COMMITTED implies a count of at least 1 |
| `AcceptorSpec.RunHighestIsMax` | acceptor.py:83-89 | after any history the highest id is the larger of the initial highest and every Prepare id in it |
| `AcceptorSpec.HighestNeverDecreases` | acceptor.py:83-89 | along any history of Prepares and AcceptRequests the highest id never decreases and never drops below the initial one |
| `AcceptorSpec.PromiseKept` | acceptor.py:66-68 | once a Prepare with id n was handled, every later AcceptRequest below n is rejected with 409 |
| `AcceptorSpec.InitConsistent` | acceptor.py:33-34 | the initial state satisfies the invariant: stored promises are ACKs under their own key with ids at most the highest |
| `AcceptorSpec.RunPreservesConsistent` | acceptor.py:83-89 | every history of Prepares and AcceptRequests preserves that invariant |

## Left out

- `client.py`: a demonstration HTTP client with no algorithmic content.
- HTTP transport, JSON parsing of request bodies, the `get` health probes, `main()`, option parsing and logging. The call to `highest_proposal()` inside the rejection log message (acceptor.py:127) is part of logging.
- Sending to learners (`send`) and the coroutine suspension at `yield`: network I/O and cooperative concurrency. The learners' replies are an input sequence, one per configured learner in list order; the learner list itself (`LEARNER_URLS`) is therefore given by its length. A learner that fails in transport is not modelled. Nor is what each learner is sent: the source sends the response object whose status the loop keeps overwriting (acceptor.py:115), so learner i receives the status left by reply i-1 and the first learner receives NACK; the model records no outgoing message.
- The message classes of `utils.py` and `settings.py` are not part of this model; the datatypes in `Messages` are minimal stand-ins. A proposal carries no value. A learner reply's `status` is `None` when the body holds no known status.
- The threshold at acceptor.py:124 is an unfinished statement with no body, and it is a syntax error. The model computes the COMMITTED count but gives it no threshold.
- The `in_flight_requests.append` at acceptor.py:111 names an undefined global, and nothing reads the list. The model treats that line as absent.
- The instance field `last_promise` set in `Acceptor.__init__` (acceptor.py:37) is never read, so it is not modelled.
- The Python class attributes shared by all instances are modelled as fields of a single `Acceptor` object, the one the module creates at acceptor.py:71.
- Proposer, Learner and the majority helper live outside `acceptor.py` and are not modelled.
