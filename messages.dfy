/**
 * The messages the acceptor exchanges. The repository's own message classes
 * (in `utils.py`) are not part of this model; these are the minimal shapes the
 * acceptor reads and writes.
 */
module Messages {
  import opened Wrappers

  /** A proposal for one key. Proposal ids are the source's bare integers. */
  datatype Proposal = Proposal(key: string, id: int)

  /** Phase-1a message from a proposer. */
  datatype Prepare = Prepare(proposal: Proposal)

  datatype PromiseStatus = PromiseAck | PromiseNack

  /** The acceptor's answer to a Prepare. */
  datatype Promise = Promise(prepare: Prepare, status: PromiseStatus)

  /** What the prepare handler responds with: the new promise and the one stored before it. */
  datatype PrepareResponse = PrepareResponse(promise: Promise, lastPromise: Option<Promise>)

  /** Phase-2a message from a proposer. */
  datatype AcceptRequest = AcceptRequest(proposal: Proposal)

  datatype AcceptStatus = Committed | Ack | Nack

  /** The acceptor's answer to an AcceptRequest. */
  datatype AcceptRequestResponse = AcceptRequestResponse(proposal: Proposal, status: AcceptStatus)

  /**
   * One learner's reply to a learn notification: the `status` field of its JSON
   * body (None when absent or not a known status) and its HTTP code.
   */
  datatype LearnerReply = LearnerReply(status: Option<AcceptStatus>, code: int)

  const HttpOk: int := 200
  const HttpConflict: int := 409
}
