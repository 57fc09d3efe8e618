/**
 * The decision logic of the two POST handlers. The transport (parsing the body,
 * writing the response) is left to the caller; the learners' replies are given
 * as data, one per configured learner, in the order the learners are listed.
 */
module Handlers {
  import opened Wrappers
  import opened Messages
  import opened AcceptorSpec
  import opened AcceptorObject

  /** Handles a Prepare: answers with the new promise and the previous one, recording the promise only on ACK. */
  method HandlePrepare(acceptor: Acceptor, prepare: Prepare) returns (response: PrepareResponse)
    modifies acceptor
    ensures (response, acceptor.State()) == PrepareStep(old(acceptor.State()), prepare)
    ensures response.lastPromise == old(acceptor.GetLastPromise(prepare.proposal.key))
    ensures old(acceptor.highest) <= acceptor.highest
  {
    var lastPromise := acceptor.GetLastPromise(prepare.proposal.key);
    var promise := Promise(prepare, if acceptor.ShouldPromise(prepare) then PromiseAck else PromiseNack);
    if promise.status != PromiseNack {
      acceptor.SetLastPromise(promise);
    }
    response := PrepareResponse(promise, lastPromise);
  }

  /**
   * Handles an AcceptRequest. It may not modify the acceptor, so its state is
   * the same afterwards; its result is the one `AcceptRequestOutcome` describes.
   */
  method HandleAcceptRequest(acceptor: Acceptor, request: AcceptRequest, replies: seq<LearnerReply>)
    returns (outcome: AcceptOutcome)
    ensures outcome == AcceptRequestOutcome(acceptor.State(), request, replies)
  {
    var response := AcceptRequestResponse(request.proposal, Nack);
    var committedCount: nat := 0;
    var contacted: nat := 0;
    if acceptor.ShouldAccept(request) {
      while contacted < |replies|
        invariant contacted <= |replies|
        invariant response.proposal == request.proposal
        invariant (response.status, committedCount) == Tally(replies[..contacted])
      {
        var reply := replies[contacted];
        if reply.status == Some(Committed) {
          response := response.(status := Committed);
          committedCount := committedCount + 1;
        } else if reply.code == HttpOk {
          response := response.(status := Ack);
        } else {
          response := response.(status := Nack);
        }
        assert replies[..contacted + 1][..contacted] == replies[..contacted];
        contacted := contacted + 1;
      }
      assert replies[..contacted] == replies;
    } else {
      response := response.(status := Nack);
    }
    var httpStatus := if response.status == Nack then HttpConflict else HttpOk;
    var _ := acceptor.RemoveLastPromise(request.proposal.key);
    outcome := AcceptOutcome(response, httpStatus, committedCount, contacted);
  }
}
