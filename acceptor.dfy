/**
 * The acceptor object. The source keeps the highest proposal id and the map of
 * promises as class attributes of one object; here they are the fields of an
 * `Acceptor`, and `State()` gives their value as an `AcceptorSpec.AcceptorState`.
 */
module AcceptorObject {
  import opened Wrappers
  import opened Messages
  import AcceptorSpec

  class Acceptor {
    var highest: int
    var currentRequests: map<string, Promise>

    /** The state a freshly started acceptor holds: highest id -1 and no promises. */
    constructor ()
      ensures State() == AcceptorSpec.Init()
    {
      highest := AcceptorSpec.InitialHighest;
      currentRequests := map[];
    }

    function State(): AcceptorSpec.AcceptorState
      reads this
    {
      AcceptorSpec.AcceptorState(highest, currentRequests)
    }

    /** Always answers None and changes nothing: the source never deletes the promise. */
    method RemoveLastPromise(key: string) returns (r: Option<Promise>)
      ensures r == None
    {
      if key !in currentRequests {
        return None;
      }
      r := None;
    }

    /** Stores the promise under its key and makes its id the highest, whatever the old highest was. */
    method SetLastPromise(lastPromise: Promise)
      modifies this
      ensures State() == AcceptorSpec.RecordPromise(old(State()), lastPromise)
      ensures highest == lastPromise.prepare.proposal.id
      ensures currentRequests == old(currentRequests)[lastPromise.prepare.proposal.key := lastPromise]
    {
      currentRequests := currentRequests[lastPromise.prepare.proposal.key := lastPromise];
      highest := lastPromise.prepare.proposal.id;
    }

    /** The promise stored for `key`, or None when the key has none. */
    function GetLastPromise(key: string): (r: Option<Promise>)
      reads this
      ensures r.Some? <==> key in currentRequests
      ensures r.Some? ==> r.value == currentRequests[key]
    {
      AcceptorSpec.LastPromise(State(), key)
    }

    /**
     * Returns the highest id. A truthy argument (present and non-zero) first
     * replaces it; None or 0 leaves it as it was.
     */
    method HighestProposal(highestProposal: Option<int>) returns (h: int)
      modifies this
      ensures highestProposal.Some? && highestProposal.value != 0 ==> highest == highestProposal.value
      ensures highestProposal.None? || highestProposal.value == 0 ==> highest == old(highest)
      ensures currentRequests == old(currentRequests)
      ensures h == highest
    {
      if highestProposal.Some? && highestProposal.value != 0 {
        highest := highestProposal.value;
      }
      h := highest;
    }

    /** Promise exactly when the Prepare's id is strictly above the highest id. */
    function ShouldPromise(prepare: Prepare): (b: bool)
      reads this
      ensures b <==> prepare.proposal.id > highest
    {
      AcceptorSpec.ShouldPromise(State(), prepare)
    }

    /** Accept exactly when the request's id is at least the highest id. */
    function ShouldAccept(request: AcceptRequest): (b: bool)
      reads this
      ensures b <==> request.proposal.id >= highest
    {
      AcceptorSpec.ShouldAccept(State(), request)
    }
  }
}
