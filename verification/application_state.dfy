/** The process-wide message counter (`api.ApplicationState`): one integer that
    starts at 0 and is incremented under a mutex each time a message is issued.
    The mutex is kept as a flag that says whether it is held, so that the
    pairing of lock and unlock can be stated; callers are sequential here. */
module AppState {

  /** The values returned by the first `k` issuances on a fresh state, in call order. */
  function Issued(k: nat): (r: seq<int>)
    ensures |r| == k
    decreases k
  {
    if k == 0 then [] else Issued(k - 1) + [k]
  }

  /** The i-th issuance (counting from 0) returns i + 1. */
  lemma {:induction false} IssuedAt(k: nat, i: nat)
    requires i < k
    ensures Issued(k)[i] == i + 1
    decreases k
  {
    if i < k - 1 {
      IssuedAt(k - 1, i);
    }
  }

  /** Issued values are strictly increasing in call order, hence never repeated. */
  lemma IssuedStrictlyIncreasing(k: nat, i: nat, j: nat)
    requires i < j < k
    ensures Issued(k)[i] < Issued(k)[j]
  {
    IssuedAt(k, i);
    IssuedAt(k, j);
  }

  class ApplicationState {
    /** `totalMessagesSent`: the number of messages issued so far. */
    var totalMessagesSent: int
    /** Whether `appStateMutex` is currently held. */
    var locked: bool
    /** Every value `NewMessage` has returned on this state, in call order. */
    ghost var issued: seq<int>

    /** Between calls the mutex is free and the counter equals the number of
        issuances, whose returned values are 1, 2, ..., totalMessagesSent. */
    ghost predicate Valid()
      reads this
    {
      && totalMessagesSent >= 0
      && !locked
      && issued == Issued(totalMessagesSent)
    }

    /** `NewApplicationState`: a counter at 0 with nothing issued. */
    constructor ()
      ensures Valid()
      ensures totalMessagesSent == 0 && issued == []
    {
      totalMessagesSent := 0;
      locked := false;
      issued := [];
    }

    /** `NewMessage`: under the lock, add one to the counter and return the new value;
        the deferred unlock leaves the mutex released, which `Valid()` includes. */
    method NewMessage() returns (n: int)
      requires Valid()
      modifies this
      ensures Valid()
      ensures totalMessagesSent == old(totalMessagesSent) + 1
      ensures n == totalMessagesSent
      ensures issued == old(issued) + [n]
    {
      locked := true;
      totalMessagesSent := totalMessagesSent + 1;
      n := totalMessagesSent;
      issued := issued + [n];
      locked := false;
    }
  }

  /** A client making `k` calls on a fresh state receives 1, 2, ..., k. */
  method IssueFresh(k: nat) returns (values: seq<int>)
    ensures values == Issued(k)
    ensures forall i :: 0 <= i < k ==> values[i] == i + 1
  {
    var state := new ApplicationState();
    values := [];
    for c := 0 to k
      invariant state.Valid() && state.totalMessagesSent == c
      invariant values == state.issued
    {
      var n := state.NewMessage();
      values := values + [n];
    }
    forall i | 0 <= i < k ensures values[i] == i + 1 {
      IssuedAt(k, i);
    }
  }
}
