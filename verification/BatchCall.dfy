/** Collecting the responses of a batch (`BatchCallContext` in `gethrpc/client.go`). */
module BatchCall {
  import opened Options
  import opened RpcProtocol
  import opened RpcGuarantees

  /** A response message; the error and the result are opaque. */
  datatype Response = Response(id: Id, error: Option<int>, result: seq<int>)

  /** What `wait` returns: a message, or an error when the channel was closed or the context
      has ended. */
  datatype WaitResult = Got(resp: Response) | Failed

  /** The `Error` and `Result` of an element: not set, the server's error, no result, or what
      unmarshalling the result gives. */
  datatype Filled = Unset | ServerError(code: int) | NoResult | Unmarshalled(result: seq<int>)

  /** An element holds what a response says: the server's error if it has one, else no result if there is
      none, else what the result unmarshals to. */
  predicate Holds(elem: Filled, r: Response) {
    match (r.error, r.result)
    case (Some(code), _) => elem == ServerError(code)
    case (None, result) => elem == if |result| == 0 then NoResult else Unmarshalled(result)
  }

  /** What the dispatch path guarantees of the responses of one batch: its ids are distinct, and
      so are those of the responses, which are among them. */
  predicate FromDispatch(ids: seq<Id>, got: seq<Id>) {
    NoDup(ids) && NoDup(got) && forall id :: id in got ==> id in ids
  }

  /** The messages that `wait` receives come in the order in which they were sent on the channel,
      so the protocol gives what the loop below relies on. */
  lemma DispatchProvides(conn: Conn, steps: seq<Step>, s: State, op: Op, n: nat)
    requires Reaches(conn, steps, s) && op in s.ops && n <= |s.ops[op].resp.sent|
    ensures FromDispatch(s.ops[op].ids, s.ops[op].resp.sent[..n])
  {
    ChannelsUsedOnce(conn, steps, s, op);
    hide Run, After;
    var sent := s.ops[op].resp.sent;
    forall id | id in sent[..n]
      ensures id in s.ops[op].ids
    {
      assert id in sent;
    }
  }

  /** The messages before the first failure. */
  function Received(waits: seq<WaitResult>): seq<Response> {
    if waits == [] || waits[0].Failed? then [] else [waits[0].resp] + Received(waits[1..])
  }

  function Ids(rs: seq<Response>): (r: seq<Id>)
    ensures |r| == |rs|
    ensures forall i :: 0 <= i < |rs| ==> r[i] == rs[i].id
  {
    seq(|rs|, i requires 0 <= i < |rs| => rs[i].id)
  }

  /** Element `i` holds the response with its id, if one is there, and else what it held. */
  predicate HoldsResponses(ids: seq<Id>, rs: seq<Response>, before: seq<Filled>, after: seq<Filled>) {
    |before| == |ids| && |after| == |ids| &&
    (forall i, j :: 0 <= i < |ids| && 0 <= j < |rs| && rs[j].id == ids[i] ==> Holds(after[i], rs[j])) &&
    (forall i :: 0 <= i < |ids| && ids[i] !in Ids(rs) ==> after[i] == before[i])
  }

  lemma {:induction false} ReceivedAt(waits: seq<WaitResult>, n: nat)
    requires n <= |waits| && forall i :: 0 <= i < n ==> waits[i].Got?
    ensures |Received(waits)| >= n && forall i :: 0 <= i < n ==> Received(waits)[i] == waits[i].resp
    ensures n < |waits| && waits[n].Failed? ==> |Received(waits)| == n
    ensures n == |waits| ==> |Received(waits)| == n
  {
    if n > 0 {
      ReceivedAt(waits[1..], n - 1);
    }
  }

  /** As many distinct ids as there are elements are all of the elements' ids. */
  lemma AllFilled(ids: seq<Id>, got: seq<Id>)
    requires FromDispatch(ids, got) && |got| == |ids|
    ensures forall i :: 0 <= i < |ids| ==> ids[i] in got
  {
    DistinctCount(ids);
    DistinctCount(got);
    assert Elements(got) <= Elements(ids);
    assert Elements(ids) == Elements(got) + (Elements(ids) - Elements(got));
    assert |Elements(ids) - Elements(got)| == 0;
    forall i | 0 <= i < |ids|
      ensures ids[i] in got
    {
      assert ids[i] in Elements(ids);
      assert ids[i] !in Elements(ids) - Elements(got);
    }
  }

  /** The search for the element with a response's id. */
  method FindElement(ids: seq<Id>, id: Id) returns (k: nat)
    requires id in ids
    ensures k < |ids| && ids[k] == id && id !in ids[..k]
  {
    k := 0;
    while ids[k] != id
      invariant k < |ids| && id !in ids[..k]
      decreases |ids| - k
    {
      assert ids == ids[..k] + [ids[k]] + ids[k + 1..];
      k := k + 1;
    }
  }

  /**
   The loop of `BatchCallContext` after the send. Every response that is read matches an element
   (the search never fails), distinct responses fill distinct elements, and a loop that ends
   without error has filled every element, each with the one response that has its id.
   */
  method CollectResponses(elems: array<Filled>, ids: seq<Id>, waits: seq<WaitResult>) returns (failed: bool)
    requires elems.Length == |ids| == |waits|
    requires FromDispatch(ids, Ids(Received(waits)))
    modifies elems
    ensures HoldsResponses(ids, Received(waits), old(elems[..]), elems[..])
    ensures failed <==> exists i :: 0 <= i < |waits| && waits[i].Failed?
    ensures !failed ==> forall i :: 0 <= i < |ids| ==> ids[i] in Ids(Received(waits))
  {
    ghost var all := Received(waits);
    var n := 0;
    ReceivedAt(waits, 0);
    while n < |ids|
      invariant 0 <= n <= |ids|
      invariant forall i :: 0 <= i < n ==> waits[i].Got?
      invariant n <= |all| && forall i :: 0 <= i < n ==> all[i] == waits[i].resp
      invariant HoldsResponses(ids, all[..n], old(elems[..]), elems[..])
    {
      ReceivedAt(waits, n);
      if waits[n].Failed? {
        assert all[..n] == all;
        return true;
      }
      ReceivedAt(waits, n + 1);
      var resp := waits[n].resp;
      assert Ids(all)[n] == resp.id;
      var k := FindElement(ids, resp.id);
      ghost var was := elems[..];
      if resp.error.Some? {
        elems[k] := ServerError(resp.error.value);
      } else if resp.result == [] {
        elems[k] := NoResult;
      } else {
        elems[k] := Unmarshalled(resp.result);
      }
      FillOne(ids, all, n, k, old(elems[..]), was, elems[..]);
      n := n + 1;
    }
    ReceivedAt(waits, n);
    assert all[..n] == all;
    AllFilled(ids, Ids(all));
    failed := false;
  }

  lemma FillOne(ids: seq<Id>, rs: seq<Response>, n: nat, k: nat, before: seq<Filled>, was: seq<Filled>,
          now: seq<Filled>)
    requires FromDispatch(ids, Ids(rs)) && n < |rs| && k < |ids| && ids[k] == rs[n].id
    requires HoldsResponses(ids, rs[..n], before, was) && |now| == |was|
    requires now == was[k := now[k]] && Holds(now[k], rs[n])
    ensures HoldsResponses(ids, rs[..n + 1], before, now)
  {
    var got := rs[..n + 1];
    forall i, j | 0 <= i < |ids| && 0 <= j < n + 1 && got[j].id == ids[i]
      ensures Holds(now[i], got[j])
    {
      if j == n {
        assert i == k;
      } else {
        assert Ids(rs)[j] != Ids(rs)[n];
        assert rs[..n][j] == got[j];
      }
    }
    forall i | 0 <= i < |ids| && ids[i] !in Ids(got)
      ensures now[i] == before[i]
    {
      assert Ids(got)[n] == ids[k];
      assert forall j :: 0 <= j < n ==> Ids(rs[..n])[j] == Ids(got)[j];
    }
  }
}
