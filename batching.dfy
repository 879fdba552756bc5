/**
 * `getSummaries`: the ids are cut into consecutive batches of at most 50,
 * one request is made per batch, and the responses are concatenated in
 * order. The request itself is the parameter `fetch`, a function from a
 * batch of ids to the decoded response.
 */
module Batching {

  /** The most ids one summary request carries. */
  const BatchSize: nat := 50

  function Min(a: int, b: int): int { if a <= b then a else b }

  /** The batches the loop cuts once its cursor stands at `from`. */
  function BatchesFrom(ids: seq<int>, from: nat): seq<seq<int>>
    requires from <= |ids|
    decreases |ids| - from
  {
    if from == |ids| then []
    else
      var to := Min(from + BatchSize, |ids|);
      [ids[from..to]] + BatchesFrom(ids, to)
  }

  /** The batches `getSummaries` requests, in order. */
  function Batches(ids: seq<int>): seq<seq<int>>
  {
    BatchesFrom(ids, 0)
  }

  function Flatten<T>(xss: seq<seq<T>>): seq<T>
  {
    if xss == [] then [] else xss[0] + Flatten(xss[1..])
  }

  /** The responses to the requests `batches`, concatenated in order. */
  function FetchAll<T>(fetch: seq<int> -> seq<T>, batches: seq<seq<int>>): seq<T>
  {
    if batches == [] then [] else fetch(batches[0]) + FetchAll(fetch, batches[1..])
  }

  lemma {:induction false} FetchAllAppend<T>(fetch: seq<int> -> seq<T>, a: seq<seq<int>>, b: seq<seq<int>>)
    ensures FetchAll(fetch, a + b) == FetchAll(fetch, a) + FetchAll(fetch, b)
  {
    if a != [] {
      assert (a + b)[1..] == a[1..] + b;
      FetchAllAppend(fetch, a[1..], b);
    } else {
      assert a + b == b;
    }
  }

  /**
   * The loop of `getSummaries`. It returns the concatenated responses and,
   * as `requests`, the batches it asked for in the order it asked.
   */
  method GetSummaries<T>(ids: seq<int>, fetch: seq<int> -> seq<T>) returns (result: seq<T>, requests: seq<seq<int>>)
    ensures requests == Batches(ids)
    ensures result == FetchAll(fetch, Batches(ids))
  {
    result, requests := [], [];
    var from := 0;
    while from < |ids|
      invariant from <= |ids|
      invariant requests + BatchesFrom(ids, from) == Batches(ids)
      invariant result == FetchAll(fetch, requests)
      decreases |ids| - from
    {
      var to := Min(from + BatchSize, |ids|);
      var batch := ids[from..to];
      FetchAllAppend(fetch, requests, [batch]);
      assert FetchAll(fetch, [batch]) == fetch(batch);
      result := result + fetch(batch);
      requests := requests + [batch];
      from := to;
    }
    assert requests + [] == requests;
  }

  /** Coverage and order: the batches put back together are exactly the ids. */
  lemma {:induction false} BatchesFromCover(ids: seq<int>, from: nat)
    requires from <= |ids|
    ensures Flatten(BatchesFrom(ids, from)) == ids[from..]
    decreases |ids| - from
  {
    if from < |ids| {
      var to := Min(from + BatchSize, |ids|);
      BatchesFromCover(ids, to);
      var bs := BatchesFrom(ids, from);
      assert bs[1..] == BatchesFrom(ids, to);
      assert ids[from..] == ids[from..to] + ids[to..];
    }
  }

  lemma BatchesCover(ids: seq<int>)
    ensures Flatten(Batches(ids)) == ids
  {
    BatchesFromCover(ids, 0);
  }

  /** Batch `k` is the slice of the ids from 50k up to 50k + 50 or the end, whichever comes first. */
  lemma {:induction false} BatchesFromShape(ids: seq<int>, from: nat)
    requires from <= |ids|
    ensures |BatchesFrom(ids, from)| == (|ids| - from + BatchSize - 1) / BatchSize
    ensures forall k :: 0 <= k < |BatchesFrom(ids, from)| ==>
      from + k * BatchSize < |ids| &&
      BatchesFrom(ids, from)[k] == ids[from + k * BatchSize..Min(from + k * BatchSize + BatchSize, |ids|)]
    decreases |ids| - from
  {
    if from < |ids| {
      var to := Min(from + BatchSize, |ids|);
      BatchesFromShape(ids, to);
      var bs := BatchesFrom(ids, from);
      var rest := BatchesFrom(ids, to);
      assert bs == [ids[from..to]] + rest;
      forall k | 0 < k < |bs|
        ensures from + k * BatchSize < |ids|
        ensures bs[k] == ids[from + k * BatchSize..Min(from + k * BatchSize + BatchSize, |ids|)]
      {
        assert bs[k] == rest[k - 1];
        assert to == from + BatchSize;
        assert to + (k - 1) * BatchSize == from + k * BatchSize;
      }
    }
  }

  /**
   * The batches are consecutive slices of `ids`, each of 1 to 50 ids;
   * there are ceil(|ids| / 50) of them, so no id list gives no request.
   */
  lemma BatchesShape(ids: seq<int>)
    ensures |Batches(ids)| == (|ids| + BatchSize - 1) / BatchSize
    ensures ids == [] <==> Batches(ids) == []
    ensures forall k :: 0 <= k < |Batches(ids)| ==>
      k * BatchSize < |ids| && Batches(ids)[k] == ids[k * BatchSize..Min(k * BatchSize + BatchSize, |ids|)]
    ensures forall k :: 0 <= k < |Batches(ids)| ==> 1 <= |Batches(ids)[k]| <= BatchSize
  {
    BatchesFromShape(ids, 0);
  }

  /** Applying `f` to each id of a batch; the shape of a response that answers id by id. */
  function MapIds<T>(f: int -> T, xs: seq<int>): (r: seq<T>)
    ensures |r| == |xs| && forall i :: 0 <= i < |xs| ==> r[i] == f(xs[i])
  {
    if xs == [] then [] else [f(xs[0])] + MapIds(f, xs[1..])
  }

  lemma MapIdsAppend<T>(f: int -> T, a: seq<int>, b: seq<int>)
    ensures MapIds(f, a + b) == MapIds(f, a) + MapIds(f, b)
  {
  }

  lemma {:induction false} FetchAllPointwise<T>(fetch: seq<int> -> seq<T>, f: int -> T, batches: seq<seq<int>>)
    requires forall b :: fetch(b) == MapIds(f, b)
    ensures FetchAll(fetch, batches) == MapIds(f, Flatten(batches))
  {
    if batches != [] {
      FetchAllPointwise(fetch, f, batches[1..]);
      MapIdsAppend(f, batches[0], Flatten(batches[1..]));
    }
  }

  /**
   * When the server answers each batch with one summary per id, in the
   * batch's order, the whole result holds one summary per id in the
   * order of `ids`: the batch boundaries leave no trace.
   */
  lemma GetSummariesPointwise<T>(ids: seq<int>, fetch: seq<int> -> seq<T>, f: int -> T)
    requires forall b :: fetch(b) == MapIds(f, b)
    ensures FetchAll(fetch, Batches(ids)) == MapIds(f, ids)
  {
    FetchAllPointwise(fetch, f, Batches(ids));
    BatchesCover(ids);
  }
}
