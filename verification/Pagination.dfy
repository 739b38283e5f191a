/** The paginated listing loop (featurebyte/api/api_object_util.py) against a server whose list may
    grow between requests. */
module Pagination {
  import opened Wrappers
  import opened Arithmetic
  import opened Sequences

  /** What the server answers for one page: skip (page - 1) * pageSize records, then at most pageSize. */
  function Page<T>(list: seq<T>, pageSize: nat, page: nat): seq<T>
    requires page >= 1
  {
    MulMonotone(pageSize, 0, page - 1);
    MulMonotone(pageSize, page - 1, page);
    list[Min(pageSize * (page - 1), |list|)..Min(pageSize * page, |list|)]
  }

  /** `to_request_func` */
  predicate ToRequest<T>(list: seq<T>, pageSize: nat, page: nat) {
    |list| > page * pageSize
  }

  /** Request j + 1, on the list as it then stands, is not the last one. */
  predicate GoesOn<T>(lists: seq<seq<T>>, pageSize: nat, j: nat)
    requires j < |lists|
  {
    ToRequest(lists[j], pageSize, j + 1)
  }

  /** None of the first `k` requests is the last one. */
  predicate AllGoOn<T>(lists: seq<seq<T>>, pageSize: nat, k: nat)
    requires k <= |lists|
  {
    forall j :: 0 <= j < k ==> GoesOn(lists, pageSize, j)
  }

  /** The records of the first `k` pages, each taken from the list as it stands at that request. */
  function Yielded<T>(lists: seq<seq<T>>, pageSize: nat, k: nat): seq<T>
    requires k <= |lists|
  {
    if k == 0 then [] else Yielded(lists, pageSize, k - 1) + Page(lists[k - 1], pageSize, k)
  }

  /** Request k is the last one. */
  ghost predicate EndsAt<T>(lists: seq<seq<T>>, pageSize: nat, k: nat) {
    && 1 <= k <= |lists|
    && AllGoOn(lists, pageSize, k - 1)
    && !GoesOn(lists, pageSize, k - 1)
  }

  lemma {:induction false} YieldedPrefix<T>(a: seq<seq<T>>, b: seq<seq<T>>, pageSize: nat, k: nat)
    requires k <= |a|
    ensures Yielded(a + b, pageSize, k) == Yielded(a, pageSize, k)
  {
    if k > 0 { YieldedPrefix(a, b, pageSize, k - 1); }
  }

  lemma OneMoreRequest<T>(lists: seq<seq<T>>, list: seq<T>, pageSize: nat)
    ensures var k, more := |lists|, lists + [list];
            && Yielded(more, pageSize, k + 1) == Yielded(lists, pageSize, k) + Page(list, pageSize, k + 1)
            && (AllGoOn(lists, pageSize, k) ==> AllGoOn(more, pageSize, k))
            && (GoesOn(more, pageSize, k) <==> ToRequest(list, pageSize, k + 1))
  {
    YieldedPrefix(lists, [list], pageSize, |lists|);
    if AllGoOn(lists, pageSize, |lists|) {
      forall j | 0 <= j < |lists| ensures GoesOn(lists + [list], pageSize, j) {
        assert GoesOn(lists, pageSize, j);
      }
    }
  }

  datatype Outcome = Finished | Raised | Waiting

  /** The loop, given the server's answers in order; None is any status other than 200. The records
      of the pages before a failure have been yielded already. */
  method IteratePages<T>(answers: seq<Option<seq<T>>>, pageSize: nat)
    returns (records: seq<T>, requests: nat, outcome: Outcome, ghost lists: seq<seq<T>>)
    ensures requests <= |answers| && |lists| == requests
    ensures forall j :: 0 <= j < requests ==> answers[j] == Some(lists[j])
    ensures records == Yielded(lists, pageSize, requests)
    ensures outcome.Finished? ==> EndsAt(lists, pageSize, requests)
    ensures !outcome.Finished? ==> AllGoOn(lists, pageSize, requests)
    ensures outcome.Raised? ==> requests < |answers| && answers[requests].None?
    ensures outcome.Waiting? ==> requests == |answers|
  {
    records, requests, lists := [], 0, [];
    var toRequest, page := true, 1;
    while toRequest
      invariant page == requests + 1 && requests <= |answers| && |lists| == requests
      invariant forall j :: 0 <= j < requests ==> answers[j] == Some(lists[j])
      invariant records == Yielded(lists, pageSize, requests)
      invariant requests > 0 ==> AllGoOn(lists, pageSize, requests - 1)
      invariant toRequest == (requests == 0 || GoesOn(lists, pageSize, requests - 1))
      decreases |answers| - requests, toRequest
    {
      if requests == |answers| {
        return records, requests, Waiting, lists;
      }
      if answers[requests].None? {
        return records, requests, Raised, lists;
      }
      var list := answers[requests].value;
      OneMoreRequest(lists, list, pageSize);
      lists := lists + [list];
      toRequest := ToRequest(list, pageSize, page);
      records := records + Page(list, pageSize, page);
      page := page + 1;
      requests := requests + 1;
    }
    outcome := Finished;
  }

  /** Between the first k requests records are only appended. */
  ghost predicate Appending<T>(lists: seq<seq<T>>, k: nat)
    requires k <= |lists|
  {
    forall j :: 0 <= j < k - 1 ==> lists[j] <= lists[j + 1]
  }

  lemma NextSlice<T>(before: seq<T>, list: seq<T>, pageSize: nat, page: nat)
    requires page >= 1 && before <= list && ToRequest(before, pageSize, page)
    ensures before[..Min(pageSize * page, |before|)] + Page(list, pageSize, page + 1)
            == list[..Min(pageSize * (page + 1), |list|)]
  {
    MulMonotone(pageSize, page, page + 1);
    MulMonotone(pageSize, 0, page);
    var n, end := pageSize * page, Min(pageSize * (page + 1), |list|);
    assert before[..n] == list[..n];
    assert list[..n] + list[n..end] == list[..end];
  }

  lemma {:induction false} YieldedIsPrefix<T>(lists: seq<seq<T>>, pageSize: nat, k: nat)
    requires 1 <= k <= |lists| && Appending(lists, k)
    requires AllGoOn(lists, pageSize, k - 1)
    ensures pageSize * k >= 0
    ensures Yielded(lists, pageSize, k) == lists[k - 1][..Min(pageSize * k, |lists[k - 1]|)]
  {
    MulMonotone(pageSize, 0, k);
    if k == 1 {
      assert Yielded(lists, pageSize, 0) == [];
    } else {
      YieldedIsPrefix(lists, pageSize, k - 1);
      assert GoesOn(lists, pageSize, k - 2) && lists[k - 2] <= lists[k - 2 + 1];
      NextSlice(lists[k - 2], lists[k - 1], pageSize, k - 1);
    }
  }

  /** When the loop ends it has yielded the whole list as it stands at the last request. */
  lemma ExactSnapshot<T>(lists: seq<seq<T>>, pageSize: nat, k: nat)
    requires EndsAt(lists, pageSize, k) && Appending(lists, k)
    ensures Yielded(lists, pageSize, k) == lists[k - 1]
  {
    YieldedIsPrefix(lists, pageSize, k);
    assert pageSize * k == k * pageSize;
    assert lists[k - 1][..|lists[k - 1]|] == lists[k - 1];
  }

  /** max(1, ceil(n / pageSize)) */
  function RequestsNeeded(n: nat, pageSize: nat): int
    requires pageSize >= 1
  {
    if n == 0 then 1 else (n + pageSize - 1) / pageSize
  }

  /** Page k is the last one of n records exactly when it is the one the formula names. */
  lemma LastPage(n: nat, pageSize: nat, k: nat)
    requires pageSize >= 1 && k >= 1
    ensures k == RequestsNeeded(n, pageSize) <==> n <= k * pageSize && (k == 1 || (k - 1) * pageSize < n)
  {
    var x := n + pageSize - 1;
    var q := x / pageSize;
    assert (k - 1) * pageSize == k * pageSize - pageSize;
    if n <= k * pageSize && (k - 1) * pageSize < n {
      DivModUnique(x, pageSize, k, x - k * pageSize);
    }
    if n > 0 && q == k {
      assert x == q * pageSize + x % pageSize;
    }
  }

  /** Against an unchanging list request k is the last one exactly when it is the first to reach the end. */
  lemma EndsAtIff<T>(list: seq<T>, lists: seq<seq<T>>, pageSize: nat, k: nat)
    requires 1 <= k <= |lists| && forall j :: 0 <= j < |lists| ==> lists[j] == list
    ensures EndsAt(lists, pageSize, k) <==> |list| <= k * pageSize && (k == 1 || (k - 1) * pageSize < |list|)
  {
    if EndsAt(lists, pageSize, k) && k > 1 {
      assert GoesOn(lists, pageSize, k - 2);
    }
    if k > 1 && (k - 1) * pageSize < |list| {
      forall j | 0 <= j < k - 1 ensures GoesOn(lists, pageSize, j) {
        MulMonotone(pageSize, j + 1, k - 1);
      }
    }
  }

  /** An unchanging list is listed once each, in order, in exactly max(1, ceil(N / p)) requests. */
  lemma UnchangingList<T>(list: seq<T>, lists: seq<seq<T>>, pageSize: nat, k: nat)
    requires pageSize >= 1 && 1 <= k <= |lists| && forall j :: 0 <= j < |lists| ==> lists[j] == list
    ensures EndsAt(lists, pageSize, k) <==> k == RequestsNeeded(|list|, pageSize)
    ensures EndsAt(lists, pageSize, k) ==> Yielded(lists, pageSize, k) == list
  {
    LastPage(|list|, pageSize, k);
    EndsAtIff(list, lists, pageSize, k);
    if EndsAt(lists, pageSize, k) {
      ExactSnapshot(lists, pageSize, k);
    }
  }

  /** The loop against an unchanging list: it ends, with every record once and in order. */
  method ListAll<T>(list: seq<T>, pageSize: nat) returns (records: seq<T>, requests: nat)
    requires pageSize >= 1
    ensures records == list && requests == RequestsNeeded(|list|, pageSize)
  {
    var needed := RequestsNeeded(|list|, pageSize);
    assert needed >= 1 by {
      if |list| > 0 { DivModUnique(|list| + pageSize - 1, pageSize, needed, (|list| + pageSize - 1) % pageSize); }
    }
    var answers := seq(needed, _ => Some(list));
    var outcome;
    ghost var lists;
    records, requests, outcome, lists := IteratePages(answers, pageSize);
    if requests == needed {
      UnchangingList(list, lists, pageSize, needed);
      assert !GoesOn(lists, pageSize, needed - 1);
    } else if outcome.Finished? {
      UnchangingList(list, lists, pageSize, requests);
    }
  }

  predicate EndsWith<T(==)>(xs: seq<T>, ys: seq<T>) {
    |ys| <= |xs| && xs[|xs| - |ys|..] == ys
  }

  /** The server lists newest first unless told otherwise: new records then go to the front. */
  ghost predicate Prepending<T>(lists: seq<seq<T>>) {
    forall i, j :: 0 <= i <= j < |lists| ==> EndsWith(lists[j], lists[i])
  }

  lemma Unchanged<T>(lists: seq<seq<T>>, k: nat)
    requires Prepending(lists) && 1 <= k <= |lists| && lists[0] == lists[k - 1]
    ensures Appending(lists, k)
  {
    forall j | 0 <= j < k ensures lists[j] == lists[k - 1] {
      assert EndsWith(lists[j], lists[0]) && EndsWith(lists[k - 1], lists[j]);
    }
  }

  /** What a grown newest-first list starts with is not what it started with. */
  lemma GrownAtFront<T>(first: seq<T>, last: seq<T>)
    requires EndsWith(last, first) && first != last && first != [] && NoDuplicates(last)
    ensures last[0] != first[0]
  {
    assert last[|last| - |first|..][0] == first[0];
  }

  lemma {:induction false} StartsWithFirst<T>(lists: seq<seq<T>>, pageSize: nat, k: nat)
    requires pageSize >= 1 && 1 <= k <= |lists| && lists[0] != []
    ensures Yielded(lists, pageSize, k) != [] && Yielded(lists, pageSize, k)[0] == lists[0][0]
  {
    if k == 1 {
      assert Yielded(lists, pageSize, 0) == [];
    } else {
      StartsWithFirst(lists, pageSize, k - 1);
    }
  }

  /** With a newest-first listing the loop yields the list at the last request exactly when nothing
      was created since the first one. */
  lemma NewestFirstIff<T>(lists: seq<seq<T>>, pageSize: nat, k: nat)
    requires pageSize >= 1 && Prepending(lists) && EndsAt(lists, pageSize, k) && NoDuplicates(lists[k - 1])
    ensures Yielded(lists, pageSize, k) == lists[k - 1] <==> lists[0] == lists[k - 1]
  {
    if lists[0] == lists[k - 1] {
      Unchanged(lists, k);
      ExactSnapshot(lists, pageSize, k);
    } else {
      assert EndsWith(lists[k - 1], lists[0]);
      assert k > 1 && GoesOn(lists, pageSize, 0);
      StartsWithFirst(lists, pageSize, k);
      GrownAtFront(lists[0], lists[k - 1]);
    }
  }
}
