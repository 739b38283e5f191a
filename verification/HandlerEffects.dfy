/** What one registration, one removal and one raised exception come to, stated on the registry and the
    resolution order themselves (featurebyte/middleware.py). */
module HandlerEffects {
  import opened ExceptionRegistry
  import opened Sequences
  import opened Wrappers

  /** A registration succeeds exactly for a subclass of Exception none of whose proper ancestors is
      registered, where Exception itself is tolerated if it comes third from last in the resolution
      order. */
  lemma RegisterIff(h: Hierarchy, handlers: Registry, c: string, status: Status)
    requires h.Valid() && Ordered(h, handlers) && c in h.mro
    ensures var m := h.mro[c];
            Register(h, handlers, c, status).Success? <==>
            && "Exception" in m
            && forall x <- handlers :: x.exception in m && x.exception != c ==>
                 x.exception == "Exception" && |m| >= 3 && m[|m| - 3] == "Exception"
    ensures Register(h, handlers, c, status).Failure? ==> Register(h, handlers, c, status).error == ValueError
  {
    var m := h.mro[c];
    if "Exception" in m {
      var e :| 0 <= e < |m| && m[e] == "Exception";
      ExceptionIsNotLate(h, c, e);
      forall x | x in handlers && x.exception in m && x.exception != c
        ensures x.exception in SuperClasses(m) <==> !(x.exception == "Exception" && m[|m| - 3] == "Exception")
      {
        if x.exception != "Exception" {
          var i :| 0 <= i < |handlers| && handlers[i] == x;
          SuperClassesSuffice(h, c, x.exception);
        } else if e < |m| - 3 {
          assert SuperClasses(m)[e - 1] == "Exception";
        }
      }
      forall d | d in SuperClasses(m) ensures d in m && d != c {
        var k :| 0 <= k < |SuperClasses(m)| && SuperClasses(m)[k] == d;
        assert m[k + 1] == d && m[0] == c;
      }
    }
  }

  /** A registered class keeps its place and gets the new status; a new one comes last. */
  lemma RegisterPlaces(h: Hierarchy, handlers: Registry, c: string, status: Status)
    requires Ordered(h, handlers) && c in h.mro && Register(h, handlers, c, status).Success?
    ensures var next := Register(h, handlers, c, status).value;
            && ((forall x <- handlers :: x.exception != c) ==> next == handlers + [Handler(c, status)])
            && (forall i :: 0 <= i < |handlers| && handlers[i].exception == c ==>
                  next == handlers[..i] + [Handler(c, status)] + handlers[i + 1..])
  {
    if Registered(handlers, c) {
      var k := Position(handlers, c);
      assert handlers[k] in handlers;
      assert forall i :: 0 <= i < |handlers| && handlers[i].exception == c ==> i == k;
      assert handlers[k := Handler(c, status)] == handlers[..k] + [Handler(c, status)] + handlers[k + 1..];
    }
  }

  lemma WithoutMembers(xs: seq<Handler>, k: nat, a: Handler)
    requires k < |xs| && NoDuplicates(xs)
    ensures a in xs[..k] + xs[k + 1..] <==> a in xs && a != xs[k]
  {
    if a in xs && a != xs[k] {
      var i :| 0 <= i < |xs| && xs[i] == a;
      if i < k { assert xs[..k][i] == a; } else { assert xs[k + 1..][i - k - 1] == a; }
    }
  }

  lemma StillPrecedes(xs: seq<Handler>, k: nat, a: Handler, b: Handler)
    requires k < |xs| && a != xs[k] && b != xs[k] && Precedes(xs, a, b)
    ensures Precedes(xs[..k] + xs[k + 1..], a, b)
  {
    var rest := xs[..k] + xs[k + 1..];
    var i, j :| 0 <= i < j < |xs| && xs[i] == a && xs[j] == b;
    var i', j' := if i < k then i else i - 1, if j < k then j else j - 1;
    assert 0 <= i' < j' < |rest| && rest[i'] == a && rest[j'] == b;
  }

  lemma PrecededBefore(xs: seq<Handler>, k: nat, a: Handler, b: Handler)
    requires k < |xs| && NoDuplicates(xs) && Precedes(xs[..k] + xs[k + 1..], a, b)
    ensures a != xs[k] && b != xs[k] && Precedes(xs, a, b)
  {
    var rest := xs[..k] + xs[k + 1..];
    var i, j :| 0 <= i < j < |rest| && rest[i] == a && rest[j] == b;
    var i', j' := if i < k then i else i + 1, if j < k then j else j + 1;
    assert 0 <= i' < j' < |xs| && xs[i'] == a && xs[j'] == b;
  }

  lemma OnlyOneOf(h: Hierarchy, handlers: Registry, k: nat, x: Handler)
    requires Ordered(h, handlers) && k < |handlers|
    ensures NoDuplicates(handlers)
    ensures x in handlers ==> (x.exception == handlers[k].exception <==> x == handlers[k])
  {
    if x in handlers {
      var i :| 0 <= i < |handlers| && handlers[i] == x;
      if i < k || k < i {
        assert handlers[i].exception != handlers[k].exception;
      }
    }
  }

  /** A removal succeeds exactly for a registered class, and takes its handler and no other. */
  lemma UnregisterIff(h: Hierarchy, handlers: Registry, c: string, x: Handler)
    requires Ordered(h, handlers)
    ensures var r := Unregister(handlers, c);
            && (r.Success? <==> exists y <- handlers :: y.exception == c)
            && (r.Failure? ==> r.error == KeyError)
            && (r.Success? ==> (x in r.value <==> x in handlers && x.exception != c))
  {
    if Registered(handlers, c) {
      var k := Position(handlers, c);
      assert handlers[k] in handlers;
      OnlyOneOf(h, handlers, k, x);
      WithoutMembers(handlers, k, x);
    }
  }

  /** The others stay in their order. */
  lemma UnregisterKeepsOrder(h: Hierarchy, handlers: Registry, c: string, a: Handler, b: Handler)
    requires Ordered(h, handlers) && Unregister(handlers, c).Success?
    ensures Precedes(Unregister(handlers, c).value, a, b)
            <==> a.exception != c && b.exception != c && Precedes(handlers, a, b)
  {
    var k := Position(handlers, c);
    OnlyOneOf(h, handlers, k, a);
    OnlyOneOf(h, handlers, k, b);
    if Precedes(Unregister(handlers, c).value, a, b) {
      PrecededBefore(handlers, k, a, b);
      assert a in handlers && b in handlers;
    } else if a.exception != c && b.exception != c && Precedes(handlers, a, b) {
      StillPrecedes(handlers, k, a, b);
    }
  }

  /** Registering a new class and removing it again changes nothing. */
  lemma RegisterThenUnregister(h: Hierarchy, handlers: Registry, c: string, status: Status)
    requires c in h.mro && Register(h, handlers, c, status).Success?
    requires forall x <- handlers :: x.exception != c
    ensures Unregister(Register(h, handlers, c, status).value, c) == Success(handlers)
  {
    var next := Register(h, handlers, c, status).value;
    assert forall i :: 0 <= i < |handlers| ==> handlers[i] in handlers;
    assert next == handlers + [Handler(c, status)] && next[|handlers|].exception == c;
    assert Registered(next, c);
    var k := Position(next, c);
    assert k == |handlers|;
    assert next[..k] + next[k + 1..] == handlers;
  }

  /** The answer to a raised class: the status of the first registered ancestor, 500 without one, and no
      answer for a class that is no exception. */
  lemma HandledIs(h: Hierarchy, handlers: Registry, c: string)
    requires c in h.mro
    ensures Handled(h, handlers, c) == Propagated <==> "Exception" !in h.mro[c]
    ensures "Exception" in h.mro[c] && (forall x <- handlers :: x.exception !in h.mro[c]) ==>
              Handled(h, handlers, c) == Responded(500)
    ensures forall i :: "Exception" in h.mro[c] && 0 <= i < |handlers| && handlers[i].exception in h.mro[c]
              && (forall j :: 0 <= j < i ==> handlers[j].exception !in h.mro[c])
              ==> Handled(h, handlers, c) == Responded(handlers[i].status)
  {
    DispatchIsFirst(h, handlers, c);
  }
}
