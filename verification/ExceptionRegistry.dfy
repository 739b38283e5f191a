/** The ordered registry of exception handlers and its first-match dispatch
    (featurebyte/middleware.py), over any class hierarchy and any history of registrations. */
module ExceptionRegistry {
  import opened Sequences
  import opened Wrappers

  ghost predicate KeepsOrder(xs: seq<string>, ys: seq<string>) {
    && (forall x <- xs :: x in ys)
    && (forall a, b :: Precedes(xs, a, b) ==> Precedes(ys, a, b))
  }

  /** Method resolution orders: for every class, itself and its ancestors in lookup order. */
  datatype Hierarchy = Hierarchy(mro: map<string, seq<string>>) {
    predicate Subclass(c: string, d: string)
      requires c in mro
    {
      d in mro[c]
    }

    predicate Strict(c: string, d: string)
      requires c in mro
    {
      c != d && d in mro[c]
    }

    /** What Python guarantees of every linearization: the class itself comes first, nothing is
        repeated, and the linearization of an ancestor is kept in order. */
    ghost predicate Valid() {
      && (forall c <- mro :: |mro[c]| >= 1 && mro[c][0] == c && NoDuplicates(mro[c]))
      && (forall c <- mro, d <- mro[c] :: d in mro && KeepsOrder(mro[d], mro[c]))
      && "Exception" in mro && mro["Exception"] == ["Exception", "BaseException", "object"]
    }
  }

  type Status = nat

  datatype Handler = Handler(exception: string, status: Status)

  type Registry = seq<Handler>

  predicate Registered(handlers: Registry, c: string) {
    exists i :: 0 <= i < |handlers| && handlers[i].exception == c
  }

  function Position(handlers: Registry, c: string): (i: nat)
    requires Registered(handlers, c)
    ensures i < |handlers| && handlers[i].exception == c
  {
    if handlers[0].exception == c then 0
    else
      assert Registered(handlers[1..], c) by {
        var i :| 0 <= i < |handlers| && handlers[i].exception == c;
        assert handlers[1..][i - 1].exception == c;
      }
      Position(handlers[1..], c) + 1
  }

  /** `inspect.getmro(c)[1:-3]` */
  function SuperClasses(mro: seq<string>): seq<string> {
    if |mro| < 4 then [] else mro[1..|mro| - 3]
  }

  /** `register`: refused for a class that is no exception, and while a superclass is registered.
      A class registered before keeps its place. */
  function Register(h: Hierarchy, handlers: Registry, c: string, status: Status): Result<Registry>
    requires c in h.mro
  {
    if !h.Subclass(c, "Exception") then Failure(ValueError)
    else if exists d <- SuperClasses(h.mro[c]) :: Registered(handlers, d) then Failure(ValueError)
    else if Registered(handlers, c) then Success(handlers[Position(handlers, c) := Handler(c, status)])
    else Success(handlers + [Handler(c, status)])
  }

  /** `unregister`: refused for a class that is not registered. */
  function Unregister(handlers: Registry, c: string): Result<Registry> {
    if !Registered(handlers, c) then Failure(KeyError)
    else
      var i := Position(handlers, c);
      Success(handlers[..i] + handlers[i + 1..])
  }

  /** First match, in registration order. */
  function Dispatch(h: Hierarchy, handlers: Registry, c: string): Option<Handler>
    requires c in h.mro
  {
    if handlers == [] then None
    else if h.Subclass(c, handlers[0].exception) then Some(handlers[0])
    else Dispatch(h, handlers[1..], c)
  }

  /** Handlers are distinct exceptions, and none precedes a strict subclass's, Exception apart. */
  ghost predicate Ordered(h: Hierarchy, handlers: Registry) {
    && (forall i :: 0 <= i < |handlers| ==>
          handlers[i].exception in h.mro && h.Subclass(handlers[i].exception, "Exception"))
    && (forall i, j :: 0 <= i < j < |handlers| ==> handlers[i].exception != handlers[j].exception)
    && (forall i, j :: 0 <= i < j < |handlers| && h.Strict(handlers[j].exception, handlers[i].exception)
          ==> handlers[i].exception == "Exception")
  }

  /** BaseException and object come after Exception in every linearization. */
  lemma ExceptionIsNotLate(h: Hierarchy, c: string, e: nat)
    requires h.Valid() && c in h.mro && e < |h.mro[c]| && h.mro[c][e] == "Exception"
    ensures e + 3 <= |h.mro[c]|
  {
    var m, x := h.mro[c], h.mro["Exception"];
    assert "Exception" in m && KeepsOrder(x, m);
    assert x[0] == "Exception" && x[1] == "BaseException" && x[2] == "object";
    assert Precedes(x, "Exception", "BaseException") && Precedes(x, "BaseException", "object");
    var e', b :| 0 <= e' < b < |m| && m[e'] == "Exception" && m[b] == "BaseException";
    var b', o :| 0 <= b' < o < |m| && m[b'] == "BaseException" && m[o] == "object";
    assert NoDuplicates(m);
  }

  /** Every proper exception ancestor but Exception itself is among the classes `register` checks. */
  lemma SuperClassesSuffice(h: Hierarchy, c: string, d: string)
    requires h.Valid() && c in h.mro && h.Strict(c, d) && d != "Exception" && h.Subclass(d, "Exception")
    ensures d in SuperClasses(h.mro[c])
  {
    var m, n := h.mro[c], h.mro[d];
    assert KeepsOrder(n, m);
    var k :| 0 <= k < |n| && n[k] == "Exception";
    assert n[0] == d && k > 0;
    assert Precedes(n, d, "Exception");
    var i, e :| 0 <= i < e < |m| && m[i] == d && m[e] == "Exception";
    ExceptionIsNotLate(h, c, e);
    assert SuperClasses(m)[i - 1] == d;
  }

  lemma AppendKeepsOrdered(h: Hierarchy, handlers: Registry, c: string, status: Status)
    requires Ordered(h, handlers) && c in h.mro && h.Subclass(c, "Exception") && !Registered(handlers, c)
    requires forall i :: 0 <= i < |handlers| && h.Strict(c, handlers[i].exception)
               ==> handlers[i].exception == "Exception"
    ensures Ordered(h, handlers + [Handler(c, status)])
  {
  }

  lemma ReplaceKeepsOrdered(h: Hierarchy, handlers: Registry, k: nat, status: Status)
    requires Ordered(h, handlers) && k < |handlers|
    ensures Ordered(h, handlers[k := Handler(handlers[k].exception, status)])
  {
    var next := handlers[k := Handler(handlers[k].exception, status)];
    assert forall i :: 0 <= i < |handlers| ==> next[i].exception == handlers[i].exception;
  }

  /** A successful registration keeps the registry ordered. */
  lemma RegisterKeepsOrdered(h: Hierarchy, handlers: Registry, c: string, status: Status)
    requires h.Valid() && Ordered(h, handlers) && c in h.mro && Register(h, handlers, c, status).Success?
    ensures Ordered(h, Register(h, handlers, c, status).value)
  {
    if Registered(handlers, c) {
      ReplaceKeepsOrdered(h, handlers, Position(handlers, c), status);
    } else {
      forall i | 0 <= i < |handlers| && h.Strict(c, handlers[i].exception)
        ensures handlers[i].exception == "Exception"
      {
        if handlers[i].exception != "Exception" {
          SuperClassesSuffice(h, c, handlers[i].exception);
        }
      }
      AppendKeepsOrdered(h, handlers, c, status);
    }
  }

  lemma UnregisterKeepsOrdered(h: Hierarchy, handlers: Registry, c: string)
    requires Ordered(h, handlers) && Unregister(handlers, c).Success?
    ensures Ordered(h, Unregister(handlers, c).value)
  {
    var k, next := Position(handlers, c), Unregister(handlers, c).value;
    assert forall i :: 0 <= i < |next| ==> next[i] == handlers[if i < k then i else i + 1];
  }

  datatype Event = Registering(c: string, status: Status) | Unregistering(c: string)

  /** A refused event raises and changes nothing. */
  function Next(h: Hierarchy, handlers: Registry, e: Event): Registry {
    var r :=
      match e
      case Registering(c, status) => if c in h.mro then Register(h, handlers, c, status) else Failure(ValueError)
      case Unregistering(c) => Unregister(handlers, c);
    if r.Success? then r.value else handlers
  }

  function After(h: Hierarchy, events: seq<Event>): Registry {
    if events == [] then [] else Next(h, After(h, events[..|events| - 1]), events[|events| - 1])
  }

  lemma {:induction false} AlwaysOrdered(h: Hierarchy, events: seq<Event>)
    requires h.Valid()
    ensures Ordered(h, After(h, events))
  {
    if events != [] {
      var before, e := After(h, events[..|events| - 1]), events[|events| - 1];
      AlwaysOrdered(h, events[..|events| - 1]);
      match e
      case Registering(c, status) =>
        if c in h.mro && Register(h, before, c, status).Success? { RegisterKeepsOrdered(h, before, c, status); }
      case Unregistering(c) =>
        if Unregister(before, c).Success? { UnregisterKeepsOrdered(h, before, c); }
    }
  }

  lemma {:induction false} DispatchIsFirst(h: Hierarchy, handlers: Registry, c: string)
    requires c in h.mro
    ensures Dispatch(h, handlers, c).None?
            <==> forall i :: 0 <= i < |handlers| ==> !h.Subclass(c, handlers[i].exception)
    ensures Dispatch(h, handlers, c).Some? ==>
              exists i :: 0 <= i < |handlers| && handlers[i] == Dispatch(h, handlers, c).value
                && h.Subclass(c, handlers[i].exception)
                && forall j :: 0 <= j < i ==> !h.Subclass(c, handlers[j].exception)
  {
    if handlers != [] {
      var rest := handlers[1..];
      assert forall i :: 0 <= i < |rest| ==> rest[i] == handlers[i + 1];
      DispatchIsFirst(h, rest, c);
      if h.Subclass(c, handlers[0].exception) {
        assert handlers[0] == Dispatch(h, handlers, c).value;
      } else if Dispatch(h, rest, c).Some? {
        var i :| 0 <= i < |rest| && rest[i] == Dispatch(h, rest, c).value && h.Subclass(c, rest[i].exception)
          && forall j :: 0 <= j < i ==> !h.Subclass(c, rest[j].exception);
        assert handlers[i + 1] == Dispatch(h, handlers, c).value;
        forall j | 0 <= j < i + 1 ensures !h.Subclass(c, handlers[j].exception) {
          if j > 0 { assert handlers[j] == rest[j - 1]; }
        }
      }
    }
  }

  /** The handler of the most specific registered ancestor. */
  ghost predicate MostSpecific(h: Hierarchy, handlers: Registry, c: string, handler: Handler)
    requires c in h.mro
  {
    && handler in handlers && h.Subclass(c, handler.exception)
    && forall other <- handlers :: other.exception in h.mro && h.Subclass(c, other.exception)
         ==> !h.Strict(other.exception, handler.exception)
  }

  /** `Exception` itself is registered and not last: everything registered after it is unreachable. */
  predicate Shadowed(handlers: Registry) {
    exists i :: 0 <= i < |handlers| - 1 && handlers[i].exception == "Exception"
  }

  lemma FirstIsMostSpecific(h: Hierarchy, handlers: Registry, c: string)
    requires Ordered(h, handlers) && !Shadowed(handlers) && c in h.mro && Dispatch(h, handlers, c).Some?
    ensures MostSpecific(h, handlers, c, Dispatch(h, handlers, c).value)
  {
    DispatchIsFirst(h, handlers, c);
    var i :| 0 <= i < |handlers| && handlers[i] == Dispatch(h, handlers, c).value
      && h.Subclass(c, handlers[i].exception) && forall j :: 0 <= j < i ==> !h.Subclass(c, handlers[j].exception);
    forall other | other in handlers && other.exception in h.mro && h.Subclass(c, other.exception)
      ensures !h.Strict(other.exception, handlers[i].exception)
    {
      var k :| 0 <= k < |handlers| && handlers[k] == other;
      assert k >= i;
    }
  }

  /** The handler after a registered Exception belongs to a strict subclass that never gets it. */
  lemma ShadowedIsMissed(h: Hierarchy, handlers: Registry, i: nat)
    requires h.Valid() && Ordered(h, handlers) && i < |handlers| - 1 && handlers[i].exception == "Exception"
    ensures var c := handlers[i + 1].exception;
            && c in h.mro && Dispatch(h, handlers, c).Some?
            && !MostSpecific(h, handlers, c, Dispatch(h, handlers, c).value)
  {
    var c := handlers[i + 1].exception;
    assert h.mro[c][0] == c && c in h.mro[c];
    DispatchIsFirst(h, handlers, c);
    var k :| 0 <= k < |handlers| && handlers[k] == Dispatch(h, handlers, c).value
      && h.Subclass(c, handlers[k].exception) && forall j :: 0 <= j < k ==> !h.Subclass(c, handlers[j].exception);
    assert k <= i;
    assert handlers[k].exception != c;
    assert handlers[i + 1] in handlers;
    assert h.Strict(c, handlers[k].exception);
  }

  /** The raised class finds a handler exactly when some registered class is an ancestor; otherwise
      the exception goes on to the 500 fallback. And what it finds is always the most specific
      handler, for every raised class, exactly when Exception is not registered before another. */
  lemma DispatchIsMostSpecificIff(h: Hierarchy, events: seq<Event>)
    requires h.Valid()
    ensures var handlers := After(h, events);
            && (forall c <- h.mro ::
                  Dispatch(h, handlers, c).Some? <==> exists d <- h.mro[c] :: Registered(handlers, d))
            && ((forall c <- h.mro :: Dispatch(h, handlers, c).Some?
                   ==> MostSpecific(h, handlers, c, Dispatch(h, handlers, c).value))
                <==> !Shadowed(handlers))
  {
    var handlers := After(h, events);
    AlwaysOrdered(h, events);
    forall c | c in h.mro
      ensures Dispatch(h, handlers, c).Some? <==> exists d <- h.mro[c] :: Registered(handlers, d)
    {
      DispatchIsFirst(h, handlers, c);
    }
    if Shadowed(handlers) {
      var i :| 0 <= i < |handlers| - 1 && handlers[i].exception == "Exception";
      ShadowedIsMissed(h, handlers, i);
    } else {
      forall c | c in h.mro && Dispatch(h, handlers, c).Some?
        ensures MostSpecific(h, handlers, c, Dispatch(h, handlers, c).value)
      {
        FirstIsMostSpecific(h, handlers, c);
      }
    }
  }

  /** Single inheritance: the ancestors of `c` form a chain. */
  predicate Chain(h: Hierarchy, c: string)
    requires c in h.mro
  {
    forall k :: 0 <= k < |h.mro[c]| ==> h.mro[c][k] in h.mro && h.mro[h.mro[c][k]] == h.mro[c][k..]
  }

  lemma ChainIsStrict(h: Hierarchy, c: string, i: nat, k: nat)
    requires c in h.mro && Chain(h, c) && NoDuplicates(h.mro[c]) && i < k < |h.mro[c]|
    ensures h.mro[c][i] in h.mro && h.Strict(h.mro[c][i], h.mro[c][k])
  {
    var m := h.mro[c];
    assert h.mro[m[i]] == m[i..];
    assert m[i..][k - i] == m[k] && m[i] != m[k];
  }

  lemma SpecificIsNearest(h: Hierarchy, handlers: Registry, c: string, i: nat, found: Handler)
    requires c in h.mro && NoDuplicates(h.mro[c]) && Chain(h, c) && MostSpecific(h, handlers, c, found)
    requires i < |h.mro[c]| && Registered(handlers, h.mro[c][i])
    requires forall j :: 0 <= j < i ==> !Registered(handlers, h.mro[c][j])
    ensures found.exception == h.mro[c][i]
  {
    var m, near := h.mro[c], handlers[Position(handlers, h.mro[c][i])];
    var k :| 0 <= k < |m| && m[k] == found.exception;
    var n :| 0 <= n < |handlers| && handlers[n] == found;
    assert Registered(handlers, m[k]);
    assert near in handlers && near.exception == m[i];
    if i < k {
      ChainIsStrict(h, c, i, k);
    }
  }

  /** With single inheritance the handler found is the nearest registered ancestor's. */
  lemma NearestUnderSingleInheritance(h: Hierarchy, handlers: Registry, c: string, i: nat)
    requires Ordered(h, handlers) && !Shadowed(handlers)
    requires c in h.mro && NoDuplicates(h.mro[c]) && Chain(h, c)
    requires i < |h.mro[c]| && Registered(handlers, h.mro[c][i])
    requires forall j :: 0 <= j < i ==> !Registered(handlers, h.mro[c][j])
    ensures Dispatch(h, handlers, c).Some? && Dispatch(h, handlers, c).value.exception == h.mro[c][i]
  {
    DispatchIsFirst(h, handlers, c);
    var p := Position(handlers, h.mro[c][i]);
    assert h.Subclass(c, handlers[p].exception);
    FirstIsMostSpecific(h, handlers, c);
    SpecificIsNearest(h, handlers, c, i, Dispatch(h, handlers, c).value);
  }

  /** What the client gets for a request that raised. */
  datatype Answer = Responded(status: Status) | Propagated

  function Handled(h: Hierarchy, handlers: Registry, c: string): Answer
    requires c in h.mro
  {
    var d := Dispatch(h, handlers, c);
    if !h.Subclass(c, "Exception") then Propagated
    else Responded(if d.Some? then d.value.status else 500)
  }

  /** The class-level registry and the request path that uses it. */
  class ExecutionContext {
    const hierarchy: Hierarchy
    var exceptionHandlers: Registry

    constructor (hierarchy: Hierarchy)
      ensures this.hierarchy == hierarchy && exceptionHandlers == []
    {
      this.hierarchy, exceptionHandlers := hierarchy, [];
    }

    method RegisterHandler(c: string, status: Status) returns (r: Result<()>)
      requires c in hierarchy.mro
      modifies this
      ensures exceptionHandlers == Next(hierarchy, old(exceptionHandlers), Registering(c, status))
      ensures r.Success? <==> Register(hierarchy, old(exceptionHandlers), c, status).Success?
      ensures r.Failure? ==> r.error == ValueError && exceptionHandlers == old(exceptionHandlers)
    {
      if "Exception" !in hierarchy.mro[c] {
        return Failure(ValueError);
      }
      var superClasses := SuperClasses(hierarchy.mro[c]);
      for i := 0 to |superClasses|
        invariant forall j :: 0 <= j < i ==> !Registered(exceptionHandlers, superClasses[j])
      {
        if Registered(exceptionHandlers, superClasses[i]) {
          return Failure(ValueError);
        }
      }
      if Registered(exceptionHandlers, c) {
        exceptionHandlers := exceptionHandlers[Position(exceptionHandlers, c) := Handler(c, status)];
      } else {
        exceptionHandlers := exceptionHandlers + [Handler(c, status)];
      }
      r := Success(());
    }

    method UnregisterHandler(c: string) returns (r: Result<()>)
      modifies this
      ensures exceptionHandlers == Next(hierarchy, old(exceptionHandlers), Unregistering(c))
      ensures r.Success? <==> Registered(old(exceptionHandlers), c)
      ensures r.Failure? ==> r.error == KeyError && exceptionHandlers == old(exceptionHandlers)
    {
      if !Registered(exceptionHandlers, c) {
        return Failure(KeyError);
      }
      var i := Position(exceptionHandlers, c);
      exceptionHandlers := exceptionHandlers[..i] + exceptionHandlers[i + 1..];
      r := Success(());
    }

    /** `execute` inside `dispatch`, for a request that raised `c`; only subclasses of Exception are
        caught. */
    method HandleRaised(c: string) returns (answer: Answer)
      requires c in hierarchy.mro
      ensures answer == Handled(hierarchy, exceptionHandlers, c)
    {
      if "Exception" !in hierarchy.mro[c] {
        return Propagated;
      }
      for i := 0 to |exceptionHandlers|
        invariant Dispatch(hierarchy, exceptionHandlers, c) == Dispatch(hierarchy, exceptionHandlers[i..], c)
      {
        if exceptionHandlers[i].exception in hierarchy.mro[c] {
          return Responded(exceptionHandlers[i].status);
        }
        assert exceptionHandlers[i..][1..] == exceptionHandlers[i + 1..];
      }
      return Responded(500);
    }
  }
}
