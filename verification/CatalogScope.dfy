/** The active catalog as a global variable that decorated methods switch and restore
    (featurebyte/api/catalog_decorator.py, featurebyte/config.py), against lexical scoping. */
module CatalogScope {
  import opened Wrappers

  type Id = nat

  /** What runs under a catalog object: calls of decorated methods, requests with or without a header
      of their own, raises, handlers, and explicit activations. */
  datatype Stmt =
    | Call(catalog: Id, body: seq<Stmt>)
    | Request(header: Option<Id>)
    | RaiseError
    | Try(body: seq<Stmt>, handler: seq<Stmt>)
    | Activate(id: Option<Id>)

  datatype Completion = Normal | Raised

  /** The headers of the requests sent, in order, how the run ended, and the global left behind. */
  datatype Trace = Trace(headers: seq<Option<Id>>, completion: Completion, active: Option<Id>)

  /** `request`: a header of its own wins over the active catalog. */
  function Header(own: Option<Id>, active: Option<Id>): Option<Id> {
    if own.Some? then own else active
  }

  /** The code: one global, saved, switched and restored around every call of another catalog's method. */
  function Dynamic(s: Stmt, active: Option<Id>): Trace
    decreases s
  {
    match s
    case Call(c, body) =>
      if active == Some(c) then DynamicAll(body, active)
      else DynamicAll(body, Some(c)).(active := active)
    case Request(own) => Trace([Header(own, active)], Normal, active)
    case RaiseError => Trace([], Raised, active)
    case Try(body, handler) =>
      var t := DynamicAll(body, active);
      if t.completion.Normal? then t
      else
        var u := DynamicAll(handler, t.active);
        u.(headers := t.headers + u.headers)
    case Activate(id) => Trace([], Normal, id)
  }

  function DynamicAll(body: seq<Stmt>, active: Option<Id>): Trace
    decreases body
  {
    if body == [] then Trace([], Normal, active)
    else
      var t := Dynamic(body[0], active);
      if t.completion.Raised? then t
      else
        var u := DynamicAll(body[1..], t.active);
        u.(headers := t.headers + u.headers)
  }

  /** Lexical scoping: the environment is the innermost enclosing catalog object; nothing is restored
      because nothing is changed. */
  function Lexical(s: Stmt, scope: Option<Id>): (seq<Option<Id>>, Completion)
    decreases s
  {
    match s
    case Call(c, body) => LexicalAll(body, Some(c))
    case Request(own) => ([Header(own, scope)], Normal)
    case RaiseError => ([], Raised)
    case Try(body, handler) =>
      var (headers, end) := LexicalAll(body, scope);
      if end.Normal? then (headers, end)
      else
        var (more, end') := LexicalAll(handler, scope);
        (headers + more, end')
    case Activate(_) => ([], Normal)
  }

  function LexicalAll(body: seq<Stmt>, scope: Option<Id>): (seq<Option<Id>>, Completion)
    decreases body
  {
    if body == [] then ([], Normal)
    else
      var (headers, end) := Lexical(body[0], scope);
      if end.Raised? then (headers, end)
      else
        var (more, end') := LexicalAll(body[1..], scope);
        (headers + more, end')
  }

  /** No explicit activation is executed or could be. */
  predicate Pure(s: Stmt)
    decreases s
  {
    match s
    case Call(_, body) => PureAll(body)
    case Try(body, handler) => PureAll(body) && PureAll(handler)
    case Activate(_) => false
    case _ => true
  }

  predicate PureAll(body: seq<Stmt>)
    decreases body
  {
    body == [] || (Pure(body[0]) && PureAll(body[1..]))
  }

  ghost predicate Refines(t: Trace, scope: Option<Id>, lexical: (seq<Option<Id>>, Completion)) {
    t.headers == lexical.0 && t.completion == lexical.1 && t.active == scope
  }

  /** Dynamic switching refines lexical scoping: every request carries the innermost enclosing
      catalog's id or its own header, and the global on exit equals that on entry, after a return
      as well as after an exception. */
  lemma {:induction false} DynamicIsLexical(s: Stmt, active: Option<Id>)
    requires Pure(s)
    ensures Refines(Dynamic(s, active), active, Lexical(s, active))
    decreases s
  {
    match s
    case Call(c, body) => DynamicIsLexicalAll(body, Some(c));
    case Try(body, handler) =>
      DynamicIsLexicalAll(body, active);
      DynamicIsLexicalAll(handler, active);
    case _ =>
  }

  lemma {:induction false} DynamicIsLexicalAll(body: seq<Stmt>, active: Option<Id>)
    requires PureAll(body)
    ensures Refines(DynamicAll(body, active), active, LexicalAll(body, active))
    decreases body
  {
    if body != [] {
      DynamicIsLexical(body[0], active);
      DynamicIsLexicalAll(body[1..], active);
    }
  }

  /** The global a statement leaves behind. A call that switched restores what it found; a call that
      found its own id active leaves whatever its body left. */
  function Exit(s: Stmt, active: Option<Id>): Option<Id> {
    Dynamic(s, active).active
  }

  /** An activation that was executed, and how many switching calls lay around it. */
  datatype Activation = Activation(id: Option<Id>, switches: nat)

  function Deeper(log: seq<Activation>): seq<Activation> {
    seq(|log|, i requires 0 <= i < |log| => Activation(log[i].id, log[i].switches + 1))
  }

  /** The id of the last activation in no switching call, or what was active before. */
  function Left(log: seq<Activation>, active: Option<Id>): Option<Id> {
    if log == [] then active
    else
      var last := log[|log| - 1];
      if last.switches == 0 then last.id else Left(log[..|log| - 1], active)
  }

  /** The activations a statement executes, in order; whether a call switches depends on those before it. */
  function Log(s: Stmt, active: Option<Id>): seq<Activation>
    decreases s
  {
    match s
    case Call(c, body) => if active == Some(c) then LogAll(body, active) else Deeper(LogAll(body, Some(c)))
    case Activate(id) => [Activation(id, 0)]
    case Try(body, handler) =>
      var log := LogAll(body, active);
      if LexicalAll(body, None).1.Normal? then log else log + LogAll(handler, Left(log, active))
    case _ => []
  }

  function LogAll(body: seq<Stmt>, active: Option<Id>): seq<Activation>
    decreases body
  {
    if body == [] then []
    else
      var log := Log(body[0], active);
      if Lexical(body[0], None).1.Raised? then log else log + LogAll(body[1..], Left(log, active))
  }

  /** How a run ends does not depend on any catalog. */
  lemma {:induction false} CompletionIsLexical(s: Stmt, active: Option<Id>, scope: Option<Id>)
    ensures Dynamic(s, active).completion == Lexical(s, scope).1
    decreases s
  {
    match s
    case Call(c, body) =>
      CompletionIsLexicalAll(body, active, Some(c));
      CompletionIsLexicalAll(body, Some(c), Some(c));
    case Try(body, handler) =>
      CompletionIsLexicalAll(body, active, scope);
      CompletionIsLexicalAll(handler, DynamicAll(body, active).active, scope);
    case _ =>
  }

  lemma {:induction false} CompletionIsLexicalAll(body: seq<Stmt>, active: Option<Id>, scope: Option<Id>)
    ensures DynamicAll(body, active).completion == LexicalAll(body, scope).1
    decreases body
  {
    if body != [] {
      CompletionIsLexical(body[0], active, scope);
      CompletionIsLexicalAll(body[1..], Dynamic(body[0], active).active, scope);
    }
  }

  lemma {:induction false} LeftAppends(a: seq<Activation>, b: seq<Activation>, active: Option<Id>)
    ensures Left(a + b, active) == Left(b, Left(a, active))
  {
    if b == [] {
      assert a + b == a;
    } else {
      assert (a + b)[..|a + b| - 1] == a + b[..|b| - 1];
      LeftAppends(a, b[..|b| - 1], active);
    }
  }

  lemma {:induction false} NothingLeft(log: seq<Activation>, active: Option<Id>)
    ensures Left(Deeper(log), active) == active
  {
    if log != [] {
      assert Deeper(log)[..|log| - 1] == Deeper(log[..|log| - 1]);
      NothingLeft(log[..|log| - 1], active);
    }
  }

  /** For any tree: the global on exit is the id of the last executed activation that lies in no
      switching call, or else the one on entry. */
  lemma {:induction false} ExitIsLastActivation(s: Stmt, active: Option<Id>)
    ensures Exit(s, active) == Left(Log(s, active), active)
    decreases s
  {
    match s
    case Call(c, body) =>
      if active == Some(c) {
        ExitIsLastActivationAll(body, active);
      } else {
        NothingLeft(LogAll(body, Some(c)), active);
      }
    case Try(body, handler) =>
      var log := LogAll(body, active);
      ExitIsLastActivationAll(body, active);
      CompletionIsLexicalAll(body, active, None);
      ExitIsLastActivationAll(handler, Left(log, active));
      LeftAppends(log, LogAll(handler, Left(log, active)), active);
    case _ =>
  }

  lemma {:induction false} ExitIsLastActivationAll(body: seq<Stmt>, active: Option<Id>)
    ensures DynamicAll(body, active).active == Left(LogAll(body, active), active)
    decreases body
  {
    if body != [] {
      var log := Log(body[0], active);
      ExitIsLastActivation(body[0], active);
      CompletionIsLexical(body[0], active, None);
      ExitIsLastActivationAll(body[1..], Left(log, active));
      LeftAppends(log, LogAll(body[1..], Left(log, active)), active);
    }
  }

  /** Decorated calls around one statement. */
  function Within(catalogs: seq<Id>, s: Stmt): Stmt {
    if catalogs == [] then s else Call(catalogs[0], [Within(catalogs[1..], s)])
  }

  lemma SingletonRuns(s: Stmt, active: Option<Id>)
    ensures DynamicAll([s], active) == Dynamic(s, active)
  {
    assert [s][1..] == [];
  }

  /** A request inside nested calls carries its own header, else the id of the innermost call, else
      what was active before. */
  lemma {:induction false} InnermostCatalog(catalogs: seq<Id>, own: Option<Id>, active: Option<Id>)
    ensures Dynamic(Within(catalogs, Request(own)), active).headers ==
            if own.Some? then [own]
            else if |catalogs| > 0 then [Some(catalogs[|catalogs| - 1])]
            else [active]
  {
    if catalogs != [] {
      var inner := Within(catalogs[1..], Request(own));
      SingletonRuns(inner, active);
      SingletonRuns(inner, Some(catalogs[0]));
      InnermostCatalog(catalogs[1..], own, active);
      InnermostCatalog(catalogs[1..], own, Some(catalogs[0]));
    }
  }

  /** A raise ends the calls around it and is caught by the nearest handler, which runs under what was
      active before the call; after an activation, requests without a header carry its id. */
  lemma RaiseAndActivate(c: Id, id: Option<Id>, active: Option<Id>)
    ensures Dynamic(Try([Call(c, [Request(None), RaiseError, Request(None)]), Request(None)], [Request(None)]), active)
            == Trace([Some(c), active], Normal, active)
    ensures DynamicAll([Activate(id), Request(None)], active) == Trace([id], Normal, id)
  {
    var body := [Request(None), RaiseError, Request(None)];
    assert body[1..] == [RaiseError, Request(None)] && [RaiseError, Request(None)][1..] == [Request(None)];
    assert DynamicAll(body[1..], Some(c)) == Trace([], Raised, Some(c));
    assert DynamicAll(body, Some(c)) == Trace([Some(c)], Raised, Some(c));
    var call := Call(c, body);
    assert Dynamic(call, active) == Trace([Some(c)], Raised, active);
    assert DynamicAll([call, Request(None)], active) == Trace([Some(c)], Raised, active);
    SingletonRuns(Request(None), active);
    SingletonRuns(Request(None), id);
    assert [Activate(id), Request(None)][1..] == [Request(None)];
  }

  /** An activation inside nested calls outlives them all exactly when every one of them found its
      own id already active, or the activation changed nothing to begin with. */
  lemma {:induction false} ActivationSurvivesIff(catalogs: seq<Id>, id: Option<Id>, active: Option<Id>)
    ensures Exit(Within(catalogs, Activate(id)), active) == id
            <==> id == active || forall c <- catalogs :: active == Some(c)
    ensures !(forall c <- catalogs :: active == Some(c)) ==> Exit(Within(catalogs, Activate(id)), active) == active
  {
    if catalogs != [] {
      var inner := Within(catalogs[1..], Activate(id));
      SingletonRuns(inner, active);
      SingletonRuns(inner, Some(catalogs[0]));
      ActivationSurvivesIff(catalogs[1..], id, active);
      assert forall c :: c in catalogs <==> c == catalogs[0] || c in catalogs[1..];
    }
  }

  /** The process-wide variable and the requests sent under it. */
  class Interpreter {
    var active: Option<Id>
    var headers: seq<Option<Id>>

    constructor (active: Option<Id>)
      ensures this.active == active && headers == []
    {
      this.active, headers := active, [];
    }

    method Execute(s: Stmt) returns (end: Completion)
      modifies this
      ensures var t := Dynamic(s, old(active));
              end == t.completion && active == t.active && headers == old(headers) + t.headers
      decreases s
    {
      end := Normal;
      match s {
        case Call(c, body) =>
          var saved := active;
          if active == Some(c) {
            end := ExecuteAll(body);
          } else {
            active := Some(c);
            end := ExecuteAll(body);
            // finally
            active := saved;
          }
        case Request(own) => headers := headers + [Header(own, active)];
        case RaiseError => end := Raised;
        case Try(body, handler) =>
          end := ExecuteAll(body);
          if end.Raised? {
            end := ExecuteAll(handler);
          }
        case Activate(id) => active := id;
      }
    }

    method ExecuteAll(body: seq<Stmt>) returns (end: Completion)
      modifies this
      ensures var t := DynamicAll(body, old(active));
              end == t.completion && active == t.active && headers == old(headers) + t.headers
      decreases body
    {
      if body == [] {
        return Normal;
      }
      end := Execute(body[0]);
      if end.Normal? {
        end := ExecuteAll(body[1..]);
      }
    }
  }
}
