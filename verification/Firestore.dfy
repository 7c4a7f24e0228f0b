/** Links as documents in Firestore, each with an owner. A write first reads the document to see who owns it, and then
    sets it, outside any transaction. */
module Firestore {
  import opened Wrappers
  import opened Urls
  import opened Storage
  import opened DocumentPaths

  /** `Corrupt` is a document that does not have the expected fields. */
  datatype Document = Document(to: string, owner: string) | Corrupt

  type Documents = map<string, Document>

  // ---------------------------------------------------------------------------------------------
  // Any number of writers at once
  // ---------------------------------------------------------------------------------------------

  /** A write that has passed the ownership check and is about to set the document. */
  datatype Ticket = Ticket(path: string, agent: string, to: string)

  datatype State = State(docs: Documents, tickets: map<nat, Ticket>, issued: nat)

  /** The two halves of a write. A set may be lost. */
  datatype Event =
    | Read(path: string, agent: string, to: string, reachable: bool)
    | Set(id: nat, applied: bool)

  /** The ownership check: may this agent write this document? */
  function Verdict(docs: Documents, path: string, agent: string): Option<Error> {
    if path !in docs then None
    else
      match docs[path]
      case Corrupt => Some(Failed)
      case Document(_, owner) => if owner != agent then Some(Unauthorized) else None
  }

  function Step(s: State, e: Event): State {
    match e
    case Read(path, agent, to, reachable) =>
      if !reachable || Verdict(s.docs, path, agent).Some? then s
      else s.(tickets := s.tickets[s.issued := Ticket(path, agent, to)], issued := s.issued + 1)
    case Set(id, applied) =>
      if id !in s.tickets then s
      else
        var t := s.tickets[id];
        s.(docs := if applied then s.docs[t.path := Document(t.to, t.agent)] else s.docs, tickets := s.tickets - {id})
  }

  function Run(s: State, es: seq<Event>): State
    decreases es
  {
    if es == [] then s else Run(Step(s, es[0]), es[1..])
  }

  function Owner(s: State, path: string): Option<string> {
    if path in s.docs && s.docs[path].Document? then Some(s.docs[path].owner) else None
  }

  /** The document this event writes, and by whom. */
  ghost predicate Writes(s: State, e: Event, path: string, agent: string) {
    e.Set? && e.applied && e.id in s.tickets && s.tickets[e.id].path == path && s.tickets[e.id].agent == agent
  }

  /** Every write to the document in the course of a run is by one of these agents. */
  ghost predicate WrittenOnlyBy(s: State, es: seq<Event>, path: string, agents: set<string>)
    decreases es
  {
    es != [] ==>
      && (forall agent :: Writes(s, es[0], path, agent) ==> agent in agents)
      && WrittenOnlyBy(Step(s, es[0]), es[1..], path, agents)
  }

  // ---------------------------------------------------------------------------------------------
  // When an owner is safe
  // ---------------------------------------------------------------------------------------------

  /** Every write to the document that has passed its check was made by this agent. */
  ghost predicate OnlyPending(s: State, path: string, agent: string) {
    forall id :: id in s.tickets && s.tickets[id].path == path ==> s.tickets[id].agent == agent
  }

  /** From then on, whatever anybody does, the owner stays and every write is the owner's. */
  lemma {:induction false} OwnerIsSafe(s: State, es: seq<Event>, path: string, owner: string)
    requires Owner(s, path) == Some(owner) && OnlyPending(s, path, owner)
    ensures Owner(Run(s, es), path) == Some(owner) && OnlyPending(Run(s, es), path, owner)
    ensures WrittenOnlyBy(s, es, path, {owner})
    decreases es
  {
    if es != [] {
      OwnerIsSafe(Step(s, es[0]), es[1..], path, owner);
    }
  }

  /** The condition is exact: an owner can be sure of a document if and only if no write by anybody else has already
      passed its check. */
  lemma OwnerIsSafeIff(s: State, path: string, owner: string)
    requires Owner(s, path) == Some(owner)
    ensures (forall es :: Owner(Run(s, es), path) == Some(owner)) <==> OnlyPending(s, path, owner)
  {
    if OnlyPending(s, path, owner) {
      forall es ensures Owner(Run(s, es), path) == Some(owner) {
        OwnerIsSafe(s, es, path, owner);
      }
    } else {
      var id :| id in s.tickets && s.tickets[id].path == path && s.tickets[id].agent != owner;
      var es := [Set(id, true)];
      assert Run(s, es) == Run(Step(s, es[0]), []);
      assert Owner(Run(s, es), path) == Some(s.tickets[id].agent);
    }
  }

  // ---------------------------------------------------------------------------------------------
  // Who can ever own a document
  // ---------------------------------------------------------------------------------------------

  /** The agents that, in the course of a run, look for the document and do not find it. */
  function FoundAbsent(s: State, es: seq<Event>, path: string): set<string>
    decreases es
  {
    if es == [] then {}
    else
      (if es[0].Read? && es[0].reachable && es[0].path == path && path !in s.docs then {es[0].agent} else {})
      + FoundAbsent(Step(s, es[0]), es[1..], path)
  }

  /** The owner, and everybody with a write under way, is one of these agents. */
  ghost predicate Claimed(s: State, path: string, agents: set<string>) {
    && (path in s.docs && s.docs[path].Document? ==> s.docs[path].owner in agents)
    && (forall id :: id in s.tickets && s.tickets[id].path == path ==> s.tickets[id].agent in agents)
  }

  /** However writers interleave, only those who raced to create a document ever own it or write it. */
  lemma {:induction false} OnlyCreatorsOwn(s: State, es: seq<Event>, path: string, agents: set<string>)
    requires Claimed(s, path, agents)
    requires FoundAbsent(s, es, path) <= agents
    ensures Claimed(Run(s, es), path, agents)
    ensures WrittenOnlyBy(s, es, path, agents)
    decreases es
  {
    if es != [] {
      OnlyCreatorsOwn(Step(s, es[0]), es[1..], path, agents);
    }
  }

  lemma {:induction false} NeverCorrupts(s: State, es: seq<Event>, path: string)
    requires path in s.docs ==> s.docs[path].Document?
    ensures path in Run(s, es).docs ==> Run(s, es).docs[path].Document?
    decreases es
  {
    if es != [] {
      NeverCorrupts(Step(s, es[0]), es[1..], path);
    }
  }

  /** So a document that a single agent set out to create belongs to that agent for good. */
  lemma SoleCreatorOwns(es: seq<Event>, path: string, agent: string)
    requires FoundAbsent(State(map[], map[], 0), es, path) <= {agent}
    ensures var s := Run(State(map[], map[], 0), es);
            path in s.docs ==> Owner(s, path) == Some(agent)
  {
    var start := State(map[], map[], 0);
    OnlyCreatorsOwn(start, es, path, {agent});
    NeverCorrupts(start, es, path);
  }

  /** A document that cannot be read is out of reach for new writes, and stays as it is once none is under way. */
  lemma {:induction false} CorruptStays(s: State, es: seq<Event>, path: string)
    requires path in s.docs && s.docs[path].Corrupt?
    requires forall id :: id in s.tickets ==> s.tickets[id].path != path
    ensures path in Run(s, es).docs && Run(s, es).docs[path].Corrupt?
    decreases es
  {
    if es != [] {
      CorruptStays(Step(s, es[0]), es[1..], path);
    }
  }

  // ---------------------------------------------------------------------------------------------
  // Why ownership is not unconditional
  // ---------------------------------------------------------------------------------------------

  /** How often the owner of a document changes to somebody else in the course of a run. */
  function OwnerChanges(s: State, es: seq<Event>, path: string): nat
    decreases es
  {
    if es == [] then 0
    else
      var s' := Step(s, es[0]);
      (if Owner(s, path).Some? && Owner(s', path).Some? && Owner(s, path) != Owner(s', path) then 1 else 0)
      + OwnerChanges(s', es[1..], path)
  }

  /** A run with one more event in front. */
  function Before(s: State, e: Event, es: seq<Event>, path: string): (more: seq<Event>)
    ensures more == [e] + es
    ensures OwnerChanges(s, more, path)
         == (if Owner(s, path).Some? && Owner(Step(s, e), path).Some? && Owner(s, path) != Owner(Step(s, e), path)
             then 1 else 0) + OwnerChanges(Step(s, e), es, path)
  {
    assert ([e] + es)[1..] == es;
    [e] + es
  }

  /** While the other of two agents has a write under way, each can win the document back, any number of times. */
  lemma {:induction false} Flapping(s: State, path: string, owner: string, other: string, id: nat, n: nat)
    returns (es: seq<Event>)
    requires Owner(s, path) == Some(owner) && owner != other
    requires id in s.tickets && s.tickets[id].path == path && s.tickets[id].agent == other
    requires forall i :: i in s.tickets ==> i < s.issued
    ensures OwnerChanges(s, es, path) == n
    ensures forall e :: e in es && e.Read? ==> e.agent in {owner, other}
    decreases n
  {
    if n == 0 {
      es := [];
    } else {
      var again, steal := Read(path, owner, "", true), Set(id, true);
      var s1 := Step(s, again);
      var s2 := Step(s1, steal);
      es := Flapping(s2, path, other, owner, s.issued, n - 1);
      es := Before(s, again, Before(s1, steal, es, path), path);
    }
  }

  /** Two agents creating the same link at the same time are enough: both pass their checks before either sets the
      document, and from then on its owner can change as often as one likes. */
  lemma TwoCreatorsCanFlap(path: string, a: string, b: string, n: nat) returns (es: seq<Event>)
    requires a != b
    ensures OwnerChanges(State(map[], map[], 0), es, path) == n
    ensures forall e :: e in es && e.Read? ==> e.agent in {a, b}
  {
    var s0 := State(map[], map[], 0);
    var e0, e1, e2 := Read(path, a, "", true), Read(path, b, "", true), Set(0, true);
    var s1 := Step(s0, e0);
    var s2 := Step(s1, e1);
    var s3 := Step(s2, e2);
    es := Flapping(s3, path, a, b, 1, n);
    es := Before(s0, e0, Before(s1, e1, Before(s2, e2, es, path), path), path);
  }

  // ---------------------------------------------------------------------------------------------
  // The store
  // ---------------------------------------------------------------------------------------------

  /** How the call that sets a document ends. A call that fails may have taken effect all the same. */
  datatype SetResult = Confirmed | Unconfirmed(applied: bool)

  /** The agent of a request, empty if there is none. */
  function AgentOf(agent: Option<string>): string {
    if agent.Some? then agent.value else ""
  }

  /** The events of a write that nobody interrupts. */
  function PutEvents(from: Url, to: Url, agent: Option<string>, reachable: bool, ending: SetResult): seq<Event> {
    [Read(UrlToPath(from), AgentOf(agent), to.String(), reachable && HasReference(UrlToPath(from))),
     Set(0, ending.Confirmed? || ending.applied)]
  }

  class Store {
    var docs: Documents

    /** Reads a link. The target is parsed relative to the link itself. */
    method Get(u: Url, reachable: bool, parse: (Url, string) -> Option<Url>) returns (r: Result<Url, Error>)
      ensures var found := reachable && HasReference(UrlToPath(u));
              var doc := if UrlToPath(u) in docs then Some(docs[UrlToPath(u)]) else None;
              && (r == Err(NotFound) <==> found && doc.None?)
              && (r == Err(Failed) <==> !found || (doc.Some? && doc.value.Corrupt?))
              && (r == Err(Error.Corrupt)
                  <==> found && doc.Some? && doc.value.Document? && parse(u, doc.value.to).None?)
              && (r.Ok? ==> found && doc.Some? && doc.value.Document? && parse(u, doc.value.to) == Some(r.value))
    {
      var path := UrlToPath(u);
      if !HasReference(path) || !reachable {
        return Err(Failed);
      }
      if path !in docs {
        return Err(NotFound);
      }
      if docs[path].Corrupt? {
        return Err(Failed);
      }
      var to := parse(u, docs[path].to);
      if to.None? {
        return Err(Error.Corrupt);
      }
      return Ok(to.value);
    }

    /** Writes a link, if it is new or belongs to the agent. Without interruption, a write is the two events of the
        concurrent model in a row. */
    method Put(agent: Option<string>, from: Url, to: Url, reachable: bool, ending: SetResult)
      returns (err: Option<Error>)
      modifies this
      ensures docs == Run(State(old(docs), map[], 0), PutEvents(from, to, agent, reachable, ending)).docs
      ensures var doc := if UrlToPath(from) in old(docs) then Some(old(docs)[UrlToPath(from)]) else None;
              var name := if agent.Some? then agent.value else "";
              var free := doc.None? || (doc.value.Document? && doc.value.owner == name);
              var found := reachable && HasReference(UrlToPath(from));
              && (err.None? <==> found && free && ending.Confirmed?)
              && (err == Some(Remote) <==> found && free && ending.Unconfirmed?)
              && (err == Some(Failed) <==> !found || (doc.Some? && doc.value.Corrupt?))
              && (err == Some(Unauthorized) <==> found && doc.Some? && doc.value.Document? && doc.value.owner != name)
              && docs == if err.None? || (err == Some(Remote) && ending.applied)
                         then old(docs)[UrlToPath(from) := Document(to.String(), name)] else old(docs)
    {
      var path := UrlToPath(from);
      var owner := "";
      if agent.Some? && agent.value != "" {
        owner := agent.value;
      }

      ghost var s := State(docs, map[], 0);
      ghost var es := PutEvents(from, to, agent, reachable, ending);
      assert es[1..][1..] == [] && Run(s, es) == Run(Step(Step(s, es[0]), es[1]), []);
      if !HasReference(path) || !reachable {
        return Some(Failed);
      }
      if path in docs {
        if docs[path].Corrupt? {
          return Some(Failed);
        }
        if docs[path].owner != AgentOf(agent) {
          return Some(Unauthorized);
        }
      }

      if ending.Confirmed? || ending.applied {
        docs := docs[path := Document(to.String(), owner)];
      }
      return if ending.Confirmed? then None else Some(Remote);
    }

    /** Whether the agent owns the link. Nobody owns a link anonymously. */
    method Owns(agent: Option<string>, u: Url, reachable: bool) returns (r: bool)
      ensures r <==>
        && agent.Some? && agent.value != "" && reachable && HasReference(UrlToPath(u))
        && Owner(State(docs, map[], 0), UrlToPath(u)) == agent
    {
      if agent.None? || agent.value == "" {
        return false;
      }
      var path := UrlToPath(u);
      if !HasReference(path) || !reachable || path !in docs || docs[path].Corrupt? {
        return false;
      }
      return docs[path].owner == agent.value;
    }
  }
}
