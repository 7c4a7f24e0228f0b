/** From a request to a document: the interceptor, the API and Firestore together. */
module EndToEnd {
  import opened Wrappers
  import opened Urls
  import opened DocumentPaths
  import Jwts
  import Links
  import Uid
  import Firestore

  const METHOD_NEW := "/x40.dev.url.ManageURLs/New"

  /** Everything that is fixed while a server runs. */
  datatype Server = Server(
    permissions: map<string, string>,
    verify: Jwts.Verifier,
    enricher: Links.URLEnricher,
    parse: Links.Parser)

  /** A call to New as it comes in; `reachable` says whether Firestore answers the read. */
  datatype Request = Request(ctx: Jwts.Context, call: Links.NewCall, reachable: bool)

  predicate Guarded(server: Server) {
    METHOD_NEW in server.permissions && server.permissions[METHOD_NEW] != ""
  }

  /** The first half of the write that a request leads to, if it gets that far. */
  function Admit(server: Server, r: Request): Option<Firestore.Event> {
    var link := Links.Requested(server.enricher, server.parse, r.call);
    if !Jwts.Admitted(server.permissions, server.verify, r.ctx, METHOD_NEW) || link.None? then None
    else
      var path := UrlToPath(link.value.from);
      var agent := Jwts.AgentFor(server.permissions, server.verify, r.ctx, METHOD_NEW);
      Some(Firestore.Read(path, Firestore.AgentOf(agent), link.value.to.String(), r.reachable && HasReference(path)))
  }

  /** The request asks for this document to be sent there, its token verifies, names the agent as its subject, and holds
      the scope of the method. */
  ghost predicate Authorises(server: Server, r: Request, path: string, to: string, agent: string) {
    && Links.Requested(server.enricher, server.parse, r.call).Some?
    && UrlToPath(Links.Requested(server.enricher, server.parse, r.call).value.from) == path
    && Links.Requested(server.enricher, server.parse, r.call).value.to.String() == to
    && var claims := Jwts.ClaimsOf(server.verify, r.ctx);
       && claims.Some? && claims.value.subject != "" && agent == "sub:" + claims.value.subject
       && METHOD_NEW in server.permissions && server.permissions[METHOD_NEW] in claims.value.permissions
  }

  lemma AdmittedIsAuthorised(server: Server, r: Request)
    requires Guarded(server) && Admit(server, r).Some?
    ensures var e := Admit(server, r).value;
            e.Read? && Authorises(server, r, e.path, e.to, e.agent)
  {
  }

  // ---------------------------------------------------------------------------------------------
  // Requests that interleave
  // ---------------------------------------------------------------------------------------------

  /** A request arrives and reads its document; or the set of an earlier one is carried out, or lost. */
  datatype Event = Arrive(r: Request) | Finish(id: nat, applied: bool)

  const EMPTY := Firestore.State(map[], map[], 0)

  function Step(server: Server, s: Firestore.State, e: Event): Firestore.State {
    match e
    case Arrive(r) =>
      var read := Admit(server, r);
      if read.None? then s else Firestore.Step(s, read.value)
    case Finish(id, applied) => Firestore.Step(s, Firestore.Set(id, applied))
  }

  function Serve(server: Server, es: seq<Event>): Firestore.State {
    if es == [] then EMPTY else Step(server, Serve(server, es[..|es| - 1]), es[|es| - 1])
  }

  /** Some request of the run authorises this content. */
  ghost predicate Authorised(server: Server, es: seq<Event>, path: string, to: string, agent: string) {
    exists i :: 0 <= i < |es| && es[i].Arrive? && Authorises(server, es[i].r, path, to, agent)
  }

  lemma AuthorisedStays(server: Server, es: seq<Event>, path: string, to: string, agent: string)
    requires es != [] && Authorised(server, es[..|es| - 1], path, to, agent)
    ensures Authorised(server, es, path, to, agent)
  {
    var before := es[..|es| - 1];
    var i :| 0 <= i < |before| && before[i].Arrive? && Authorises(server, before[i].r, path, to, agent);
    assert es[i] == before[i];
  }

  ghost predicate Provenance(server: Server, es: seq<Event>, s: Firestore.State) {
    && (forall path :: path in s.docs ==>
          s.docs[path].Document? && Authorised(server, es, path, s.docs[path].to, s.docs[path].owner))
    && (forall id :: id in s.tickets ==>
          Authorised(server, es, s.tickets[id].path, s.tickets[id].to, s.tickets[id].agent))
  }

  lemma ProvenanceStays(server: Server, es: seq<Event>, s: Firestore.State)
    requires es != [] && Provenance(server, es[..|es| - 1], s)
    ensures Provenance(server, es, s)
  {
    forall path | path in s.docs ensures Authorised(server, es, path, s.docs[path].to, s.docs[path].owner) {
      AuthorisedStays(server, es, path, s.docs[path].to, s.docs[path].owner);
    }
    forall id | id in s.tickets
      ensures Authorised(server, es, s.tickets[id].path, s.tickets[id].to, s.tickets[id].agent)
    {
      AuthorisedStays(server, es, s.tickets[id].path, s.tickets[id].to, s.tickets[id].agent);
    }
  }

  lemma WriteKeepsProvenance(server: Server, es: seq<Event>, s: Firestore.State, e: Firestore.Event)
    requires Provenance(server, es, s)
    requires e.Read? ==> Authorised(server, es, e.path, e.to, e.agent)
    ensures Provenance(server, es, Firestore.Step(s, e))
  {
  }

  /** However requests interleave, and whichever of their writes are lost: every document of the store has the
      destination and the owner of one request, whose verified subject the owner is, and whose token held the scope. */
  lemma {:induction false} EveryDocumentIsAuthorised(server: Server, es: seq<Event>)
    requires Guarded(server)
    ensures Provenance(server, es, Serve(server, es))
  {
    if es != [] {
      var n := |es| - 1;
      var s := Serve(server, es[..n]);
      EveryDocumentIsAuthorised(server, es[..n]);
      ProvenanceStays(server, es, s);
      if es[n].Finish? {
        WriteKeepsProvenance(server, es, s, Firestore.Set(es[n].id, es[n].applied));
      } else if Admit(server, es[n].r).Some? {
        AdmittedIsAuthorised(server, es[n].r);
        WriteKeepsProvenance(server, es, s, Admit(server, es[n].r).value);
      }
    }
  }

  /** The server after more events, from any state. */
  function ServeOn(server: Server, s: Firestore.State, es: seq<Event>): Firestore.State
    decreases es
  {
    if es == [] then s else ServeOn(server, Step(server, s, es[0]), es[1..])
  }

  /** That is what serving is, from an empty store. */
  lemma {:induction false} ServeIsServeOn(server: Server, es: seq<Event>, more: seq<Event>)
    ensures Serve(server, es + more) == ServeOn(server, Serve(server, es), more)
    decreases more
  {
    if more == [] {
      assert es + more == es;
    } else {
      var es' := es + [more[0]];
      assert es'[..|es'| - 1] == es && es' + more[1..] == es + more;
      ServeIsServeOn(server, es', more[1..]);
    }
  }

  /** An owner with no write by anybody else under way keeps the document, whatever requests come in. */
  lemma {:induction false} OwnerIsSafeOnline(
    server: Server, s: Firestore.State, es: seq<Event>, path: string, owner: string)
    requires Firestore.Owner(s, path) == Some(owner) && Firestore.OnlyPending(s, path, owner)
    ensures Firestore.Owner(ServeOn(server, s, es), path) == Some(owner)
    ensures Firestore.OnlyPending(ServeOn(server, s, es), path, owner)
    decreases es
  {
    if es != [] {
      var e := if es[0].Finish? then Some(Firestore.Set(es[0].id, es[0].applied)) else Admit(server, es[0].r);
      if e.Some? {
        Firestore.OwnerIsSafe(s, [e.value], path, owner);
        assert Firestore.Run(s, [e.value]) == Firestore.Run(Firestore.Step(s, e.value), []);
      }
      OwnerIsSafeOnline(server, Step(server, s, es[0]), es[1..], path, owner);
    }
  }

  /** The guard is needed: if New were a public method, a request without any token could own a document, in nobody's
      name. */
  lemma PublicMethodIsAnonymous(server: Server, r: Request)
    requires METHOD_NEW in server.permissions && server.permissions[METHOD_NEW] == ""
    requires r.ctx.agent.None? && r.reachable
    requires Links.Requested(server.enricher, server.parse, r.call).Some?
    requires HasReference(UrlToPath(Links.Requested(server.enricher, server.parse, r.call).value.from))
    ensures var path := UrlToPath(Links.Requested(server.enricher, server.parse, r.call).value.from);
            Firestore.Owner(Serve(server, [Arrive(r), Finish(0, true)]), path) == Some("")
  {
    var es := [Arrive(r), Finish(0, true)];
    assert es[..1] == [Arrive(r)] && es[..1][..0] == [];
    assert Serve(server, es[..1]) == Step(server, EMPTY, Arrive(r));
  }

  // ---------------------------------------------------------------------------------------------
  // Requests one after the other
  // ---------------------------------------------------------------------------------------------

  /** A request served from start to finish before the next one arrives; its set is carried out if `applied`. */
  datatype Turn = Turn(r: Request, applied: bool)

  function TakeTurn(server: Server, docs: Firestore.Documents, t: Turn): Firestore.Documents {
    var read := Admit(server, t.r);
    if read.None? then docs
    else Firestore.Run(Firestore.State(docs, map[], 0), [read.value, Firestore.Set(0, t.applied)]).docs
  }

  function TakeTurns(server: Server, docs: Firestore.Documents, turns: seq<Turn>): Firestore.Documents {
    if turns == [] then docs
    else TakeTurn(server, TakeTurns(server, docs, turns[..|turns| - 1]), turns[|turns| - 1])
  }

  /** One request leaves the store as it is, or writes one document, which was not there or belonged to its subject. */
  lemma TurnIsAuthorised(server: Server, docs: Firestore.Documents, t: Turn)
    requires Guarded(server)
    ensures var after := TakeTurn(server, docs, t);
            after == docs || exists path, to, agent ::
              && after == docs[path := Firestore.Document(to, agent)]
              && Authorises(server, t.r, path, to, agent)
              && (path in docs ==> docs[path].Document? && docs[path].owner == agent)
  {
    if Admit(server, t.r).Some? {
      AdmittedIsAuthorised(server, t.r);
      var read := Admit(server, t.r).value;
      var s, last := Firestore.State(docs, map[], 0), Firestore.Set(0, t.applied);
      assert [read, last][1..] == [last] && [read, last][1..][1..] == [];
      assert Firestore.Run(s, [read, last]) == Firestore.Run(Firestore.Step(Firestore.Step(s, read), last), []);
      if TakeTurn(server, docs, t) != docs {
        assert TakeTurn(server, docs, t) == docs[read.path := Firestore.Document(read.to, read.agent)];
      }
    }
  }

  /** And it is written whenever it should be: when the request is admitted and complete, the document can be reached
      and is free or the agent's own, and the set is carried out. */
  lemma TurnIsExact(server: Server, docs: Firestore.Documents, t: Turn)
    requires Links.Requested(server.enricher, server.parse, t.r.call).Some?
    requires Jwts.Admitted(server.permissions, server.verify, t.r.ctx, METHOD_NEW)
    ensures var link := Links.Requested(server.enricher, server.parse, t.r.call).value;
            var agent := Jwts.AgentFor(server.permissions, server.verify, t.r.ctx, METHOD_NEW);
            var path, owner := UrlToPath(link.from), if agent.Some? then agent.value else "";
            var free := path !in docs || (docs[path].Document? && docs[path].owner == owner);
            TakeTurn(server, docs, t)
            == if t.r.reachable && HasReference(path) && free && t.applied
               then docs[path := Firestore.Document(link.to.String(), owner)] else docs
  {
    var read := Admit(server, t.r).value;
    var s, last := Firestore.State(docs, map[], 0), Firestore.Set(0, t.applied);
    assert [read, last][1..] == [last] && [read, last][1..][1..] == [];
    assert Firestore.Run(s, [read, last]) == Firestore.Run(Firestore.Step(Firestore.Step(s, read), last), []);
  }

  /** A request that is not admitted, or asks for no link, changes nothing. */
  lemma RefusedTurn(server: Server, docs: Firestore.Documents, t: Turn)
    requires Links.Requested(server.enricher, server.parse, t.r.call).None?
             || !Jwts.Admitted(server.permissions, server.verify, t.r.ctx, METHOD_NEW)
    ensures TakeTurn(server, docs, t) == docs
  {
  }

  /** A turn is a request that arrives and is finished before anything else happens. */
  lemma TurnIsArriveAndFinish(server: Server, s: Firestore.State, t: Turn)
    requires forall id :: id in s.tickets ==> id < s.issued
    ensures ServeOn(server, s, [Arrive(t.r), Finish(s.issued, t.applied)]).docs == TakeTurn(server, s.docs, t)
  {
    var es := [Arrive(t.r), Finish(s.issued, t.applied)];
    var s1 := Step(server, s, es[0]);
    assert es[1..] == [es[1]] && es[1..][1..] == [];
    assert ServeOn(server, s, es) == ServeOn(server, s1, [es[1]]);
    assert ServeOn(server, s1, [es[1]]) == Step(server, s1, es[1]);
    if Admit(server, t.r).Some? {
      var read, alone, last := Admit(server, t.r).value, Firestore.State(s.docs, map[], 0), Firestore.Set(0, t.applied);
      assert [read, last][1..] == [last] && [read, last][1..][1..] == [];
      assert Firestore.Run(alone, [read, last])
          == Firestore.Run(Firestore.Step(Firestore.Step(alone, read), last), []);
    }
  }

  /** When requests do not interleave, a document keeps its owner for good, and leads where it did until a request of
      that owner, with the scope, sends it elsewhere. */
  lemma {:induction false} OwnerDecides(
    server: Server, docs: Firestore.Documents, turns: seq<Turn>, path: string, to: string, owner: string)
    requires Guarded(server)
    requires path in docs && docs[path] == Firestore.Document(to, owner)
    ensures var after := TakeTurns(server, docs, turns);
            && path in after && after[path].Document? && after[path].owner == owner
            && (after[path].to != to ==>
                  exists i :: 0 <= i < |turns| && Authorises(server, turns[i].r, path, after[path].to, owner))
  {
    if turns != [] {
      var n := |turns| - 1;
      var before := TakeTurns(server, docs, turns[..n]);
      var after := TakeTurns(server, docs, turns);
      OwnerDecides(server, docs, turns[..n], path, to, owner);
      TurnIsAuthorised(server, before, turns[n]);
      if after[path] == before[path] {
        if before[path].to != to {
          var i :| 0 <= i < n && Authorises(server, turns[..n][i].r, path, before[path].to, owner);
          assert turns[i] == turns[..n][i];
        }
      } else {
        assert Authorises(server, turns[n].r, path, after[path].to, owner);
      }
    }
  }

  /** Some turn authorises this content. */
  ghost predicate AuthorisedByTurn(server: Server, turns: seq<Turn>, path: string, to: string, agent: string) {
    exists i :: 0 <= i < |turns| && Authorises(server, turns[i].r, path, to, agent)
  }

  /** From an empty store, served one by one, requests leave only documents that one of them authorises. */
  lemma {:induction false} EveryTurnIsAuthorised(server: Server, turns: seq<Turn>, path: string)
    requires Guarded(server) && path in TakeTurns(server, map[], turns)
    ensures var doc := TakeTurns(server, map[], turns)[path];
            doc.Document? && AuthorisedByTurn(server, turns, path, doc.to, doc.owner)
  {
    if turns != [] {
      var n := |turns| - 1;
      var before, after := TakeTurns(server, map[], turns[..n]), TakeTurns(server, map[], turns);
      TurnIsAuthorised(server, before, turns[n]);
      if path in before && after[path] == before[path] {
        EveryTurnIsAuthorised(server, turns[..n], path);
        var doc := before[path];
        var i :| 0 <= i < n && Authorises(server, turns[..n][i].r, path, doc.to, doc.owner);
        assert turns[i] == turns[..n][i];
      } else {
        var to, agent := after[path].to, after[path].owner;
        assert Authorises(server, turns[n].r, path, to, agent);
      }
    }
  }

  // ---------------------------------------------------------------------------------------------
  // Generated links
  // ---------------------------------------------------------------------------------------------

  /** Slugs have no characters that matter in a path. */
  lemma SlugIsPlain(t: Uid.byte, payload: seq<Uid.byte>)
    requires t != 0
    ensures var path := "/" + Uid.Slug(t, payload); '+' !in path && path != "." && path != ".."
  {
    Uid.SlugIsCanonical(t, payload);
    var path := "/" + Uid.Slug(t, payload);
    assert path[0] == '/' && path[1..] == Uid.Slug(t, payload);
    assert !Uid.IsDigit('+');
  }

  /** Two generated links share a document exactly when they are on one domain, and were generated from the same type
      and the same bytes. */
  lemma GeneratedLinksAreDistinct(u1: Url, t1: Uid.byte, payload1: seq<Uid.byte>,
                                  u2: Url, t2: Uid.byte, payload2: seq<Uid.byte>)
    requires Plain(u1.host) && t1 != 0 && u1.path == "/" + Uid.Slug(t1, payload1)
    requires Plain(u2.host) && t2 != 0 && u2.path == "/" + Uid.Slug(t2, payload2)
    ensures UrlToPath(u1) == UrlToPath(u2) <==> u1.host == u2.host && t1 == t2 && payload1 == payload2
  {
    SlugIsPlain(t1, payload1);
    SlugIsPlain(t2, payload2);
    DocumentsAreDistinct(u1, u2);
    assert u1.path[1..] == Uid.Slug(t1, payload1) && u2.path[1..] == Uid.Slug(t2, payload2);
    Uid.SlugsNeverCollide(t1, payload1, t2, payload2);
  }

  /** What the generator of an enricher makes a slug from. */
  function Drawn(enricher: Links.URLEnricher, call: Links.NewCall): Result<seq<Uid.byte>, Uid.Error> {
    Uid.Payload(enricher.generator.t, call.entropy)
  }

  /** The call leaves the path of its link to the generator, and this is the finished URL. */
  ghost predicate Generates(enricher: Links.URLEnricher, parse: Links.Parser, call: Links.NewCall, from: Url) {
    && (call.on.None? || call.on.value.path == "")
    && Links.Requested(enricher, parse, call).Some?
    && Links.Requested(enricher, parse, call).value.from == from
  }

  lemma GeneratedPath(enricher: Links.URLEnricher, parse: Links.Parser, call: Links.NewCall, from: Url)
    requires Generates(enricher, parse, call, from)
    ensures enricher.generator.t != 0 && Drawn(enricher, call).Ok?
    ensures from.path == "/" + Uid.Slug(enricher.generator.t, Drawn(enricher, call).value)
  {
  }

  /** Two calls that leave out the path, to servers with any domains and generators, ask for the same document exactly
      when their hosts are the same once filled in, and their generators have the same type and drew the same bytes. */
  lemma EnrichedLinksAreDistinct(enricher1: Links.URLEnricher, call1: Links.NewCall, from1: Url,
                                 enricher2: Links.URLEnricher, call2: Links.NewCall, from2: Url, parse: Links.Parser)
    requires Generates(enricher1, parse, call1, from1) && Plain(from1.host)
    requires Generates(enricher2, parse, call2, from2) && Plain(from2.host)
    ensures UrlToPath(from1) == UrlToPath(from2) <==>
      && from1.host == from2.host
      && enricher1.generator.t == enricher2.generator.t
      && Drawn(enricher1, call1) == Drawn(enricher2, call2)
  {
    GeneratedPath(enricher1, parse, call1, from1);
    GeneratedPath(enricher2, parse, call2, from2);
    GeneratedLinksAreDistinct(from1, enricher1.generator.t, Drawn(enricher1, call1).value,
                              from2, enricher2.generator.t, Drawn(enricher2, call2).value);
  }
}
