/** Making links through the API, loading them from a file, and following them. */
module Links {
  import opened Wrappers
  import opened Urls
  import opened Storage
  import opened SortedIndex
  import opened Memory
  import Uid

  /** A store that behaves as a map when it works, and changes nothing when it does not. */
  class Storer {
    var table: Table

    method Get(u: Url, fault: Option<Error>) returns (r: Result<Url, Error>)
      ensures r == if fault.Some? then Err(fault.value) else Lookup(table, u)
    {
      if fault.Some? {
        return Err(fault.value);
      }
      return Lookup(table, u);
    }

    method Put(from: Url, to: Url, fault: Option<Error>) returns (err: Option<Error>)
      modifies this
      ensures err == fault
      ensures table == if fault.Some? then old(table) else old(table)[from.String() := to]
    {
      if fault.None? {
        table := table[from.String() := to];
      }
      return fault;
    }
  }

  // ---------------------------------------------------------------------------------------------
  // Filling in what a request leaves out
  // ---------------------------------------------------------------------------------------------

  /** An URL under construction. */
  class Draft {
    var host: string
    var path: string

    constructor (host: string, path: string)
      ensures this.host == host && this.path == path
    {
      this.host, this.path := host, path;
    }
  }

  datatype URLEnricher = URLEnricher(domain: string, generator: Uid.Generator) {

    function Host(host: string): string {
      if host == "" then domain else host
    }

    /** The path of the finished URL, if one can be made. */
    function Path(path: string, entropy: Uid.Entropy): Option<string> {
      if path != "" then Some(path)
      else
        var id := generator.ID(entropy);
        if id.Err? then None else Some("/" + id.value)
    }

    /** Completes the draft in place. The host is filled in even if no path can be generated. */
    method Enrich(from: Draft, entropy: Uid.Entropy) returns (err: Option<Uid.Error>)
      modifies from
      ensures from.host == if old(from.host) == "" then domain else old(from.host)
      ensures err.None? <==> old(from.path) != "" || generator.ID(entropy).Ok?
      ensures from.path
           == if old(from.path) == "" && err.None? then "/" + generator.ID(entropy).value else old(from.path)
    {
      if from.host == "" {
        from.host := domain;
      }

      if from.path != "" {
        return None;
      }

      var id := generator.ID(entropy);
      if id.Err? {
        return Some(id.error);
      }

      from.path := "/" + id.value;
      return None;
    }
  }

  // ---------------------------------------------------------------------------------------------
  // The API
  // ---------------------------------------------------------------------------------------------

  /** The gRPC status a call fails with. */
  datatype Status = InvalidArgument | Internal | PermissionDenied | Missing

  datatype On = On(host: string, path: string)

  /** A call to New, with everything outside the program that decides its outcome. */
  datatype NewCall = NewCall(on: Option<On>, sendTo: string, entropy: Uid.Entropy, fault: Option<Error>)

  type Parser = string -> Option<Url>

  /** The link a call asks for, if it can be made: from where, and to where. */
  function Requested(enricher: URLEnricher, parse: Parser, call: NewCall): Option<Tuple> {
    var on := if call.on.Some? then call.on.value else On("", "");
    var to, path := parse(call.sendTo), enricher.Path(on.path, call.entropy);
    if to.None? || path.None? then None
    else Some(Tuple(Served(enricher.Host(on.host), path.value), to.value))
  }

  /** The link a call asks for, piece by piece: the host and the path of the request, or else the domain and a generated
      path, lead to the destination of the request. */
  lemma RequestedIsExact(enricher: URLEnricher, parse: Parser, call: NewCall)
    ensures var r := Requested(enricher, parse, call);
            var host, path := if call.on.Some? then call.on.value.host else "",
                              if call.on.Some? then call.on.value.path else "";
            var id := enricher.generator.ID(call.entropy);
            && (r.Some? <==> parse(call.sendTo).Some? && (path != "" || id.Ok?))
            && (r.Some? ==> r.value.to == parse(call.sendTo).value)
            && (r.Some? && host != "" && path != "" ==> r.value.from == Served(host, path))
            && (r.Some? && host == "" && path != "" ==> r.value.from == Served(enricher.domain, path))
            && (r.Some? && host != "" && path == "" ==> r.value.from == Served(host, "/" + id.value))
            && (r.Some? && host == "" && path == "" ==> r.value.from == Served(enricher.domain, "/" + id.value))
  {
  }

  /** The link a call stores, if it succeeds. */
  function Made(enricher: URLEnricher, parse: Parser, call: NewCall): Option<Tuple> {
    if call.fault.Some? then None else Requested(enricher, parse, call)
  }

  class API {
    const storer: Storer
    const enricher: URLEnricher
    const parse: Parser

    constructor (storer: Storer, enricher: URLEnricher, parse: Parser)
      ensures this.storer == storer && this.enricher == enricher && this.parse == parse
    {
      this.storer, this.enricher, this.parse := storer, enricher, parse;
    }

    method Get(req: string, fault: Option<Error>) returns (r: Result<string, Status>)
      ensures r.Ok? <==> fault.None? && parse(req).Some? && Lookup(storer.table, parse(req).value).Ok?
      ensures r.Ok? ==> r.value == Lookup(storer.table, parse(req).value).value.String()
      ensures r == Err(InvalidArgument) <==> parse(req).None?
      ensures r == Err(PermissionDenied) <==> parse(req).Some? && fault == Some(Unauthorized)
      ensures r == Err(Missing)
         <==> parse(req).Some? && (if fault.None? then Lookup(storer.table, parse(req).value).Err?
                                   else fault == Some(NotFound))
      ensures r == Err(Internal)
         <==> parse(req).Some? && fault.Some? && fault.value != Unauthorized && fault.value != NotFound
    {
      var u := parse(req);
      if u.None? {
        return Err(InvalidArgument);
      }

      var response := storer.Get(u.value, fault);
      if response == Err(Unauthorized) {
        return Err(PermissionDenied);
      } else if response == Err(NotFound) {
        return Err(Missing);
      } else if response.Err? {
        return Err(Internal);
      }

      return Ok(response.value.String());
    }

    method New(call: NewCall) returns (r: Result<string, Status>)
      modifies storer
      ensures r.Ok? <==> Made(enricher, parse, call).Some?
      ensures r.Ok? ==>
        var made := Made(enricher, parse, call).value;
        && r.value == made.from.String()
        && storer.table == old(storer.table)[made.from.String() := parse(call.sendTo).value]
      ensures r.Err? ==> storer.table == old(storer.table)
      ensures r == Err(InvalidArgument) <==> parse(call.sendTo).None?
      ensures r == Err(PermissionDenied)
         <==> Requested(enricher, parse, call).Some? && call.fault == Some(Unauthorized)
      ensures r == Err(Internal)
         <==> parse(call.sendTo).Some? && (Requested(enricher, parse, call).None?
                                           || (call.fault.Some? && call.fault.value != Unauthorized))
    {
      var to := parse(call.sendTo);
      if to.None? {
        return Err(InvalidArgument);
      }

      var from := new Draft("", "");
      if call.on.Some? {
        from.host := call.on.value.host;
        from.path := call.on.value.path;
      }

      var failed := enricher.Enrich(from, call.entropy);
      if failed.Some? {
        return Err(Internal);
      }

      var key := Served(from.host, from.path);
      var err := storer.Put(key, to.value, call.fault);
      if err == Some(Unauthorized) {
        return Err(PermissionDenied);
      } else if err.Some? {
        return Err(Internal);
      }

      return Ok(key.String());
    }
  }

  // ---------------------------------------------------------------------------------------------
  // Following a link
  // ---------------------------------------------------------------------------------------------

  const TEMPORARY_REDIRECT := 307
  const STATUS_NOT_FOUND := 404
  const INTERNAL_SERVER_ERROR := 500

  /** An HTTP request and its response: the handler either answers, or leaves a problem for the error middleware. */
  class Exchange {
    const host: string
    const path: string
    var status: Option<int>
    var location: seq<string>
    var problem: Option<int>

    constructor (host: string, path: string)
      ensures this.host == host && this.path == path && status == None && location == [] && problem == None
    {
      this.host, this.path, status, location, problem := host, path, None, [], None;
    }
  }

  class RedirectHandler {
    const str: Storer

    constructor (str: Storer)
      ensures this.str == str
    {
      this.str := str;
    }

    method Redirect(x: Exchange, fault: Option<Error>)
      modifies x
      ensures var found := Lookup(str.table, Served(x.host, x.path));
        if fault.None? && found.Ok?
        then x.status == Some(307) && x.location == old(x.location) + [found.value.String()]
             && x.problem == old(x.problem)
        else x.status == old(x.status) && x.location == old(x.location)
             && x.problem == Some(if fault.None? || fault == Some(NotFound) then 404 else 500)
    {
      var lookup := Served(x.host, x.path);
      var red := str.Get(lookup, fault);

      if red == Err(NotFound) {
        x.problem := Some(STATUS_NOT_FOUND);
        return;
      }

      if red.Ok? {
        x.location := x.location + [red.value.String()];
        x.status := Some(TEMPORARY_REDIRECT);
        return;
      }

      x.problem := Some(INTERNAL_SERVER_ERROR);
    }
  }

  // ---------------------------------------------------------------------------------------------
  // From making links to following them
  // ---------------------------------------------------------------------------------------------

  /** What each call of a run stores, if it succeeds. */
  function Outcomes(enricher: URLEnricher, parse: Parser, calls: seq<NewCall>): (outcomes: seq<Option<Tuple>>)
    ensures |outcomes| == |calls|
    ensures forall i :: 0 <= i < |calls| ==> outcomes[i] == Made(enricher, parse, calls[i])
  {
    seq(|calls|, i requires 0 <= i < |calls| => Made(enricher, parse, calls[i]))
  }

  function Successes(outcomes: seq<Option<Tuple>>): seq<Tuple> {
    if outcomes == [] then []
    else
      var last := outcomes[|outcomes| - 1];
      Successes(outcomes[..|outcomes| - 1]) + (if last.Some? then [last.value] else [])
  }

  /** The links made by a run of calls, in order. */
  function MadeBy(enricher: URLEnricher, parse: Parser, calls: seq<NewCall>): seq<Tuple> {
    Successes(Outcomes(enricher, parse, calls))
  }

  /** A link was made for this key, and no later one. */
  ghost predicate Latest(outcomes: seq<Option<Tuple>>, i: int, key: string) {
    && 0 <= i < |outcomes| && outcomes[i].Some? && Key(outcomes[i].value) == key
    && forall j :: i < j < |outcomes| && outcomes[j].Some? ==> Key(outcomes[j].value) != key
  }

  /** The call made a link for this key, and no later call of the run did. */
  ghost predicate MakesLatest(enricher: URLEnricher, parse: Parser, calls: seq<NewCall>, i: int, key: string) {
    Latest(Outcomes(enricher, parse, calls), i, key)
  }

  lemma LatestSoFar(outcomes: seq<Option<Tuple>>, i: int, key: string)
    requires outcomes != []
    requires outcomes[|outcomes| - 1].Some? ==> Key(outcomes[|outcomes| - 1].value) != key
    ensures Latest(outcomes, i, key) <==> Latest(outcomes[..|outcomes| - 1], i, key)
  {
    var before := outcomes[..|outcomes| - 1];
    assert forall j :: 0 <= j < |before| ==> before[j] == outcomes[j];
    if Latest(before, i, key) {
      forall j | i < j < |outcomes| && outcomes[j].Some? ensures Key(outcomes[j].value) != key {
        assert j < |before| ==> before[j] == outcomes[j];
      }
    }
  }

  /** A table with one more link, if one was made. */
  function With(table: Table, made: Option<Tuple>): Table {
    if made.Some? then table[Key(made.value) := made.value.to] else table
  }

  lemma LastOutcomeStores(outcomes: seq<Option<Tuple>>)
    requires outcomes != []
    ensures TableAfter(Successes(outcomes))
         == With(TableAfter(Successes(outcomes[..|outcomes| - 1])), outcomes[|outcomes| - 1])
  {
    var log, made := Successes(outcomes[..|outcomes| - 1]), outcomes[|outcomes| - 1];
    if made.Some? {
      assert (log + [made.value])[..|log|] == log;
    } else {
      assert log + [] == log;
    }
  }

  lemma {:induction false} LatestStays(outcomes: seq<Option<Tuple>>, key: string)
    ensures var table := TableAfter(Successes(outcomes));
            && (forall i :: Latest(outcomes, i, key) ==> key in table && table[key] == outcomes[i].value.to)
            && (key in table ==> exists i :: Latest(outcomes, i, key))
  {
    if outcomes != [] {
      var n := |outcomes| - 1;
      LastOutcomeStores(outcomes);
      if outcomes[n].Some? && Key(outcomes[n].value) == key {
        assert Latest(outcomes, n, key);
      } else {
        LatestStays(outcomes[..n], key);
        forall i ensures Latest(outcomes, i, key) <==> Latest(outcomes[..n], i, key) {
          LatestSoFar(outcomes, i, key);
        }
      }
    }
  }

  /** After any run of calls, whichever of them failed, a request is sent on to where the latest successful call for its
      URL wanted it; if there was none, nowhere. */
  lemma LatestCallWins(enricher: URLEnricher, parse: Parser, calls: seq<NewCall>, u: Url)
    ensures var table := TableAfter(MadeBy(enricher, parse, calls));
            && (forall i :: MakesLatest(enricher, parse, calls, i, u.String()) ==>
                  parse(calls[i].sendTo).Some? && Lookup(table, u) == Ok(parse(calls[i].sendTo).value))
            && (Lookup(table, u).Ok? ==> exists i :: MakesLatest(enricher, parse, calls, i, u.String()))
  {
    LatestStays(Outcomes(enricher, parse, calls), u.String());
    forall i | MakesLatest(enricher, parse, calls, i, u.String())
      ensures parse(calls[i].sendTo).Some?
      ensures Made(enricher, parse, calls[i]).value.to == parse(calls[i].sendTo).value
    {
    }
    if Lookup(TableAfter(MadeBy(enricher, parse, calls)), u).Ok? {
      var i :| Latest(Outcomes(enricher, parse, calls), i, u.String());
      assert MakesLatest(enricher, parse, calls, i, u.String());
    }
  }

  /** A link is followed by requests for the host and path it was made for, or for what prints like them, and by no
      others. */
  lemma RequestFindsLink(enricher: URLEnricher, parse: Parser, calls: seq<NewCall>, i: int, host: string, path: string)
    requires 0 <= i < |calls| && Made(enricher, parse, calls[i]).Some?
    requires var from := Made(enricher, parse, calls[i]).value.from; Bytewise(from.host) && Bytewise(from.path)
    requires Bytewise(host) && Bytewise(path)
    ensures var from := Made(enricher, parse, calls[i]).value.from;
            Served(host, path).String() == from.String() <==> SameServed(host, path, from.host, from.path)
  {
    var from := Made(enricher, parse, calls[i]).value.from;
    ServedKeysAgree(host, path, from.host, from.path);
  }

  /** A server that starts with an empty store keeps exactly the links that its calls made, the last for a key counting;
      so what is said about that table is said about every run of the API. */
  method NewAll(api: API, calls: seq<NewCall>)
    requires api.storer.table == map[]
    modifies api.storer
    ensures api.storer.table == TableAfter(MadeBy(api.enricher, api.parse, calls))
  {
    var i := 0;
    while i < |calls|
      invariant 0 <= i <= |calls|
      invariant api.storer.table == TableAfter(MadeBy(api.enricher, api.parse, calls[..i]))
    {
      var r := api.New(calls[i]);
      var outcomes := Outcomes(api.enricher, api.parse, calls[..i + 1]);
      LastOutcomeStores(outcomes);
      assert outcomes[..i] == Outcomes(api.enricher, api.parse, calls[..i]);
      i := i + 1;
    }
    assert calls[..i] == calls;
  }

  // ---------------------------------------------------------------------------------------------
  // Links from a file
  // ---------------------------------------------------------------------------------------------

  datatype Row = Row(from: string, to: string)

  predicate Parses(parse: Parser, row: Row) {
    parse(row.from).Some? && parse(row.to).Some?
  }

  /** The rows that can be read, as links. */
  function Parsed(parse: Parser, rows: seq<Row>): seq<Tuple> {
    if rows == [] then []
    else
      var last := rows[|rows| - 1];
      Parsed(parse, rows[..|rows| - 1])
      + (if Parses(parse, last) then [Tuple(parse(last.from).value, parse(last.to).value)] else [])
  }

  /** A table filled with the rows that can be read. */
  function Filled(table: Table, parse: Parser, rows: seq<Row>): Table {
    table + TableAfter(Parsed(parse, rows))
  }

  lemma FilledMore(table: Table, parse: Parser, rows: seq<Row>, n: nat)
    requires n < |rows|
    ensures Filled(table, parse, rows[..n + 1])
         == if Parses(parse, rows[n])
            then Filled(table, parse, rows[..n])[parse(rows[n].from).value.String() := parse(rows[n].to).value]
            else Filled(table, parse, rows[..n])
  {
    assert rows[..n + 1][..n] == rows[..n];
    var log := Parsed(parse, rows[..n]);
    if Parses(parse, rows[n]) {
      var e := Tuple(parse(rows[n].from).value, parse(rows[n].to).value);
      assert (log + [e])[..|log|] == log;
    } else {
      assert log + [] == log;
    }
  }

  /** A row that can be read, and leads away from this URL. */
  predicate LeadsFrom(parse: Parser, row: Row, key: string) {
    parse(row.from).Some? && parse(row.to).Some? && parse(row.from).value.String() == key
  }

  /** After loading, a URL leads where the last readable row for it says, or where it did before if there is none. */
  lemma {:induction false} LastRowWins(table: Table, parse: Parser, rows: seq<Row>, key: string)
    ensures var after := Filled(table, parse, rows);
            if exists i :: 0 <= i < |rows| && LeadsFrom(parse, rows[i], key)
            then key in after && exists i ::
                   && 0 <= i < |rows| && LeadsFrom(parse, rows[i], key) && after[key] == parse(rows[i].to).value
                   && forall j :: i < j < |rows| ==> !LeadsFrom(parse, rows[j], key)
            else (key in after <==> key in table) && (key in table ==> after[key] == table[key])
  {
    if rows != [] {
      var n := |rows| - 1;
      var front := rows[..n];
      FilledMore(table, parse, rows, n);
      LastRowWins(table, parse, front, key);
      assert rows[..n + 1] == rows;
      if LeadsFrom(parse, rows[n], key) {
        assert key in Filled(table, parse, rows);
      } else if exists i :: 0 <= i < n && LeadsFrom(parse, front[i], key) {
        var i :| 0 <= i < n && LeadsFrom(parse, front[i], key)
                 && Filled(table, parse, front)[key] == parse(front[i].to).value
                 && forall j :: i < j < n ==> !LeadsFrom(parse, front[j], key);
        assert rows[i] == front[i];
        assert forall j :: i < j < |rows| ==> j == n || rows[j] == front[j];
      } else {
        assert forall j :: 0 <= j < |rows| ==> j == n || rows[j] == front[j];
      }
    }
  }

  /** A store filled from a file, and read-only from then on. */
  class Yaml {
    const str: Storer

    constructor (str: Storer)
      ensures this.str == str
    {
      this.str := str;
    }

    /** Fills the store: rows that do not parse are skipped, the last row for an URL counts, and the first row that the
        store refuses ends it all. `faults` tells which rows those are; a file that is not a list of rows is None. */
    method Load(file: Option<seq<Row>>, parse: Parser, faults: int -> Option<Error>) returns (err: Option<Error>)
      modifies str
      ensures file.None? ==> err == Some(SetupFailed) && str.table == old(str.table)
      ensures file.Some? ==>
        var rows := file.value;
        if err.None?
        then str.table == Filled(old(str.table), parse, rows)
             && forall i :: 0 <= i < |rows| && Parses(parse, rows[i]) ==> faults(i).None?
        else err == Some(SetupFailed)
             && exists n :: 0 <= n < |rows| && Parses(parse, rows[n]) && faults(n).Some?
                  && str.table == Filled(old(str.table), parse, rows[..n])
    {
      if file.None? {
        return Some(SetupFailed);
      }
      var rows := file.value;

      for n := 0 to |rows|
        invariant str.table == Filled(old(str.table), parse, rows[..n])
        invariant forall i :: 0 <= i < n && Parses(parse, rows[i]) ==> faults(i).None?
      {
        FilledMore(old(str.table), parse, rows, n);
        var from := parse(rows[n].from);
        if from.None? {
          continue;
        }
        var to := parse(rows[n].to);
        if to.None? {
          continue;
        }

        var refused := str.Put(from.value, to.value, faults(n));
        if refused.Some? {
          return Some(SetupFailed);
        }
      }

      assert rows[..|rows|] == rows;
      return None;
    }

    method Get(u: Url, fault: Option<Error>) returns (r: Result<Url, Error>)
      ensures r == if fault.Some? then Err(fault.value) else Lookup(str.table, u)
    {
      r := str.Get(u, fault);
    }

    method Put(from: Url, to: Url) returns (err: Option<Error>)
      ensures err == Some(ReadOnly)
    {
      return Some(ReadOnly);
    }
  }
}
