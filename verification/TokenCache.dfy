/** A token source that keeps the current token in a file, so that it survives restarts. */
module TokenCache {
  import opened Wrappers
  import opened TokenFile

  /** An OAuth2 token. Times are in nanoseconds; 0 stands for a time that is not set. */
  datatype Token = Token(access: string, refresh: string, kind: string, expiry: int)

  /** What decoding JSON's `null` into an empty token leaves. */
  const ZERO := Token("", "", "", 0)

  /** The oauth2 library counts a token as expired ten seconds early. */
  const EXPIRY_DELTA := 10_000_000_000

  predicate Valid(t: Token, now: int) {
    t.access != "" && (t.expiry == 0 || now <= t.expiry - EXPIRY_DELTA)
  }

  predicate Usable(t: Token, now: int) {
    Valid(t, now) || t.refresh != ""
  }

  /** What the comparison of tokens sees; the type of a token is not part of it. */
  function Visible(t: Option<Token>): Option<(string, string, int)> {
    if t.Some? then Some((t.value.access, t.value.refresh, t.value.expiry)) else None
  }

  /** Two tokens differ when what the comparison sees differs, so not to differ is an equivalence. */
  predicate IsDifferent(a: Option<Token>, b: Option<Token>): (r: bool)
    ensures r <==> Visible(a) != Visible(b)
  {
    if a.None? && b.None? then false
    else if a.None? || b.None? then true
    else if a.value.expiry - b.value.expiry != 0 then true
    else if a.value.access != b.value.access then true
    else a.value.refresh != b.value.refresh
  }

  /** Field by field: a token differs from no token, and from another in its text, its refresh token or its expiry. */
  lemma DifferentIff(a: Option<Token>, b: Option<Token>)
    ensures a.None? && b.None? ==> !IsDifferent(a, b)
    ensures a.None? != b.None? ==> IsDifferent(a, b)
    ensures a.Some? && b.Some? ==>
      (IsDifferent(a, b)
       <==> a.value.access != b.value.access || a.value.refresh != b.value.refresh || a.value.expiry != b.value.expiry)
  {
  }

  predicate Same(a: Token, b: Token) {
    !IsDifferent(Some(a), Some(b))
  }

  /** The token that is read back after this one is stored. */
  function Stored(t: Option<Token>): Token {
    if t.Some? then t.value else ZERO
  }

  // ---------------------------------------------------------------------------------------------
  // JSON
  // ---------------------------------------------------------------------------------------------

  datatype Codec = Codec(encode: Option<Token> -> Option<Bytes>, decode: Bytes -> Option<Token>)

  /** Encoding keeps what `IsDifferent` looks at. */
  ghost predicate Faithful(codec: Codec) {
    forall t :: codec.encode(t).Some? ==>
      && codec.decode(codec.encode(t).value).Some?
      && Same(codec.decode(codec.encode(t).value).value, Stored(t))
  }

  predicate Blank(b: bv8) {
    b == 0x20 || b == 0x09 || b == 0x0a || b == 0x0d
  }

  predicate AllBlank(bytes: Bytes) {
    forall i :: 0 <= i < |bytes| ==> Blank(bytes[i])
  }

  /** White space after the end of a value is ignored; anything else there is a syntax error. */
  ghost predicate Strict(codec: Codec) {
    forall t, tail: Bytes | codec.encode(t).Some? ::
      codec.decode(codec.encode(t).value + tail)
      == if AllBlank(tail) then codec.decode(codec.encode(t).value) else None
  }

  /** What is left over beyond the end of these contents, if anything, is white space. A leftover that is no longer than
      the contents is harmless. */
  predicate Harmless(leftover: Bytes, contents: Bytes) {
    forall i :: |contents| <= i < |leftover| ==> Blank(leftover[i])
  }

  /** Contents written over a leftover can be read exactly when it is harmless. */
  lemma OverlayDecodes(codec: Codec, tok: Option<Token>, leftover: Bytes)
    requires Strict(codec) && codec.encode(tok).Some?
    ensures codec.decode(Overlay(codec.encode(tok).value, leftover))
         == if Harmless(leftover, codec.encode(tok).value) then codec.decode(codec.encode(tok).value) else None
  {
    var bytes := codec.encode(tok).value;
    var tail := if |bytes| < |leftover| then leftover[|bytes|..] else [];
    forall i | |bytes| <= i < |leftover| ensures leftover[i] == tail[i - |bytes|] {
    }
    assert AllBlank(tail) <==> Harmless(leftover, bytes);
    assert codec.decode(codec.encode(tok).value + tail)
        == if AllBlank(tail) then codec.decode(codec.encode(tok).value) else None;
  }

  // ---------------------------------------------------------------------------------------------
  // One call
  // ---------------------------------------------------------------------------------------------

  datatype Error = SetupFailed | CacheFailure | UpstreamFailed | EncodingFailed | WriteFailed

  /** What the wrapped token source, or the seed, comes up with: perhaps no token at all. */
  datatype Upstream = Delivers(tok: Option<Token>) | Fails

  datatype Call = Call(up: Upstream, fault: Fault)

  datatype Cache = Cache(cur: Option<Token>, disk: Disk)

  /** The bytes this call wants to store, if it has a new token. */
  function NewBytes(codec: Codec, c: Cache, call: Call): Option<Bytes> {
    if call.up.Fails? || !IsDifferent(c.cur, call.up.tok) then None else codec.encode(call.up.tok)
  }

  function Answer(codec: Codec, c: Cache, call: Call): Result<Option<Token>, Error> {
    if call.up.Fails? then Err(UpstreamFailed)
    else if !IsDifferent(c.cur, call.up.tok) then Ok(call.up.tok)
    else if NewBytes(codec, c, call).None? then Err(EncodingFailed)
    else if !call.fault.NoFault? then Err(WriteFailed)
    else Ok(call.up.tok)
  }

  function After(codec: Codec, c: Cache, call: Call): Cache {
    var bytes := NewBytes(codec, c, call);
    if bytes.None? then c
    else Cache(if call.fault.NoFault? then call.up.tok else c.cur, DiskAfter(c.disk, bytes.value, call.fault))
  }

  /** Each answer exactly in its case. A token is handed out as it was delivered, if it is the current one, or else if
      it can be encoded and stored. */
  lemma AnswerIsExact(codec: Codec, c: Cache, call: Call)
    ensures var r := Answer(codec, c, call);
            && (r == Err(UpstreamFailed) <==> call.up.Fails?)
            && (call.up.Delivers? ==>
                  var isNew, bytes := Visible(c.cur) != Visible(call.up.tok), codec.encode(call.up.tok);
                  && (r == Err(EncodingFailed) <==> isNew && bytes.None?)
                  && (r == Err(WriteFailed) <==> isNew && bytes.Some? && !call.fault.NoFault?)
                  && (r.Ok? <==> !isNew || (bytes.Some? && call.fault.NoFault?))
                  && (r.Ok? ==> r.value == call.up.tok))
  {
  }

  /** Memory changes exactly when a new token is stored, and to that token; the files change exactly when a new token
      can be encoded, and as far as the write gets. */
  lemma AfterIsExact(codec: Codec, c: Cache, call: Call)
    ensures var c' := After(codec, c, call);
            if call.up.Delivers? && Visible(c.cur) != Visible(call.up.tok) && codec.encode(call.up.tok).Some?
            then c'.cur == (if call.fault.NoFault? then call.up.tok else c.cur)
                 && c'.disk == DiskAfter(c.disk, codec.encode(call.up.tok).value, call.fault)
            else c' == c
  {
  }

  /** Memory and file agree on the token. */
  ghost predicate Agrees(codec: Codec, c: Cache) {
    && c.disk.path.Some?
    && codec.decode(c.disk.path.value).Some?
    && Same(codec.decode(c.disk.path.value).value, Stored(c.cur))
  }

  /** If this call replaces the file, the swap file in the way is harmless. */
  ghost predicate Clean(codec: Codec, c: Cache, call: Call) {
    NewBytes(codec, c, call).Some? && call.fault.NoFault? ==>
      Harmless(c.disk.Leftover(), NewBytes(codec, c, call).value)
  }

  lemma CallKeepsAgreement(codec: Codec, c: Cache, call: Call)
    requires Faithful(codec) && Strict(codec) && Agrees(codec, c) && Clean(codec, c, call)
    ensures Agrees(codec, After(codec, c, call))
    ensures Answer(codec, c, call).Ok? ==> !IsDifferent(Answer(codec, c, call).value, After(codec, c, call).cur)
    ensures Answer(codec, c, call).Err? ==>
      After(codec, c, call).cur == c.cur && After(codec, c, call).disk.path == c.disk.path
  {
    if NewBytes(codec, c, call).Some? {
      OverlayDecodes(codec, call.up.tok, c.disk.Leftover());
    }
  }

  /** The premise is exact: when a call replaces the file, memory and file agree afterwards if and only if the swap file
      in the way was harmless. */
  lemma AgreementIff(codec: Codec, c: Cache, call: Call)
    requires Faithful(codec) && Strict(codec)
    requires NewBytes(codec, c, call).Some? && call.fault.NoFault?
    ensures Agrees(codec, After(codec, c, call))
       <==> Harmless(c.disk.Leftover(), NewBytes(codec, c, call).value)
  {
    OverlayDecodes(codec, call.up.tok, c.disk.Leftover());
  }

  /** One failed rename is enough to get there: what it leaves is in the way of the next write. */
  lemma FailedRenameTearsIff(codec: Codec, c: Cache, first: Call, second: Call)
    requires Faithful(codec) && Strict(codec) && c.disk.swap.None?
    requires NewBytes(codec, c, first).Some? && first.fault.RenameFails?
    requires NewBytes(codec, c, second).Some? && second.fault.NoFault?
    ensures Agrees(codec, After(codec, After(codec, c, first), second))
       <==> Harmless(NewBytes(codec, c, first).value, NewBytes(codec, c, second).value)
  {
    assert After(codec, c, first).disk.Leftover() == NewBytes(codec, c, first).value;
    AgreementIff(codec, After(codec, c, first), second);
  }

  /** How a file gets torn, starting from agreement and no swap file: storing a token fails at the rename, and then
      another is stored. That one is handed out, but the file can be read exactly if nothing but white space of the
      first reaches beyond the second. */
  lemma TornFromAgreement(codec: Codec, c: Cache, first: Call, second: Call)
    requires Faithful(codec) && Strict(codec) && Agrees(codec, c) && c.disk.swap.None?
    requires NewBytes(codec, c, first).Some? && first.fault.RenameFails?
    requires NewBytes(codec, c, second).Some? && second.fault.NoFault?
    ensures var c1 := After(codec, c, first);
            && Agrees(codec, c1)
            && Answer(codec, c1, second) == Ok(second.up.tok)
            && (Agrees(codec, After(codec, c1, second))
                <==> Harmless(NewBytes(codec, c, first).value, NewBytes(codec, c, second).value))
  {
    FailedRenameTearsIff(codec, c, first, second);
  }

  // ---------------------------------------------------------------------------------------------
  // Whole runs
  // ---------------------------------------------------------------------------------------------

  function Run(codec: Codec, c: Cache, calls: seq<Call>): Cache
    decreases calls
  {
    if calls == [] then c else Run(codec, After(codec, c, calls[0]), calls[1..])
  }

  ghost predicate CleanRun(codec: Codec, c: Cache, calls: seq<Call>)
    decreases calls
  {
    calls == [] || (Clean(codec, c, calls[0]) && CleanRun(codec, After(codec, c, calls[0]), calls[1..]))
  }

  /** Every token handed out in the course of a run is the one the file holds at that moment. */
  ghost predicate HandsOutStored(codec: Codec, c: Cache, calls: seq<Call>)
    decreases calls
  {
    calls != [] ==>
      var answer, c' := Answer(codec, c, calls[0]), After(codec, c, calls[0]);
      && (answer.Ok? ==> Agrees(codec, Cache(answer.value, c'.disk)))
      && HandsOutStored(codec, c', calls[1..])
  }

  /** The last token handed out in a run, or else the given one. */
  function LastHandedOut(codec: Codec, c: Cache, calls: seq<Call>, before: Option<Token>): Option<Token>
    decreases calls
  {
    if calls == [] then before
    else
      var answer := Answer(codec, c, calls[0]);
      LastHandedOut(codec, After(codec, c, calls[0]), calls[1..], if answer.Ok? then answer.value else before)
  }

  /** Over any run of calls, whatever upstream does and whichever writes fail. */
  lemma {:induction false} RunKeepsAgreement(codec: Codec, c: Cache, calls: seq<Call>, before: Option<Token>)
    requires Faithful(codec) && Strict(codec) && Agrees(codec, c) && CleanRun(codec, c, calls)
    requires !IsDifferent(before, c.cur)
    ensures Agrees(codec, Run(codec, c, calls))
    ensures HandsOutStored(codec, c, calls)
    ensures !IsDifferent(LastHandedOut(codec, c, calls, before), Run(codec, c, calls).cur)
    decreases calls
  {
    if calls != [] {
      CallKeepsAgreement(codec, c, calls[0]);
      var answer := Answer(codec, c, calls[0]);
      RunKeepsAgreement(codec, After(codec, c, calls[0]), calls[1..], if answer.Ok? then answer.value else before);
    }
  }

  /** And over whole runs, too, the premise is exact: every token that is handed out is the stored one if and only if
      every write that replaces the file meets a harmless swap file. */
  lemma {:induction false} HandsOutStoredIff(codec: Codec, c: Cache, calls: seq<Call>)
    requires Faithful(codec) && Strict(codec) && Agrees(codec, c)
    ensures HandsOutStored(codec, c, calls) <==> CleanRun(codec, c, calls)
    decreases calls
  {
    if calls != [] {
      var bytes := NewBytes(codec, c, calls[0]);
      if bytes.Some? && calls[0].fault.NoFault? {
        AgreementIff(codec, c, calls[0]);
      }
      if Clean(codec, c, calls[0]) {
        CallKeepsAgreement(codec, c, calls[0]);
        HandsOutStoredIff(codec, After(codec, c, calls[0]), calls[1..]);
      }
    }
  }

  /** Calls that do not get as far as opening the swap file change nothing. */
  lemma {:induction false} UnopenedChangesNothing(codec: Codec, c: Cache, calls: seq<Call>)
    requires forall i :: 0 <= i < |calls| ==> NewBytes(codec, c, calls[i]).None? || calls[i].fault.OpenFails?
    ensures Run(codec, c, calls) == c
    decreases calls
  {
    if calls != [] {
      assert NewBytes(codec, c, calls[0]).None? || calls[0].fault.OpenFails?;
      UnopenedChangesNothing(codec, c, calls[1..]);
    }
  }

  /** A process that is still running can get over a torn file: the write that tore it took the swap file along. If no
      call opens the swap file before the next write that is completed, that puts a whole token in place. */
  lemma NextWriteHeals(codec: Codec, c: Cache, call: Call, between: seq<Call>, next: Call)
    requires Faithful(codec)
    requires NewBytes(codec, c, call).Some? && call.fault.NoFault?
    requires var c1 := After(codec, c, call);
             forall i :: 0 <= i < |between| ==>
               NewBytes(codec, c1, between[i]).None? || between[i].fault.OpenFails?
    requires var c2 := Run(codec, After(codec, c, call), between);
             NewBytes(codec, c2, next).Some? && next.fault.NoFault?
    ensures Agrees(codec, After(codec, Run(codec, After(codec, c, call), between), next))
  {
    UnopenedChangesNothing(codec, After(codec, c, call), between);
    OverlayIsExactIff(NewBytes(codec, After(codec, c, call), next).value, []);
  }

  /** Whatever happens in between, torn files included, a write that is completed restores agreement exactly if it meets
      a harmless swap file. */
  lemma NextWriteHealsIff(codec: Codec, c: Cache, calls: seq<Call>, next: Call)
    requires Faithful(codec) && Strict(codec)
    requires NewBytes(codec, Run(codec, c, calls), next).Some? && next.fault.NoFault?
    ensures var d := Run(codec, c, calls);
            Agrees(codec, After(codec, d, next)) <==> Harmless(d.disk.Leftover(), NewBytes(codec, d, next).value)
  {
    AgreementIff(codec, Run(codec, c, calls), next);
  }

  /** So a write that fails at the rename in between can have the file torn again. */
  lemma NextWriteTearsAgain(codec: Codec, c: Cache, call: Call, failed: Call, next: Call)
    requires Faithful(codec) && Strict(codec)
    requires NewBytes(codec, c, call).Some? && call.fault.NoFault?
    requires NewBytes(codec, After(codec, c, call), failed).Some? && failed.fault.RenameFails?
    requires NewBytes(codec, After(codec, c, call), next).Some? && next.fault.NoFault?
    ensures var c1 := After(codec, c, call);
            Agrees(codec, Run(codec, c1, [failed, next]))
            <==> Harmless(NewBytes(codec, c1, failed).value, NewBytes(codec, c1, next).value)
  {
    var c1 := After(codec, c, call);
    FailedRenameTearsIff(codec, c1, failed, next);
    assert [failed, next][1..] == [next] && [next][1..] == [];
    assert Run(codec, c1, [failed, next]) == Run(codec, After(codec, c1, failed), [next]);
    assert Run(codec, After(codec, c1, failed), [next]) == After(codec, After(codec, c1, failed), next);
  }

  /** The same token delivered again and again. */
  function Attempts(up: Upstream, faults: seq<Fault>): seq<Call> {
    seq(|faults|, i requires 0 <= i < |faults| => Call(up, faults[i]))
  }

  /** A token whose write fails is not handed out, and is written again each time it is delivered again, until that
      succeeds: then it is handed out, and current. */
  lemma {:induction false} FailedWritesAreRetried(
    codec: Codec, c: Cache, up: Upstream, faults: seq<Fault>, before: Option<Token>)
    requires up.Delivers? && NewBytes(codec, c, Call(up, NoFault)).Some?
    requires forall f :: f in faults ==> !f.NoFault?
    ensures var c' := Run(codec, c, Attempts(up, faults));
            && LastHandedOut(codec, c, Attempts(up, faults), before) == before
            && c'.cur == c.cur && c'.disk.path == c.disk.path
            && NewBytes(codec, c', Call(up, NoFault)) == NewBytes(codec, c, Call(up, NoFault))
            && Answer(codec, c', Call(up, NoFault)) == Ok(up.tok)
            && After(codec, c', Call(up, NoFault)).cur == up.tok
    decreases faults
  {
    if faults != [] {
      var calls := Attempts(up, faults);
      assert calls[0] == Call(up, faults[0]) && calls[1..] == Attempts(up, faults[1..]);
      FailedWritesAreRetried(codec, After(codec, c, calls[0]), up, faults[1..], before);
    }
  }

  /** On a storage where a failed write changes nothing, every run is clean. */
  lemma {:induction false} UntouchedStorageIsClean(codec: Codec, c: Cache, calls: seq<Call>)
    requires c.disk.swap.None?
    requires forall i :: 0 <= i < |calls| ==> calls[i].fault.NoFault? || calls[i].fault.OpenFails?
    ensures CleanRun(codec, c, calls)
    decreases calls
  {
    if calls != [] {
      UntouchedStorageIsClean(codec, After(codec, c, calls[0]), calls[1..]);
    }
  }

  function AsSeq(bytes: Option<Bytes>): seq<Bytes> {
    if bytes.Some? then [bytes.value] else []
  }

  /** The encodings that a run wants to store, in order; those whose writes fail are among them. */
  function Wanted(codec: Codec, c: Cache, calls: seq<Call>): seq<Bytes>
    decreases calls
  {
    if calls == [] then []
    else AsSeq(NewBytes(codec, c, calls[0])) + Wanted(codec, After(codec, c, calls[0]), calls[1..])
  }

  /** None of them is shorter than the one before, and the first is at least this long. */
  predicate NeverShorter(wanted: seq<Bytes>, len: nat) {
    wanted == [] || (|wanted[0]| >= len && NeverShorter(wanted[1..], |wanted[0]|))
  }

  function LastLength(wanted: seq<Bytes>, len: nat): nat {
    if wanted == [] then len else |wanted[|wanted| - 1]|
  }

  lemma {:induction false} NeverShorterInTurn(a: seq<Bytes>, b: seq<Bytes>, len: nat)
    requires NeverShorter(a + b, len)
    ensures NeverShorter(a, len) && NeverShorter(b, LastLength(a, len))
    decreases a
  {
    if a == [] {
      assert a + b == b;
    } else {
      assert (a + b)[1..] == a[1..] + b;
      NeverShorterInTurn(a[1..], b, |a[0]|);
    }
  }

  /** A run is clean if no encoding that it wants to store is shorter than the one before, or than what was left over:
      whichever writes fail, and wherever they do. */
  lemma {:induction false} GrowingRunIsClean(codec: Codec, c: Cache, calls: seq<Call>, len: nat)
    requires |c.disk.Leftover()| <= len && NeverShorter(Wanted(codec, c, calls), len)
    ensures CleanRun(codec, c, calls)
    ensures |Run(codec, c, calls).disk.Leftover()| <= LastLength(Wanted(codec, c, calls), len)
    decreases calls
  {
    if calls != [] {
      var first, c1 := AsSeq(NewBytes(codec, c, calls[0])), After(codec, c, calls[0]);
      NeverShorterInTurn(first, Wanted(codec, c1, calls[1..]), len);
      GrowingRunIsClean(codec, c1, calls[1..], LastLength(first, len));
    }
  }

  // ---------------------------------------------------------------------------------------------
  // Starting and restarting
  // ---------------------------------------------------------------------------------------------

  /** What is needed to start: the clock, whether an existing file can be read, and how the seed and its write end. */
  datatype Startup = Startup(now: int, readable: bool, seed: Upstream, fault: Fault)

  /** The token in the file, if the source starts with it. */
  function Kept(codec: Codec, d: Disk, now: int): Option<Token> {
    if d.path.None? then None
    else
      var t := codec.decode(d.path.value);
      if t.Some? && Usable(t.value, now) then t else None
  }

  function FirstToken(codec: Codec, d: Disk, s: Startup): Result<Option<Token>, Error> {
    if d.path.Some? && !s.readable then Err(SetupFailed)
    else if d.path.Some? && codec.decode(d.path.value).None? then Err(CacheFailure)
    else if Kept(codec, d, s.now).Some? then Ok(Kept(codec, d, s.now))
    else if s.seed.Fails? then Err(SetupFailed)
    else if codec.encode(s.seed.tok).None? then Err(CacheFailure)
    else if !s.fault.NoFault? then Err(SetupFailed)
    else Ok(s.seed.tok)
  }

  predicate RunsSeed(codec: Codec, d: Disk, s: Startup) {
    d.path.None? || (s.readable && codec.decode(d.path.value).Some? && Kept(codec, d, s.now).None?)
  }

  /** The bytes a start wants to store, if it runs the seed. */
  function SeedBytes(codec: Codec, d: Disk, s: Startup): Option<Bytes> {
    if RunsSeed(codec, d, s) && s.seed.Delivers? then codec.encode(s.seed.tok) else None
  }

  function FirstDisk(codec: Codec, d: Disk, s: Startup): Disk {
    var bytes := SeedBytes(codec, d, s);
    if bytes.Some? then DiskAfter(d, bytes.value, s.fault) else d
  }

  /** If the start replaces the file, the swap file in the way is harmless. */
  ghost predicate CleanStart(codec: Codec, d: Disk, s: Startup) {
    SeedBytes(codec, d, s).Some? && s.fault.NoFault? ==> Harmless(d.Leftover(), SeedBytes(codec, d, s).value)
  }

  /** When a token is worth keeping, in terms of its fields: it can be refreshed, or it is there and does not expire
      within ten seconds of now. */
  lemma UsableIff(t: Token, now: int)
    ensures Usable(t, now)
       <==> t.refresh != "" || (t.access != "" && (t.expiry == 0 || now + 10_000_000_000 <= t.expiry))
  {
  }

  /** A start with a file: one that cannot be read, or decoded, is an error; a token in it that is worth keeping is
      kept; otherwise the seed is run. Only that touches the files. */
  lemma StartWithFile(codec: Codec, d: Disk, s: Startup)
    requires d.path.Some?
    ensures var t, r := codec.decode(d.path.value), FirstToken(codec, d, s);
            if !s.readable then r == Err(SetupFailed) && !RunsSeed(codec, d, s) && FirstDisk(codec, d, s) == d
            else if t.None? then r == Err(CacheFailure) && !RunsSeed(codec, d, s) && FirstDisk(codec, d, s) == d
            else
              var spent := t.value.refresh == "" && (t.value.access == ""
                             || (t.value.expiry != 0 && s.now + 10_000_000_000 > t.value.expiry));
              && (RunsSeed(codec, d, s) <==> spent)
              && (!spent ==> r == Ok(t) && FirstDisk(codec, d, s) == d)
  {
  }

  /** What a start makes of the seed, whose token is handed out only once it is stored. */
  lemma StartWithSeed(codec: Codec, d: Disk, s: Startup)
    requires d.path.None? || RunsSeed(codec, d, s)
    ensures RunsSeed(codec, d, s)
    ensures var r, disk := FirstToken(codec, d, s), FirstDisk(codec, d, s);
            if s.seed.Fails? then r == Err(SetupFailed) && disk == d
            else
              var bytes := codec.encode(s.seed.tok);
              if bytes.None? then r == Err(CacheFailure) && disk == d
              else
                && r == (if s.fault.NoFault? then Ok(s.seed.tok) else Err(SetupFailed))
                && disk == DiskAfter(d, bytes.value, s.fault)
  {
  }

  /** A file that holds no token is as good as a token with nothing in it. */
  lemma StoredNothing(now: int)
    ensures Stored(None) == Token("", "", "", 0) && !Usable(Stored(None), now)
  {
  }

  /** A source that starts at all starts in agreement with its file. */
  lemma StartAgrees(codec: Codec, d: Disk, s: Startup)
    requires Faithful(codec) && Strict(codec)
    requires FirstToken(codec, d, s).Ok? && CleanStart(codec, d, s)
    ensures Agrees(codec, Cache(FirstToken(codec, d, s).value, FirstDisk(codec, d, s)))
  {
    if RunsSeed(codec, d, s) {
      OverlayDecodes(codec, s.seed.tok, d.Leftover());
    }
  }

  /** A restart goes on with the current token, and asks for a new one exactly when that can neither be used nor
      refreshed any more. */
  lemma RestartResumes(codec: Codec, c: Cache, s: Startup)
    requires Agrees(codec, c) && s.readable
    ensures RunsSeed(codec, c.disk, s) <==> !Usable(Stored(c.cur), s.now)
    ensures !RunsSeed(codec, c.disk, s) ==>
      && FirstDisk(codec, c.disk, s) == c.disk
      && FirstToken(codec, c.disk, s).Ok?
      && !IsDifferent(FirstToken(codec, c.disk, s).value, Some(Stored(c.cur)))
  {
  }

  /** From the first start to a restart: start, make any calls, stop, start again. The restart begins with the token
      handed out last, unless that has become useless. */
  lemma RestartAfterRun(codec: Codec, d: Disk, first: Startup, calls: seq<Call>, second: Startup)
    requires Faithful(codec) && Strict(codec)
    requires FirstToken(codec, d, first).Ok? && CleanStart(codec, d, first)
    requires CleanRun(codec, Cache(FirstToken(codec, d, first).value, FirstDisk(codec, d, first)), calls)
    requires second.readable
    ensures var tok := FirstToken(codec, d, first).value;
            var start := Cache(tok, FirstDisk(codec, d, first));
            var last := LastHandedOut(codec, start, calls, tok);
            var disk := Run(codec, start, calls).disk;
            && (RunsSeed(codec, disk, second) <==> !Usable(Stored(last), second.now))
            && (!RunsSeed(codec, disk, second) ==>
                  && FirstToken(codec, disk, second).Ok?
                  && !IsDifferent(FirstToken(codec, disk, second).value, Some(Stored(last))))
  {
    StartAgrees(codec, d, first);
    var tok := FirstToken(codec, d, first).value;
    var start := Cache(tok, FirstDisk(codec, d, first));
    RunKeepsAgreement(codec, start, calls, tok);
    RestartResumes(codec, Run(codec, start, calls), second);
  }

  /** A torn file is beyond the reach of any new process: no start gets past it, or touches it. */
  lemma NoStartRepairs(codec: Codec, c: Cache, call: Call, s: Startup)
    requires Strict(codec)
    requires NewBytes(codec, c, call).Some? && call.fault.NoFault?
    requires !Harmless(c.disk.Leftover(), NewBytes(codec, c, call).value)
    ensures FirstToken(codec, After(codec, c, call).disk, s).Err?
    ensures FirstDisk(codec, After(codec, c, call).disk, s) == After(codec, c, call).disk
  {
    OverlayDecodes(codec, call.up.tok, c.disk.Leftover());
  }

  // ---------------------------------------------------------------------------------------------
  // A history of processes, any of which may die while it writes
  // ---------------------------------------------------------------------------------------------

  /** The disk after a process dies while it stores these bytes. `rest` is what it still did after opening the swap
      file. */
  function DiskAfterCut(d: Disk, bytes: Bytes, rest: seq<Event>): Disk {
    TokenFile.Run(TokenFile.State(d, Idle), [Open(bytes)] + rest).disk
  }

  /** If the process got as far as replacing the file, the swap file in the way was harmless. */
  ghost predicate CleanCut(d: Disk, bytes: Bytes, rest: seq<Event>) {
    && (forall e :: e in rest ==> !e.Open?)
    && (Replaces(d, bytes, rest) ==> Harmless(d.Leftover(), bytes))
  }

  /** What the file stands for: nothing, as long as there is none, or a token. */
  datatype Held = Nothing | Holding(tok: Option<Token>)

  ghost predicate Holds(codec: Codec, d: Disk, h: Held) {
    match h
    case Nothing => d.path.None?
    case Holding(tok) => Agrees(codec, Cache(tok, d))
  }

  /** A process that dies in the middle of storing a token leaves that token if it got as far as replacing the file, and
      what was there before otherwise. */
  lemma CrashKeepsOldOrNew(codec: Codec, d: Disk, h: Held, tok: Option<Token>, rest: seq<Event>)
    requires Faithful(codec) && Strict(codec) && Holds(codec, d, h)
    requires codec.encode(tok).Some? && CleanCut(d, codec.encode(tok).value, rest)
    ensures var bytes := codec.encode(tok).value;
            Holds(codec, DiskAfterCut(d, bytes, rest), if Replaces(d, bytes, rest) then Holding(tok) else h)
  {
    CutShort(d, codec.encode(tok).value, rest);
    OverlayDecodes(codec, tok, d.Leftover());
  }

  /** One process: it starts, makes calls, and ends; or it dies in the middle of storing the seed's token, or that of
      one more call. */
  datatype Life =
    | Whole(s: Startup, calls: seq<Call>)
    | CutAtSeed(s: Startup, rest: seq<Event>)
    | CutAtCall(s: Startup, calls: seq<Call>, last: Call, rest: seq<Event>)

  /** Memory and disk after a start and some calls; a start that fails makes no calls. */
  function Session(codec: Codec, d: Disk, s: Startup, calls: seq<Call>): Cache {
    var disk, tok := FirstDisk(codec, d, s), FirstToken(codec, d, s);
    if tok.Err? then Cache(None, disk) else Run(codec, Cache(tok.value, disk), calls)
  }

  /** The token that a process which started handed out last; the one it started with, if it handed out none. */
  function LastToken(codec: Codec, d: Disk, s: Startup, calls: seq<Call>): Option<Token>
    requires FirstToken(codec, d, s).Ok?
  {
    var tok := FirstToken(codec, d, s).value;
    LastHandedOut(codec, Cache(tok, FirstDisk(codec, d, s)), calls, tok)
  }

  function DiskAfterLife(codec: Codec, d: Disk, life: Life): Disk {
    match life
    case Whole(s, calls) => Session(codec, d, s, calls).disk
    case CutAtSeed(s, rest) =>
      var bytes := SeedBytes(codec, d, s);
      if bytes.Some? then DiskAfterCut(d, bytes.value, rest) else d
    case CutAtCall(s, calls, last, rest) =>
      var c := Session(codec, d, s, calls);
      var bytes := NewBytes(codec, c, last);
      if FirstToken(codec, d, s).Ok? && bytes.Some? then DiskAfterCut(c.disk, bytes.value, rest) else c.disk
  }

  /** What the file should stand for after a process: the token handed out last; the token being stored when the process
      died, if the file had been replaced already; what it stood for before, if the process never got that far. */
  function HeldAfterLife(codec: Codec, d: Disk, life: Life, before: Held): Held {
    match life
    case Whole(s, calls) =>
      if FirstToken(codec, d, s).Ok? then Holding(LastToken(codec, d, s, calls)) else before
    case CutAtSeed(s, rest) =>
      var bytes := SeedBytes(codec, d, s);
      if bytes.Some? && Replaces(d, bytes.value, rest) then Holding(s.seed.tok) else before
    case CutAtCall(s, calls, last, rest) =>
      if FirstToken(codec, d, s).Err? then before
      else
        var c := Session(codec, d, s, calls);
        var bytes := NewBytes(codec, c, last);
        if bytes.Some? && Replaces(c.disk, bytes.value, rest) then Holding(last.up.tok)
        else Holding(LastToken(codec, d, s, calls))
  }

  ghost predicate CleanSession(codec: Codec, d: Disk, s: Startup, calls: seq<Call>) {
    && CleanStart(codec, d, s)
    && (FirstToken(codec, d, s).Ok? ==>
          CleanRun(codec, Cache(FirstToken(codec, d, s).value, FirstDisk(codec, d, s)), calls))
  }

  /** Every write of the process that replaces the file meets a harmless swap file. */
  ghost predicate CleanLife(codec: Codec, d: Disk, life: Life) {
    match life
    case Whole(s, calls) => CleanSession(codec, d, s, calls)
    case CutAtSeed(s, rest) => SeedBytes(codec, d, s).Some? ==> CleanCut(d, SeedBytes(codec, d, s).value, rest)
    case CutAtCall(s, calls, last, rest) =>
      var c := Session(codec, d, s, calls);
      && CleanSession(codec, d, s, calls)
      && (FirstToken(codec, d, s).Ok? && NewBytes(codec, c, last).Some? ==>
            CleanCut(c.disk, NewBytes(codec, c, last).value, rest))
  }

  lemma SessionHolds(codec: Codec, d: Disk, h: Held, s: Startup, calls: seq<Call>)
    requires Faithful(codec) && Strict(codec) && Holds(codec, d, h) && CleanSession(codec, d, s, calls)
    ensures Holds(codec, Session(codec, d, s, calls).disk,
                  if FirstToken(codec, d, s).Ok? then Holding(LastToken(codec, d, s, calls)) else h)
  {
    var tok := FirstToken(codec, d, s);
    if tok.Ok? {
      StartAgrees(codec, d, s);
      RunKeepsAgreement(codec, Cache(tok.value, FirstDisk(codec, d, s)), calls, tok.value);
    }
  }

  lemma LifeHolds(codec: Codec, d: Disk, life: Life, h: Held)
    requires Faithful(codec) && Strict(codec) && Holds(codec, d, h) && CleanLife(codec, d, life)
    ensures Holds(codec, DiskAfterLife(codec, d, life), HeldAfterLife(codec, d, life, h))
  {
    match life
    case Whole(s, calls) =>
      SessionHolds(codec, d, h, s, calls);
    case CutAtSeed(s, rest) =>
      if SeedBytes(codec, d, s).Some? {
        CrashKeepsOldOrNew(codec, d, h, s.seed.tok, rest);
      }
    case CutAtCall(s, calls, last, rest) =>
      SessionHolds(codec, d, h, s, calls);
      var c := Session(codec, d, s, calls);
      if FirstToken(codec, d, s).Ok? && NewBytes(codec, c, last).Some? {
        CrashKeepsOldOrNew(codec, c.disk, Holding(LastToken(codec, d, s, calls)), last.up.tok, rest);
      }
  }

  function DiskAfterLives(codec: Codec, d: Disk, lives: seq<Life>): Disk
    decreases lives
  {
    if lives == [] then d else DiskAfterLives(codec, DiskAfterLife(codec, d, lives[0]), lives[1..])
  }

  function HeldAfterLives(codec: Codec, d: Disk, lives: seq<Life>, before: Held): Held
    decreases lives
  {
    if lives == [] then before
    else HeldAfterLives(codec, DiskAfterLife(codec, d, lives[0]), lives[1..], HeldAfterLife(codec, d, lives[0], before))
  }

  ghost predicate CleanLives(codec: Codec, d: Disk, lives: seq<Life>)
    decreases lives
  {
    lives == [] || (CleanLife(codec, d, lives[0]) && CleanLives(codec, DiskAfterLife(codec, d, lives[0]), lives[1..]))
  }

  /** Over any number of processes that start, fail, stop and die in the middle of writes, the file is whole and up to
      date: it holds the token handed out last, or a newer one that a dying process had just put in place. */
  lemma {:induction false} FileSurvivesCrashes(codec: Codec, d: Disk, lives: seq<Life>, h: Held)
    requires Faithful(codec) && Strict(codec) && CleanLives(codec, d, lives)
    requires Holds(codec, d, h)
    ensures Holds(codec, DiskAfterLives(codec, d, lives), HeldAfterLives(codec, d, lives, h))
    decreases lives
  {
    if lives != [] {
      LifeHolds(codec, d, lives[0], h);
      FileSurvivesCrashes(codec, DiskAfterLife(codec, d, lives[0]), lives[1..], HeldAfterLife(codec, d, lives[0], h));
    }
  }

  /** So after any such history a new process begins with that token, and runs the seed exactly when there is none, or
      it can neither be used nor refreshed any more. */
  lemma RestartAfterCrashes(codec: Codec, d: Disk, lives: seq<Life>, h: Held, s: Startup)
    requires Faithful(codec) && Strict(codec) && CleanLives(codec, d, lives)
    requires Holds(codec, d, h) && s.readable
    ensures var disk, held := DiskAfterLives(codec, d, lives), HeldAfterLives(codec, d, lives, h);
            && (RunsSeed(codec, disk, s) <==> held.Nothing? || !Usable(Stored(held.tok), s.now))
            && (!RunsSeed(codec, disk, s) ==>
                  && FirstToken(codec, disk, s).Ok?
                  && !IsDifferent(FirstToken(codec, disk, s).value, Some(Stored(held.tok))))
  {
    FileSurvivesCrashes(codec, d, lives, h);
    var held := HeldAfterLives(codec, d, lives, h);
    if held.Holding? {
      RestartResumes(codec, Cache(held.tok, DiskAfterLives(codec, d, lives)), s);
    }
  }

  // ---------------------------------------------------------------------------------------------
  // When the swap file does no harm
  // ---------------------------------------------------------------------------------------------

  /** The encodings that a process wants to store until it ends or is cut short. */
  function WantedInSession(codec: Codec, d: Disk, s: Startup, calls: seq<Call>): seq<Bytes> {
    var tok := FirstToken(codec, d, s);
    AsSeq(SeedBytes(codec, d, s))
    + if tok.Ok? then Wanted(codec, Cache(tok.value, FirstDisk(codec, d, s)), calls) else []
  }

  function WantedInLife(codec: Codec, d: Disk, life: Life): seq<Bytes> {
    match life
    case Whole(s, calls) => WantedInSession(codec, d, s, calls)
    case CutAtSeed(s, _) => AsSeq(SeedBytes(codec, d, s))
    case CutAtCall(s, calls, last, _) =>
      WantedInSession(codec, d, s, calls)
      + if FirstToken(codec, d, s).Ok? then AsSeq(NewBytes(codec, Session(codec, d, s, calls), last)) else []
  }

  function WantedInLives(codec: Codec, d: Disk, lives: seq<Life>): seq<Bytes>
    decreases lives
  {
    if lives == [] then []
    else WantedInLife(codec, d, lives[0]) + WantedInLives(codec, DiskAfterLife(codec, d, lives[0]), lives[1..])
  }

  /** What a life does after opening the swap file for the write it dies in is part of that one write. */
  ghost predicate OneWrite(life: Life) {
    !life.Whole? ==> forall e :: e in life.rest ==> !e.Open?
  }

  lemma GrowingSessionIsClean(codec: Codec, d: Disk, s: Startup, calls: seq<Call>, len: nat)
    requires |d.Leftover()| <= len && NeverShorter(WantedInSession(codec, d, s, calls), len)
    ensures CleanSession(codec, d, s, calls)
    ensures |Session(codec, d, s, calls).disk.Leftover()| <= LastLength(WantedInSession(codec, d, s, calls), len)
  {
    var seed, tok, disk := AsSeq(SeedBytes(codec, d, s)), FirstToken(codec, d, s), FirstDisk(codec, d, s);
    var rest := if tok.Ok? then Wanted(codec, Cache(tok.value, disk), calls) else [];
    NeverShorterInTurn(seed, rest, len);
    if tok.Ok? {
      GrowingRunIsClean(codec, Cache(tok.value, disk), calls, LastLength(seed, len));
    }
  }

  lemma GrowingCutIsClean(d: Disk, bytes: Bytes, rest: seq<Event>)
    requires |d.Leftover()| <= |bytes| && forall e :: e in rest ==> !e.Open?
    ensures CleanCut(d, bytes, rest)
    ensures |DiskAfterCut(d, bytes, rest).Leftover()| <= |bytes|
  {
    var s := TokenFile.State(d, Idle);
    TokenFile.StepKeepsConsistent(s, Open(bytes));
    TokenFile.RunStaysInReach(TokenFile.Step(s, Open(bytes)), rest);
    TokenFile.RunCons(s, Open(bytes), rest);
  }

  lemma GrowingLifeIsClean(codec: Codec, d: Disk, life: Life, len: nat)
    requires |d.Leftover()| <= len && NeverShorter(WantedInLife(codec, d, life), len) && OneWrite(life)
    ensures CleanLife(codec, d, life)
    ensures |DiskAfterLife(codec, d, life).Leftover()| <= LastLength(WantedInLife(codec, d, life), len)
  {
    match life
    case Whole(s, calls) =>
      GrowingSessionIsClean(codec, d, s, calls, len);
    case CutAtSeed(s, rest) =>
      if SeedBytes(codec, d, s).Some? {
        GrowingCutIsClean(d, SeedBytes(codec, d, s).value, rest);
      }
    case CutAtCall(s, calls, last, rest) =>
      var c, session := Session(codec, d, s, calls), WantedInSession(codec, d, s, calls);
      var cut := if FirstToken(codec, d, s).Ok? then AsSeq(NewBytes(codec, c, last)) else [];
      NeverShorterInTurn(session, cut, len);
      GrowingSessionIsClean(codec, d, s, calls, len);
      if cut != [] {
        GrowingCutIsClean(c.disk, NewBytes(codec, c, last).value, rest);
      }
  }

  /** A history is clean if no encoding that one of its processes wants to store is shorter than the one before, or than
      what was left over at first: whichever writes fail, and wherever processes die. */
  lemma {:induction false} GrowingLivesAreClean(codec: Codec, d: Disk, lives: seq<Life>, len: nat)
    requires |d.Leftover()| <= len && NeverShorter(WantedInLives(codec, d, lives), len)
    requires forall i :: 0 <= i < |lives| ==> OneWrite(lives[i])
    ensures CleanLives(codec, d, lives)
    decreases lives
  {
    if lives != [] {
      var first, d1 := WantedInLife(codec, d, lives[0]), DiskAfterLife(codec, d, lives[0]);
      NeverShorterInTurn(first, WantedInLives(codec, d1, lives[1..]), len);
      GrowingLifeIsClean(codec, d, lives[0], len);
      GrowingLivesAreClean(codec, d1, lives[1..], LastLength(first, len));
    }
  }

  // ---------------------------------------------------------------------------------------------
  // The source
  // ---------------------------------------------------------------------------------------------

  class CachingSource {
    const codec: Codec
    const str: File
    var cur: Option<Token>

    constructor (codec: Codec, str: File, cur: Option<Token>)
      ensures this.codec == codec && this.str == str && this.cur == cur
    {
      this.codec, this.str, this.cur := codec, str, cur;
    }

    function State(): Cache
      reads this, str
    {
      Cache(cur, str.Contents())
    }

    /** Starts a source from what the file holds, or from the seed. */
    static method New(codec: Codec, str: File, s: Startup) returns (r: Result<CachingSource, Error>)
      modifies str
      ensures str.Contents() == FirstDisk(codec, old(str.Contents()), s)
      ensures r.Ok? <==> FirstToken(codec, old(str.Contents()), s).Ok?
      ensures r.Err? ==> r.error == FirstToken(codec, old(str.Contents()), s).error
      ensures r.Ok? ==>
        && fresh(r.value) && r.value.codec == codec && r.value.str == str
        && r.value.cur == FirstToken(codec, old(str.Contents()), s).value
    {
      var needsSeed := false;
      var tok: Option<Token> := Some(ZERO);

      var bytes := str.Read(s.readable);
      if bytes == Err(NotFound) {
        needsSeed := true;
      } else if bytes.Err? {
        return Err(SetupFailed);
      }

      if !needsSeed {
        tok := codec.decode(bytes.value);
        if tok.None? {
          return Err(CacheFailure);
        }
        if !Valid(tok.value, s.now) && tok.value.refresh == "" {
          needsSeed := true;
        }
      }

      if needsSeed {
        if s.seed.Fails? {
          return Err(SetupFailed);
        }
        tok := s.seed.tok;
        var encoded := codec.encode(tok);
        if encoded.None? {
          return Err(CacheFailure);
        }
        var err := str.Write(encoded.value, s.fault);
        if err.Some? {
          return Err(SetupFailed);
        }
      }

      var source := new CachingSource(codec, str, tok);
      return Ok(source);
    }

    /** The next token. One that differs from the current one is stored before it is handed out. */
    method Token(call: Call) returns (r: Result<Option<Token>, Error>)
      modifies this, str
      ensures r == Answer(codec, old(State()), call)
      ensures State() == After(codec, old(State()), call)
    {
      if call.up.Fails? {
        return Err(UpstreamFailed);
      }
      var newTok := call.up.tok;

      if !IsDifferent(cur, newTok) {
        return Ok(newTok);
      }

      var bytes := codec.encode(newTok);
      if bytes.None? {
        return Err(EncodingFailed);
      }

      var err := str.Write(bytes.value, call.fault);
      if err.Some? {
        return Err(WriteFailed);
      }

      cur := newTok;
      return Ok(newTok);
    }
  }
}
