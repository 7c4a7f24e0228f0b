/** The interceptor that decides which calls reach a handler, and on whose behalf. */
module Jwts {
  import opened Wrappers

  const AUTHORIZATION := "authorization"

  type Metadata = map<string, seq<string>>

  /** What a call carries: an agent, if one has been established, and the metadata of the request. */
  datatype Context = Context(agent: Option<string>, metadata: Option<Metadata>)

  datatype Error =
    | CannotAuthorize
    | MissingMetadata
    | MissingAuthorization
    | CorruptedAuthorization
    | FailedToAuthenticate

  // ---------------------------------------------------------------------------------------------
  // Claims
  // ---------------------------------------------------------------------------------------------

  datatype Claims = Claims(subject: string, permissions: seq<string>)

  datatype ClaimError = MissingSubject | MissingPermission

  method NeedsPermission(needs: string, claims: Claims) returns (err: Option<ClaimError>)
    ensures err == if needs == "" || needs in claims.permissions then None else Some(MissingPermission)
  {
    if needs == "" {
      return None;
    }

    for i := 0 to |claims.permissions|
      invariant needs !in claims.permissions[..i]
    {
      if claims.permissions[i] == needs {
        return None;
      }
    }

    return Some(MissingPermission);
  }

  /** `needs` is absent for claims that are checked without an extra condition. */
  method Validate(claims: Claims, needs: Option<string>) returns (err: Option<ClaimError>)
    ensures err.None?
       <==> claims.subject != "" && (needs.None? || needs.value == "" || needs.value in claims.permissions)
    ensures err == Some(MissingSubject) <==> claims.subject == ""
    ensures err == Some(MissingPermission)
       <==> claims.subject != "" && needs.Some? && needs.value != "" && needs.value !in claims.permissions
  {
    if claims.subject == "" {
      return Some(MissingSubject);
    }
    if needs.Some? {
      err := NeedsPermission(needs.value, claims);
      return err;
    }
    return None;
  }

  // ---------------------------------------------------------------------------------------------
  // The bearer prefix
  // ---------------------------------------------------------------------------------------------

  function Lower(c: char): char {
    if 'A' <= c <= 'Z' then (c as int + 32) as char else c
  }

  /** Whether the text starts with "Bearer ", in any mixture of cases. */
  predicate StartsWithBearer(s: string) {
    && |s| >= 7
    && Lower(s[0]) == 'b' && Lower(s[1]) == 'e' && Lower(s[2]) == 'a' && Lower(s[3]) == 'r'
    && Lower(s[4]) == 'e' && Lower(s[5]) == 'r' && s[6] == ' '
  }

  /** Removes every occurrence, from the left. */
  function StripBearer(s: string): string {
    if s == "" then ""
    else if StartsWithBearer(s) then StripBearer(s[7..])
    else [s[0]] + StripBearer(s[1..])
  }

  /** The prefix is here, letter by letter. */
  predicate BearerAt(s: string, i: int) {
    && 0 <= i && i + 7 <= |s|
    && s[i] in {'b', 'B'} && s[i + 1] in {'e', 'E'} && s[i + 2] in {'a', 'A'} && s[i + 3] in {'r', 'R'}
    && s[i + 4] in {'e', 'E'} && s[i + 5] in {'r', 'R'} && s[i + 6] == ' '
  }

  lemma BearerAtStart(s: string)
    ensures StartsWithBearer(s) <==> BearerAt(s, 0)
  {
    if |s| >= 7 {
      assert forall k :: 0 <= k < 7 ==> (Lower(s[k]) == 'b' <==> s[k] in {'b', 'B'});
      assert forall k :: 0 <= k < 7 ==> (Lower(s[k]) == 'e' <==> s[k] in {'e', 'E'});
      assert forall k :: 0 <= k < 7 ==> (Lower(s[k]) == 'a' <==> s[k] in {'a', 'A'});
      assert forall k :: 0 <= k < 7 ==> (Lower(s[k]) == 'r' <==> s[k] in {'r', 'R'});
    }
  }

  lemma BearerInTail(s: string, i: int)
    requires s != "" && i > 0
    ensures BearerAt(s, i) <==> BearerAt(s[1..], i - 1)
  {
  }

  /** Everything up to the first prefix stays, the prefix goes, and so on behind it. */
  lemma {:induction false} StripsFirst(s: string, i: nat)
    requires BearerAt(s, i) && forall j :: 0 <= j < i ==> !BearerAt(s, j)
    ensures StripBearer(s) == s[..i] + StripBearer(s[i + 7..])
  {
    BearerAtStart(s);
    if i > 0 {
      BearerInTail(s, i);
      forall j | 0 <= j < i - 1 ensures !BearerAt(s[1..], j) {
        BearerInTail(s, j + 1);
      }
      StripsFirst(s[1..], i - 1);
      assert s[1..][i + 6..] == s[i + 7..];
    }
  }

  /** A text without any prefix stays as it is. */
  lemma {:induction false} StripsNothingElse(s: string)
    requires forall i :: 0 <= i < |s| ==> !BearerAt(s, i)
    ensures StripBearer(s) == s
  {
    if s != "" {
      BearerAtStart(s);
      forall j | 0 <= j < |s| - 1 ensures !BearerAt(s[1..], j) {
        BearerInTail(s, j + 1);
      }
      StripsNothingElse(s[1..]);
      assert s == [s[0]] + s[1..];
    }
  }

  /** A token, which has no spaces, comes out whole, without a prefix or with one in any mixture of cases. */
  lemma BearerRoundTrip(prefix: string, tok: string)
    requires prefix == "" || (|prefix| == 7 && BearerAt(prefix, 0))
    requires ' ' !in tok
    ensures StripBearer(prefix + tok) == tok
    ensures StripBearer("Bearer " + tok) == tok
  {
    forall i | 0 <= i < |tok| ensures !BearerAt(tok, i) {
      assert i + 7 <= |tok| ==> tok[i + 6] in tok;
    }
    StripsNothingElse(tok);
    if prefix == "" {
      assert prefix + tok == tok;
    } else {
      assert (prefix + tok)[7..] == tok;
      StripsFirst(prefix + tok, 0);
    }
    assert ("Bearer " + tok)[7..] == tok;
    StripsFirst("Bearer " + tok, 0);
  }

  // ---------------------------------------------------------------------------------------------
  // Who may pass
  // ---------------------------------------------------------------------------------------------

  /** The signature and the registered claims of a token, checked by the JWT library. */
  type Verifier = string -> Option<Claims>

  /** The claims of a call with exactly one authorization value that verifies. */
  function ClaimsOf(verify: Verifier, ctx: Context): Option<Claims> {
    if ctx.metadata.None? || AUTHORIZATION !in ctx.metadata.value || |ctx.metadata.value[AUTHORIZATION]| != 1 then None
    else verify(StripBearer(ctx.metadata.value[AUTHORIZATION][0]))
  }

  /** The call is for a known method, and either the method is public, or the caller is known and holds its scope. */
  predicate Admitted(permissions: map<string, string>, verify: Verifier, ctx: Context, name: string) {
    && name in permissions
    && (permissions[name] == ""
        || (var claims := ClaimsOf(verify, ctx);
            claims.Some? && claims.value.subject != "" && permissions[name] in claims.value.permissions))
  }

  /** The agent on whose behalf an admitted call is made. */
  function AgentFor(permissions: map<string, string>, verify: Verifier, ctx: Context, name: string): Option<string>
    requires Admitted(permissions, verify, ctx, name)
  {
    if permissions[name] == "" then ctx.agent else Some("sub:" + ClaimsOf(verify, ctx).value.subject)
  }

  predicate CarriesToken(ctx: Context) {
    ctx.metadata.Some? && AUTHORIZATION in ctx.metadata.value
  }

  function WithoutToken(ctx: Context): Context {
    if ctx.metadata.Some? then ctx.(metadata := Some(ctx.metadata.value - {AUTHORIZATION})) else ctx
  }

  /** What it takes to pass where a scope is needed, and on whose behalf: one value under the key for authorization,
      which verifies without its prefix, with a subject and that scope. */
  lemma AdmittedIff(
    permissions: map<string, string>, verify: Verifier, agent: Option<string>, m: Metadata, name: string)
    requires name in permissions && permissions[name] != ""
    ensures var ctx := Context(agent, Some(m));
            && (Admitted(permissions, verify, ctx, name)
                <==> "authorization" in m && |m["authorization"]| == 1
                     && var claims := verify(StripBearer(m["authorization"][0]));
                        claims.Some? && claims.value.subject != ""
                        && permissions[name] in claims.value.permissions)
            && (Admitted(permissions, verify, ctx, name) ==>
                  AgentFor(permissions, verify, ctx, name)
                  == Some("sub:" + verify(StripBearer(m["authorization"][0])).value.subject))
  {
  }

  class ServerInterceptor {
    var permissions: map<string, string>
    const verify: Verifier

    constructor (verify: Verifier)
      ensures permissions == map[] && this.verify == verify
    {
      this.permissions, this.verify := map[], verify;
    }

    /** Adds scopes; of two scopes for one method the one added last counts. */
    method AddPermissions(perms: map<string, string>)
      modifies this
      ensures permissions == old(permissions) + perms
    {
      var left := perms.Keys;
      while left != {}
        invariant left <= perms.Keys
        invariant permissions == old(permissions) + (map k | k in perms && k !in left :: perms[k])
        decreases |left|
      {
        var k :| k in left;
        permissions := permissions[k := perms[k]];
        left := left - {k};
      }
    }

    /** Lets a call pass or not. The token never reaches a handler: the returned context still has it only when the
        method itself is unknown. */
    method ValidateCtx(ctx: Context, name: string) returns (out: Context, err: Option<Error>)
      ensures err.None? <==> Admitted(permissions, verify, ctx, name)
      ensures err.None? ==> out == WithoutToken(ctx).(agent := AgentFor(permissions, verify, ctx, name))
      ensures name in permissions && permissions[name] == "" ==> err.None? && out.agent == ctx.agent
      ensures err.Some? ==> out.agent == ctx.agent
      ensures out.metadata.Some? <==> ctx.metadata.Some?
      ensures out.metadata.Some? && err != Some(CannotAuthorize) ==> "authorization" !in out.metadata.value
      ensures out.metadata.Some? ==> forall k :: k != "authorization" ==>
        && (k in out.metadata.value <==> k in ctx.metadata.value)
        && (k in out.metadata.value ==> out.metadata.value[k] == ctx.metadata.value[k])
      ensures CarriesToken(out) <==> CarriesToken(ctx) && name !in permissions
      ensures err == Some(CannotAuthorize) <==> name !in permissions
      ensures var guarded := name in permissions && permissions[name] != "";
              && (err == Some(MissingMetadata) <==> guarded && ctx.metadata.None?)
              && (err == Some(MissingAuthorization) <==> guarded && ctx.metadata.Some? && !CarriesToken(ctx))
              && (err == Some(CorruptedAuthorization)
                  <==> guarded && CarriesToken(ctx) && |ctx.metadata.value[AUTHORIZATION]| != 1)
    {
      if name !in permissions {
        return ctx, Some(CannotAuthorize);
      }
      var scope := permissions[name];
      var m := ctx.metadata;

      if scope == "" {
        if m.None? {
          return ctx, None;
        }
        return ctx.(metadata := Some(m.value - {AUTHORIZATION})), None;
      }

      if m.None? {
        return ctx, Some(MissingMetadata);
      }
      if AUTHORIZATION !in m.value {
        return ctx, Some(MissingAuthorization);
      }
      var inTok := m.value[AUTHORIZATION];

      out := ctx.(metadata := Some(m.value - {AUTHORIZATION}));
      if |inTok| != 1 {
        return out, Some(CorruptedAuthorization);
      }

      var claims := verify(StripBearer(inTok[0]));
      if claims.None? {
        return out, Some(FailedToAuthenticate);
      }
      var invalid := Validate(claims.value, Some(permissions[name]));
      if invalid.Some? {
        return out, Some(FailedToAuthenticate);
      }

      return out.(agent := Some("sub:" + claims.value.subject)), None;
    }
  }
}
