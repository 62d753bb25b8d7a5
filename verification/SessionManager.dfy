/** The session manager itself: each method is one critical section, or two for a full clear. */
module SessionManager {
  import opened Collections
  import opened CredentialRuns

  class Manager {
    var session: Option<string>
    var tokens: Option<TokenPair>
    var apiKey: Option<string>
    var generation: u64
    var tokenGeneration: u64
    var apiKeyGeneration: u64

    function Held(): Credentials
      reads this
    {
      Credentials(tokens, apiKey, generation, tokenGeneration, apiKeyGeneration)
    }

    function Now(): State
      reads this
    {
      State(session, Held(), false, {})
    }

    constructor ()
      ensures Now() == New()
    {
      session, tokens, apiKey := None, None, None;
      generation, tokenGeneration, apiKeyGeneration := 0, 0, 0;
    }

    constructor WithApiKey(key: string)
      ensures Now() == NewWithApiKey(key)
    {
      session, tokens, apiKey := None, None, Some(key);
      generation, tokenGeneration, apiKeyGeneration := 1, 0, 1;
    }

    method SetApiKey(key: string)
      modifies this
      ensures Now() == Next(old(Now()), Op.SetApiKey(key))
    {
      apiKey := Some(key);
      generation := Bump(generation);
      apiKeyGeneration := Bump(apiKeyGeneration);
    }

    method ClearApiKey()
      modifies this
      ensures Now() == Next(old(Now()), Op.ClearApiKey)
    {
      apiKey := None;
      generation := Bump(generation);
      apiKeyGeneration := Bump(apiKeyGeneration);
    }

    method SetSession(id: string)
      modifies this
      ensures Now() == Next(old(Now()), Op.SetSession(id))
    {
      session := Some(id);
    }

    method ClearSession()
      modifies this
      ensures Now() == Next(old(Now()), Op.ClearSession)
    {
      session := None;
    }

    method SetTokens(access: string, refresh: Option<string>)
      modifies this
      ensures Now() == Next(old(Now()), Op.SetTokens(TokenPair(access, refresh)))
    {
      tokens := Some(TokenPair(access, refresh));
      generation := Bump(generation);
      tokenGeneration := Bump(tokenGeneration);
    }

    method SetTokensIfGeneration(expected: u64, access: string, refresh: Option<string>) returns (ok: bool)
      modifies this
      ensures ok == Succeeds(old(Held()), SetTokensIf(expected, TokenPair(access, refresh)))
      ensures Now() == Next(old(Now()), SetTokensIf(expected, TokenPair(access, refresh)))
    {
      if tokenGeneration != expected {
        return false;
      }
      tokens := Some(TokenPair(access, refresh));
      generation := Bump(generation);
      tokenGeneration := Bump(tokenGeneration);
      return true;
    }

    method ClearTokensIfGeneration(expected: u64) returns (ok: bool)
      modifies this
      ensures ok == Succeeds(old(Held()), ClearTokensIf(expected))
      ensures Now() == Next(old(Now()), ClearTokensIf(expected))
    {
      if tokenGeneration != expected {
        return false;
      }
      tokens := None;
      generation := Bump(generation);
      tokenGeneration := Bump(tokenGeneration);
      return true;
    }

    method Snapshot() returns (c: Credentials)
      ensures c == Held()
    {
      c := Credentials(tokens, apiKey, generation, tokenGeneration, apiKeyGeneration);
    }

    /** The generation that a native handoff starts from; an error unless anonymous. */
    method AnonymousGeneration() returns (r: Result<u64>)
      ensures r == if Anonymous(Held()) then Ok(generation) else Err
    {
      if tokens.Some? || apiKey.Some? {
        return Err;
      }
      return Ok(generation);
    }

    /** Run the closure under the read lock when the fence is current; it must not call back, so
        it is a function. Without a fence it runs unconditionally, and without the lock. */
    method AdmitIfCurrent<T>(fence: Option<Fence>, admit: () -> Result<T>) returns (r: Result<T>)
      ensures r == if fence.None? || Succeeds(Held(), BeginAdmit(0, fence.value)) then admit() else Err
    {
      if fence.None? {
        return admit();
      }
      var current: bool;
      match fence.value {
        case AnyFence(g) => current := generation == g;
        case AccessToken(g, v) => current := tokenGeneration == g && tokens.Some? && tokens.value.access == v;
        case ApiKeyFence(g, v) => current := apiKeyGeneration == g && apiKey == Some(v);
        case RefreshToken(g, v) =>
          current := tokenGeneration == g && (if tokens.Some? then tokens.value.refresh else None) == Some(v);
      }
      if !current {
        return Err;
      }
      return admit();
    }

    method AdmitIfAnonymous<T>(expected: u64, admit: () -> Result<T>) returns (r: Result<T>)
      ensures r == if Succeeds(Held(), BeginAdmitAnonymous(0, expected)) then admit() else Err
    {
      if generation != expected || tokens.Some? || apiKey.Some? {
        return Err;
      }
      return admit();
    }

    method SetTokensIfAnonymousGeneration(expected: u64, access: string, refresh: string) returns (ok: bool)
      modifies this
      ensures ok == Succeeds(old(Held()), SetTokensIfAnonymous(expected, TokenPair(access, Some(refresh))))
      ensures Now() == Next(old(Now()), SetTokensIfAnonymous(expected, TokenPair(access, Some(refresh))))
    {
      if generation != expected || tokens.Some? || apiKey.Some? {
        return false;
      }
      tokens := Some(TokenPair(access, Some(refresh)));
      generation := Bump(generation);
      tokenGeneration := Bump(tokenGeneration);
      return true;
    }

    method UpdateAccessToken(access: string) returns (ok: bool)
      modifies this
      ensures ok == Succeeds(old(Held()), Op.UpdateAccessToken(access))
      ensures Now() == Next(old(Now()), Op.UpdateAccessToken(access))
    {
      if tokens.None? {
        return false;
      }
      tokens := Some(tokens.value.(access := access));
      generation := Bump(generation);
      tokenGeneration := Bump(tokenGeneration);
      return true;
    }

    method ClearTokens()
      modifies this
      ensures Now() == Next(old(Now()), Op.ClearTokens)
    {
      tokens := None;
      generation := Bump(generation);
      tokenGeneration := Bump(tokenGeneration);
    }

    /** Two critical sections; other threads may run between them. */
    method ClearAll()
      modifies this
      ensures Now() == Next(Next(old(Now()), Op.ClearSession), ClearCredentials)
    {
      ClearSession();
      tokens, apiKey := None, None;
      generation := Bump(generation);
      tokenGeneration := Bump(tokenGeneration);
      apiKeyGeneration := Bump(apiKeyGeneration);
    }

    /** Two steps under one credential lock; only session steps can run between them. */
    method ClearAllIfGeneration(expected: u64) returns (ok: bool)
      modifies this
      ensures ok == Succeeds(old(Held()), BeginClearAllIf(expected))
      ensures Now() == if ok then Next(Next(old(Now()), BeginClearAllIf(expected)), FinishClearAllIf)
                       else Next(old(Now()), BeginClearAllIf(expected))
    {
      if generation != expected {
        return false;
      }
      ClearSession();
      tokens, apiKey := None, None;
      generation := Bump(generation);
      tokenGeneration := Bump(tokenGeneration);
      apiKeyGeneration := Bump(apiKeyGeneration);
      return true;
    }
  }
}
