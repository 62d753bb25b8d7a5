/** Credential generations as a state machine whose steps are the critical sections. */
module CredentialRuns {
  import opened Bytes
  import opened Collections

  type u64 = x: int | 0 <= x < U64

  function Bump(g: u64): u64 { (g + 1) % U64 }

  datatype TokenPair = TokenPair(access: string, refresh: Option<string>)

  datatype Credentials = Credentials(tokens: Option<TokenPair>, apiKey: Option<string>,
                                     generation: u64, tokenGeneration: u64, apiKeyGeneration: u64)

  /** `clearing`: a conditional full clear holds the credential lock for writing, and has cleared
      the session but not yet the credentials. `admitted`: the closures that run under the lock
      held for reading. */
  datatype State = State(session: Option<string>, credentials: Credentials, clearing: bool, admitted: set<nat>)

  const EMPTY := Credentials(None, None, 0, 0, 0)

  function New(): State { State(None, EMPTY, false, {}) }

  function NewWithApiKey(key: string): State {
    State(None, EMPTY.(apiKey := Some(key), generation := 1, apiKeyGeneration := 1), false, {})
  }

  // ---------------------------------------------------------------- steps

  /** The critical sections. `clear_all` is a ClearSession and then a ClearCredentials; a
      conditional full clear is two steps as well, but holds the credential lock throughout; an
      admission holds it for reading from its comparison to the return of its closure. */
  datatype Op =
    | SetSession(id: string)
    | ClearSession
    | SetApiKey(key: string)
    | ClearApiKey
    | SetTokens(pair: TokenPair)
    | SetTokensIf(expected: u64, pair: TokenPair)
    | SetTokensIfAnonymous(expected: u64, pair: TokenPair)
    | UpdateAccessToken(access: string)
    | ClearTokens
    | ClearTokensIf(expected: u64)
    | ClearCredentials
    | BeginClearAllIf(expected: u64)
    | FinishClearAllIf
    | BeginAdmit(closure: nat, fence: Fence)
    | BeginAdmitAnonymous(closure: nat, expected: u64)
    | FinishAdmit(closure: nat)

  /** Writers exclude everyone else from the credentials, readers exclude writers, and the
      session has a lock of its own. */
  predicate Enabled(st: State, op: Op) {
    match op
    case SetSession(_) => true
    case ClearSession => true
    case BeginAdmit(closure, _) => !st.clearing && closure !in st.admitted
    case BeginAdmitAnonymous(closure, _) => !st.clearing && closure !in st.admitted
    case FinishAdmit(closure) => closure in st.admitted
    case FinishClearAllIf => st.clearing
    case _ => !st.clearing && st.admitted == {}
  }

  predicate Anonymous(c: Credentials) { c.tokens.None? && c.apiKey.None? }

  /** The operation finds the generation it expects, or expects none. */
  predicate Succeeds(c: Credentials, op: Op) {
    match op
    case SetTokensIf(expected, _) => c.tokenGeneration == expected
    case ClearTokensIf(expected) => c.tokenGeneration == expected
    case SetTokensIfAnonymous(expected, _) => c.generation == expected && Anonymous(c)
    case UpdateAccessToken(_) => c.tokens.Some?
    case BeginClearAllIf(expected) => c.generation == expected
    case BeginAdmit(_, fence) => Admits(c, Some(fence))
    case BeginAdmitAnonymous(_, expected) => c.generation == expected && Anonymous(c)
    case _ => true
  }

  function WithTokens(c: Credentials, tokens: Option<TokenPair>): Credentials {
    c.(tokens := tokens, generation := Bump(c.generation), tokenGeneration := Bump(c.tokenGeneration))
  }

  function WithApiKey(c: Credentials, key: Option<string>): Credentials {
    c.(apiKey := key, generation := Bump(c.generation), apiKeyGeneration := Bump(c.apiKeyGeneration))
  }

  /** A full clear bumps every counter once. */
  function Cleared(c: Credentials): Credentials {
    Credentials(None, None, Bump(c.generation), Bump(c.tokenGeneration), Bump(c.apiKeyGeneration))
  }

  function Next(st: State, op: Op): State {
    var c := st.credentials;
    if !Succeeds(c, op) then st
    else
      match op
      case SetSession(id) => st.(session := Some(id))
      case ClearSession => st.(session := None)
      case SetApiKey(key) => st.(credentials := WithApiKey(c, Some(key)))
      case ClearApiKey => st.(credentials := WithApiKey(c, None))
      case SetTokens(pair) => st.(credentials := WithTokens(c, Some(pair)))
      case SetTokensIf(_, pair) => st.(credentials := WithTokens(c, Some(pair)))
      case SetTokensIfAnonymous(_, pair) => st.(credentials := WithTokens(c, Some(pair)))
      case UpdateAccessToken(access) => st.(credentials := WithTokens(c, Some(c.tokens.value.(access := access))))
      case ClearTokens => st.(credentials := WithTokens(c, None))
      case ClearTokensIf(_) => st.(credentials := WithTokens(c, None))
      case ClearCredentials => st.(credentials := Cleared(c))
      case BeginClearAllIf(_) => st.(session := None, clearing := true)
      case FinishClearAllIf => st.(credentials := Cleared(c), clearing := false)
      case BeginAdmit(closure, _) => st.(admitted := st.admitted + {closure})
      case BeginAdmitAnonymous(closure, _) => st.(admitted := st.admitted + {closure})
      case FinishAdmit(closure) => st.(admitted := st.admitted - {closure})
  }

  // ---------------------------------------------------------------- runs

  /** Any interleaving of any number of threads is a sequence of enabled steps. */
  ghost predicate IsRun(st: State, ops: seq<Op>) {
    ops == [] || (IsRun(st, ops[..|ops| - 1]) && Enabled(After(st, ops[..|ops| - 1]), ops[|ops| - 1]))
  }

  function After(st: State, ops: seq<Op>): State {
    if ops == [] then st else Next(After(st, ops[..|ops| - 1]), ops[|ops| - 1])
  }

  datatype Kind = Any | Tokens | ApiKey

  function GenerationOf(c: Credentials, kind: Kind): u64 {
    match kind case Any => c.generation case Tokens => c.tokenGeneration case ApiKey => c.apiKeyGeneration
  }

  /** The step installs, replaces or removes a credential of this kind. */
  predicate Mutates(c: Credentials, op: Op, kind: Kind) {
    Succeeds(c, op) &&
    match op
    case SetApiKey(_) => kind != Tokens
    case ClearApiKey => kind != Tokens
    case SetTokens(_) => kind != ApiKey
    case SetTokensIf(_, _) => kind != ApiKey
    case SetTokensIfAnonymous(_, _) => kind != ApiKey
    case UpdateAccessToken(_) => kind != ApiKey
    case ClearTokens => kind != ApiKey
    case ClearTokensIf(_) => kind != ApiKey
    case ClearCredentials => true
    case FinishClearAllIf => true
    case _ => false
  }

  /** How many steps of the run change a credential of this kind. */
  function Mutations(st: State, ops: seq<Op>, kind: Kind): nat {
    if ops == [] then 0
    else
      var before := ops[..|ops| - 1];
      Mutations(st, before, kind) + if Mutates(After(st, before).credentials, ops[|ops| - 1], kind) then 1 else 0
  }

  /** The counters count mutations, up to wrap-around; without a mutation nothing has changed. */
  lemma {:induction false} GenerationsCount(st: State, ops: seq<Op>, kind: Kind)
    ensures var (c, d) := (st.credentials, After(st, ops).credentials);
            && GenerationOf(d, kind) == (GenerationOf(c, kind) + Mutations(st, ops, kind)) % U64
            && (Mutations(st, ops, kind) == 0 && kind != ApiKey ==> d.tokens == c.tokens)
            && (Mutations(st, ops, kind) == 0 && kind != Tokens ==> d.apiKey == c.apiKey)
  {
    hide Next, Mutates;
    if ops != [] {
      var before := ops[..|ops| - 1];
      GenerationsCount(st, before, kind);
      StepCounts(After(st, before), ops[|ops| - 1], kind);
      AddMods(GenerationOf(st.credentials, kind) + Mutations(st, before, kind), 1);
    }
  }

  lemma {:induction false} StepCounts(st: State, op: Op, kind: Kind)
    ensures var (c, d) := (st.credentials, Next(st, op).credentials);
            if Mutates(c, op, kind) then GenerationOf(d, kind) == Bump(GenerationOf(c, kind))
            else && GenerationOf(d, kind) == GenerationOf(c, kind)
                 && (kind != ApiKey ==> d.tokens == c.tokens) && (kind != Tokens ==> d.apiKey == c.apiKey)
  {
  }

  // ---------------------------------------------------------------- fences

  datatype Fence =
    | AnyFence(generation: u64)
    | AccessToken(generation: u64, value: string)
    | ApiKeyFence(generation: u64, value: string)
    | RefreshToken(generation: u64, value: string)

  function KindOf(f: Fence): Kind {
    match f case AnyFence(_) => Any case ApiKeyFence(_, _) => ApiKey case _ => Tokens
  }

  /** The request is admitted under the credential read lock. */
  predicate Admits(c: Credentials, fence: Option<Fence>) {
    match fence
    case None => true
    case Some(AnyFence(g)) => c.generation == g
    case Some(AccessToken(g, v)) => c.tokenGeneration == g && c.tokens.Some? && c.tokens.value.access == v
    case Some(ApiKeyFence(g, v)) => c.apiKeyGeneration == g && c.apiKey == Some(v)
    case Some(RefreshToken(g, v)) => c.tokenGeneration == g && c.tokens.Some? && c.tokens.value.refresh == Some(v)
  }

  /** The credential that the fence is about still has the fence's value. */
  predicate Holds(c: Credentials, f: Fence) {
    match f
    case AnyFence(_) => true
    case AccessToken(_, v) => c.tokens.Some? && c.tokens.value.access == v
    case ApiKeyFence(_, v) => c.apiKey == Some(v)
    case RefreshToken(_, v) => c.tokens.Some? && c.tokens.value.refresh == Some(v)
  }

  /** The fence carries the generation and the value that a snapshot of `c` shows. */
  predicate TakenFrom(f: Fence, c: Credentials) {
    f.generation == GenerationOf(c, KindOf(f)) && Holds(c, f)
  }

  /** In every run, of any length: a fence admits exactly when the mutations of its kind since its
      snapshot are a multiple of 2^64 and its value is held. */
  lemma {:induction false} FenceAdmitsIff(st: State, ops: seq<Op>, f: Fence)
    requires TakenFrom(f, st.credentials)
    ensures Admits(After(st, ops).credentials, Some(f)) <==>
            Mutations(st, ops, KindOf(f)) % U64 == 0 && Holds(After(st, ops).credentials, f)
  {
    hide After, Mutations, Next;
    var kind := KindOf(f);
    GenerationsCount(st, ops, kind);
    Wraps(GenerationOf(st.credentials, kind), Mutations(st, ops, kind));
  }

  /** Fewer than 2^64 mutations after its snapshot, a fence admits exactly when there was none
      of its kind: reinstalling an identical credential is rejected like any other change. */
  lemma {:induction false} FenceAdmitsUnchanged(st: State, ops: seq<Op>, f: Fence)
    requires TakenFrom(f, st.credentials) && Mutations(st, ops, KindOf(f)) < U64
    ensures Admits(After(st, ops).credentials, Some(f)) <==> Mutations(st, ops, KindOf(f)) == 0
  {
    hide After, Mutations, Next;
    FenceAdmitsIff(st, ops, f);
    GenerationsCount(st, ops, KindOf(f));
  }

  lemma {:induction false} Wraps(g: u64, n: nat)
    ensures (g + n) % U64 == g <==> n % U64 == 0
  {
    var (q, r) := (n / U64, n % U64);
    assert n == U64 * q + r;
    MultiplesVanish(g + r, q);
    if g + r >= U64 {
      assert (g + r) % U64 == g + r - U64;
    }
  }

  lemma {:induction false} MultiplesVanish(a: nat, q: nat)
    ensures (a + U64 * q) % U64 == a % U64
  {
    assert a + U64 * q == U64 * (a / U64 + q) + a % U64;
  }

  /** So after any multiple of 2^64 reinstallations of one pair its old fence admits again. */
  lemma {:induction false} FenceWrapsAround(st: State, pair: TokenPair, rounds: nat)
    requires st.credentials.tokens == Some(pair)
    ensures var (ops, f) := (Reinstall(pair, U64 * rounds), AccessToken(st.credentials.tokenGeneration, pair.access));
            && TakenFrom(f, st.credentials)
            && Mutations(st, ops, Tokens) == U64 * rounds
            && Admits(After(st, ops).credentials, Some(f))
  {
    hide After, Mutations;
    var (ops, f) := (Reinstall(pair, U64 * rounds), AccessToken(st.credentials.tokenGeneration, pair.access));
    AllMutate(st, ops, pair);
    MultiplesVanish(0, rounds);
    FenceAdmitsIff(st, ops, f);
  }

  function Reinstall(pair: TokenPair, n: nat): (ops: seq<Op>)
    ensures |ops| == n
  {
    seq(n, _ => SetTokens(pair))
  }

  lemma {:induction false} AllMutate(st: State, ops: seq<Op>, pair: TokenPair)
    requires st.credentials.tokens == Some(pair) && forall i :: 0 <= i < |ops| ==> ops[i] == SetTokens(pair)
    ensures Mutations(st, ops, Tokens) == |ops| && After(st, ops).credentials.tokens == Some(pair)
  {
    if ops != [] { AllMutate(st, ops[..|ops| - 1], pair); }
  }

  // ---------------------------------------------------------------- what a mutation leaves behind

  /** The operation installs the credential that the fence asks for. */
  predicate Offers(op: Op, f: Fence) {
    match op
    case SetTokens(pair) => IsOf(pair, f)
    case SetTokensIf(_, pair) => IsOf(pair, f)
    case SetTokensIfAnonymous(_, pair) => IsOf(pair, f)
    case UpdateAccessToken(access) => f.AccessToken? && f.value == access
    case SetApiKey(key) => f.ApiKeyFence? && f.value == key
    case _ => false
  }

  predicate IsOf(pair: TokenPair, f: Fence) {
    (f.AccessToken? && f.value == pair.access) || (f.RefreshToken? && pair.refresh == Some(f.value))
  }

  /** The step leaves in place what the fence asks for: it is new, or it is the refresh token that an access-token update keeps. */
  predicate Leaves(c: Credentials, op: Op, f: Fence) {
    Offers(op, f) || (op.UpdateAccessToken? && f.RefreshToken? && c.tokens.Some? && c.tokens.value.refresh == Some(f.value))
  }

  predicate IsClear(op: Op) {
    op.ClearApiKey? || op.ClearTokens? || op.ClearTokensIf? || op.ClearCredentials? || op.FinishClearAllIf?
  }

  /** After a successful install, update or clear, a fence with a value, taken at the new generation, admits exactly when the
      step left that value; and so it goes on over every run, until the next mutation of its kind. */
  lemma {:induction false} MutationDecides(st: State, op: Op, ops: seq<Op>, f: Fence)
    requires Mutates(st.credentials, op, KindOf(f)) && !f.AnyFence?
    requires f.generation == Bump(GenerationOf(st.credentials, KindOf(f)))
    requires Mutations(Next(st, op), ops, KindOf(f)) < U64
    ensures Admits(After(Next(st, op), ops).credentials, Some(f)) <==>
            Mutations(Next(st, op), ops, KindOf(f)) == 0 && Leaves(st.credentials, op, f)
  {
    var st' := Next(st, op);
    assert f.generation == GenerationOf(st'.credentials, KindOf(f)) && (Holds(st'.credentials, f) <==> Leaves(st.credentials, op, f));
    hide Next, Mutates, Mutations, After, Leaves;
    GenerationsCount(st', ops, KindOf(f));
    Wraps(GenerationOf(st'.credentials, KindOf(f)), Mutations(st', ops, KindOf(f)));
  }

  /** In particular no fence with a value admits after a clear of its kind. */
  lemma {:induction false} ClearAdmitsNone(st: State, op: Op, ops: seq<Op>, f: Fence)
    requires IsClear(op) && Mutates(st.credentials, op, KindOf(f)) && !f.AnyFence?
    requires Mutations(Next(st, op), ops, KindOf(f)) == 0
    ensures !Admits(After(Next(st, op), ops).credentials, Some(f))
  {
    var st' := Next(st, op);
    assert !Holds(st'.credentials, f);
    hide Next, Mutates, Mutations, After;
    GenerationsCount(st', ops, KindOf(f));
  }

  /** The session is the one that the last step about it left. */
  lemma {:induction false} SessionIsLast(st: State, ops: seq<Op>, k: nat)
    requires k < |ops| && forall i :: k < i < |ops| ==> !ops[i].SetSession? && !ops[i].ClearSession? && !ops[i].BeginClearAllIf?
    requires ops[k].BeginClearAllIf? ==> Succeeds(After(st, ops[..k]).credentials, ops[k])
    ensures ops[k].SetSession? ==> After(st, ops).session == Some(ops[k].id)
    ensures ops[k].ClearSession? || ops[k].BeginClearAllIf? ==> After(st, ops).session == None
    decreases |ops|
  {
    var n := |ops| - 1;
    if k < n {
      assert ops[..n][..k] == ops[..k];
      SessionIsLast(st, ops[..n], k);
    }
  }

  // ---------------------------------------------------------------- conditional updates

  /** What a conditional operation compares, and with which generation of the snapshot. */
  predicate ConditionalOn(op: Op, c: Credentials, kind: Kind) {
    match op
    case SetTokensIf(g, _) => kind == Tokens && g == c.tokenGeneration
    case ClearTokensIf(g) => kind == Tokens && g == c.tokenGeneration
    case SetTokensIfAnonymous(g, _) => kind == Any && g == c.generation && Anonymous(c)
    case BeginClearAllIf(g) => kind == Any && g == c.generation
    case BeginAdmitAnonymous(_, g) => kind == Any && g == c.generation && Anonymous(c)
    case _ => false
  }

  /** In every run, of any length: a conditional operation succeeds exactly when the mutations of
      its kind since its snapshot are a multiple of 2^64 and, for a handoff, nobody is signed in. */
  lemma {:induction false} ConditionalSucceedsIff(st: State, ops: seq<Op>, op: Op, kind: Kind)
    requires ConditionalOn(op, st.credentials, kind)
    ensures var now := After(st, ops).credentials;
            Succeeds(now, op) <==>
            Mutations(st, ops, kind) % U64 == 0 && (op.SetTokensIfAnonymous? || op.BeginAdmitAnonymous? ==> Anonymous(now))
  {
    hide After, Mutations, Next;
    GenerationsCount(st, ops, kind);
    Wraps(GenerationOf(st.credentials, kind), Mutations(st, ops, kind));
  }

  /** Fewer than 2^64 mutations after its snapshot, a conditional set or clear succeeds exactly when
      nothing of its kind changed, so it never overwrites a credential installed later. */
  lemma {:induction false} ConditionalNeverOverwrites(st: State, ops: seq<Op>, op: Op, kind: Kind)
    requires ConditionalOn(op, st.credentials, kind) && Mutations(st, ops, kind) < U64
    ensures var now := After(st, ops).credentials;
            && (Succeeds(now, op) <==> Mutations(st, ops, kind) == 0)
            && (Succeeds(now, op) ==> now.tokens == st.credentials.tokens)
            && (Succeeds(now, op) && kind == Any ==> now.apiKey == st.credentials.apiKey)
  {
    hide After, Mutations, Next;
    ConditionalSucceedsIff(st, ops, op, kind);
    GenerationsCount(st, ops, kind);
  }

  lemma {:induction false} AfterConcat(st: State, a: seq<Op>, b: seq<Op>)
    ensures After(st, a + b) == After(After(st, a), b)
    ensures forall kind :: Mutations(st, a + b, kind) == Mutations(st, a, kind) + Mutations(After(st, a), b, kind)
    ensures IsRun(st, a + b) ==> IsRun(st, a) && IsRun(After(st, a), b)
    decreases |b|
  {
    hide Next, Mutates;
    if b == [] {
      assert a + b == a;
    } else {
      var b' := b[..|b| - 1];
      assert (a + b)[..|a + b| - 1] == a + b';
      AfterConcat(st, a, b');
    }
  }

  lemma {:induction false} UnchangedWithoutMutation(st: State, ops: seq<Op>)
    requires Mutations(st, ops, Any) == 0
    ensures After(st, ops).credentials == st.credentials
  {
    if ops != [] { UnchangedWithoutMutation(st, ops[..|ops| - 1]); }
  }

  lemma {:induction false} HeldLockFreezes(st: State, during: seq<Op>)
    requires st.clearing && IsRun(st, during) && FinishClearAllIf !in during
    ensures After(st, during).clearing && After(st, during).credentials == st.credentials
  {
    if during != [] {
      HeldLockFreezes(st, during[..|during| - 1]);
    }
  }

  /** While a conditional full clear holds the lock no credential can change, whatever other
      threads do: when it finishes it removes exactly what its snapshot showed. */
  lemma {:induction false} FullClearNeverOverwrites(st: State, ops: seq<Op>, during: seq<Op>)
    requires var begin := BeginClearAllIf(st.credentials.generation);
             && IsRun(st, ops + [begin] + during + [FinishClearAllIf]) && FinishClearAllIf !in during
             && Mutations(st, ops, Any) < U64 && Succeeds(After(st, ops).credentials, begin)
    ensures var begin := BeginClearAllIf(st.credentials.generation);
            && After(st, ops + [begin] + during).credentials == st.credentials
            && After(st, ops + [begin] + during + [FinishClearAllIf]).credentials == Cleared(st.credentials)
  {
    hide Mutations, IsRun;
    var begin := BeginClearAllIf(st.credentials.generation);
    var held := Next(After(st, ops), begin);
    AfterConcat(st, ops + [begin] + during, [FinishClearAllIf]);
    AfterConcat(st, ops + [begin], during);
    AfterConcat(st, ops, [begin]);
    OneStep(After(st, ops), begin);
    OneStep(After(st, ops + [begin] + during), FinishClearAllIf);
    HeldLockFreezes(held, during);
    ConditionalNeverOverwrites(st, ops, begin, Any);
    UnchangedWithoutMutation(st, ops);
  }

  lemma {:induction false} OneStep(st: State, op: Op)
    ensures After(st, [op]) == Next(st, op)
  {
    hide Next;
    assert [op][..0] == [];
    assert After(st, []) == st;
  }

  // ---------------------------------------------------------------- admitted closures

  /** While a closure runs under the read lock, no interleaving changes a credential. */
  lemma {:induction false} ReadLockFreezes(st: State, during: seq<Op>, closure: nat)
    requires closure in st.admitted && !st.clearing && IsRun(st, during) && FinishAdmit(closure) !in during
    ensures After(st, during).credentials == st.credentials
    ensures closure in After(st, during).admitted && !After(st, during).clearing
  {
    if during != [] {
      ReadLockFreezes(st, during[..|during| - 1], closure);
    }
  }

  /** From its snapshot until its closure returns, an admitted request has one credential: the one
      whose fence it carries, with no mutation of its kind before the admission and none at all
      while the closure runs. */
  lemma {:induction false} AdmittedRunsOnItsSnapshot(st: State, ops: seq<Op>, closure: nat, f: Fence, during: seq<Op>)
    requires var begin := BeginAdmit(closure, f);
             && TakenFrom(f, st.credentials) && Mutations(st, ops, KindOf(f)) < U64
             && IsRun(st, ops + [begin] + during) && FinishAdmit(closure) !in during
             && Succeeds(After(st, ops).credentials, begin)
    ensures Mutations(st, ops, KindOf(f)) == 0
    ensures After(st, ops + [BeginAdmit(closure, f)] + during).credentials == After(st, ops).credentials
    ensures Admits(After(st, ops + [BeginAdmit(closure, f)] + during).credentials, Some(f))
  {
    hide Mutations, IsRun;
    var begin := BeginAdmit(closure, f);
    FenceAdmitsUnchanged(st, ops, f);
    AfterConcat(st, ops + [begin], during);
    AfterConcat(st, ops, [begin]);
    OneStep(After(st, ops), begin);
    RunEnables(After(st, ops), begin);
    ReadLockFreezes(Next(After(st, ops), begin), during, closure);
  }

  lemma {:induction false} RunEnables(st: State, op: Op)
    ensures IsRun(st, [op]) <==> Enabled(st, op)
  {
    hide Enabled;
    assert [op][..0] == [];
    assert IsRun(st, []);
  }

  // ---------------------------------------------------------------- locks are released

  /** Nobody holds the credential lock. */
  predicate Free(st: State) { !st.clearing && st.admitted == {} }

  /** Then every step can be taken but the end of one that has not begun. */
  lemma {:induction false} FreeIsOpen(st: State, op: Op)
    requires Free(st)
    ensures Enabled(st, op) <==> !op.FinishClearAllIf? && !op.FinishAdmit?
  {
  }

  lemma {:induction false} OneHolder(st: State, ops: seq<Op>)
    requires Free(st) && IsRun(st, ops)
    ensures After(st, ops).clearing ==> After(st, ops).admitted == {}
  {
    if ops != [] { OneHolder(st, ops[..|ops| - 1]); }
  }

  lemma {:induction false} RunFirst(st: State, op: Op, rest: seq<Op>)
    requires Enabled(st, op) && IsRun(Next(st, op), rest)
    ensures IsRun(st, [op] + rest) && After(st, [op] + rest) == After(Next(st, op), rest)
    decreases |rest|
  {
    hide Enabled, Next;
    if rest == [] {
      assert [op] + rest == [op];
      RunEnables(st, op);
      OneStep(st, op);
    } else {
      var before := rest[..|rest| - 1];
      assert ([op] + rest)[..|rest|] == [op] + before;
      RunFirst(st, op, before);
    }
  }

  /** The operations end what holds the lock. */
  ghost predicate Releases(ops: seq<Op>) { forall i :: 0 <= i < |ops| ==> ops[i].FinishClearAllIf? || ops[i].FinishAdmit? }

  lemma {:induction false} ReadersLeave(st: State)
    requires !st.clearing
    ensures exists more :: Releases(more) && IsRun(st, more) && Free(After(st, more))
    decreases |st.admitted|
  {
    hide IsRun, After;
    if st.admitted == {} {
      NoRun(st);
      assert Releases([]) && IsRun(st, []) && Free(After(st, []));
    } else {
      var closure :| closure in st.admitted;
      var left := Next(st, FinishAdmit(closure));
      assert left.admitted == st.admitted - {closure} && !left.clearing;
      ReadersLeave(left);
      var more :| Releases(more) && IsRun(left, more) && Free(After(left, more));
      RunFirst(st, FinishAdmit(closure), more);
      assert Releases([FinishAdmit(closure)] + more);
    }
  }

  lemma {:induction false} NoRun(st: State)
    ensures IsRun(st, []) && After(st, []) == st
  {
  }

  /** No run deadlocks: wherever it stands, ending what has begun frees the lock, and then every operation can be taken. */
  lemma {:induction false} LocksAreReleased(st: State, ops: seq<Op>)
    requires Free(st) && IsRun(st, ops)
    ensures exists more :: Releases(more) && IsRun(After(st, ops), more) && Free(After(After(st, ops), more))
  {
    var now := After(st, ops);
    OneHolder(st, ops);
    hide IsRun, After;
    if now.clearing {
      var done := Next(now, FinishClearAllIf);
      NoRun(done);
      RunFirst(now, FinishClearAllIf, []);
      assert Releases([FinishClearAllIf] + []) && Free(done);
    } else {
      ReadersLeave(now);
    }
  }

  // ---------------------------------------------------------------- who is signed in

  /** Nobody is signed in exactly when no fence with a value admits. */
  lemma {:induction false} AnonymousMeans(c: Credentials)
    ensures Anonymous(c) <==> forall f: Fence :: !f.AnyFence? ==> !Admits(c, Some(f))
  {
    if c.tokens.Some? {
      var f := AccessToken(c.tokenGeneration, c.tokens.value.access);
      assert Admits(c, Some(f)) && !f.AnyFence?;
    } else if c.apiKey.Some? {
      var f := ApiKeyFence(c.apiKeyGeneration, c.apiKey.value);
      assert Admits(c, Some(f)) && !f.AnyFence?;
    }
  }

  /** A new manager holds no lock and no session; it is anonymous, or admits exactly its key, at generation 1. */
  lemma {:induction false} NewAdmits(key: string, f: Fence)
    ensures Free(New()) && New().session.None? && Anonymous(New().credentials)
    ensures var st := NewWithApiKey(key);
            && Free(st) && st.session.None?
            && (!f.AnyFence? ==> (Admits(st.credentials, Some(f)) <==> f == ApiKeyFence(1, key)))
  {
  }

  // ---------------------------------------------------------------- handoffs

  /** In every run, of any length: a second native handoff that expects a redeemed generation
      succeeds exactly when the mutations since, the first one included, are a multiple of 2^64 and
      nobody is signed in. */
  lemma {:induction false} HandoffAgainIff(st: State, ops: seq<Op>, g: u64, pair: TokenPair, again: TokenPair)
    requires Succeeds(st.credentials, SetTokensIfAnonymous(g, pair))
    ensures var installed := Next(st, SetTokensIfAnonymous(g, pair));
            var now := After(installed, ops).credentials;
            Succeeds(now, SetTokensIfAnonymous(g, again)) <==>
            (Mutations(installed, ops, Any) + 1) % U64 == 0 && Anonymous(now)
  {
    var installed := Next(st, SetTokensIfAnonymous(g, pair));
    GenerationsCount(installed, ops, Any);
    hide After, Mutations;
    Wraps(g, Mutations(installed, ops, Any) + 1);
    AddMods(g + 1, Mutations(installed, ops, Any));
  }

  /** So fewer than 2^64 mutations apart, one anonymous generation is redeemed at most once. */
  lemma {:induction false} HandoffAtMostOnce(st: State, ops: seq<Op>, g: u64, pair: TokenPair, again: TokenPair)
    requires Succeeds(st.credentials, SetTokensIfAnonymous(g, pair))
    requires var installed := Next(st, SetTokensIfAnonymous(g, pair)); Mutations(installed, ops, Any) < U64 - 1
    ensures var installed := Next(st, SetTokensIfAnonymous(g, pair));
            !Succeeds(After(installed, ops).credentials, SetTokensIfAnonymous(g, again))
  {
    hide After, Mutations, Next, Succeeds;
    HandoffAgainIff(st, ops, g, pair, again);
  }

  lemma {:induction false} AddMods(a: nat, n: nat)
    ensures (a % U64 + n) % U64 == (a + n) % U64
  {
  }

  // ---------------------------------------------------------------- conservation

  predicate FullClear(op: Op) { op.ClearCredentials? || op.FinishClearAllIf? }

  function FullClears(ops: seq<Op>): nat {
    if ops == [] then 0 else FullClears(ops[..|ops| - 1]) + if FullClear(ops[|ops| - 1]) then 1 else 0
  }

  ghost predicate Balanced(c: Credentials, clears: nat) {
    (c.generation + clears) % U64 == (c.tokenGeneration + c.apiKeyGeneration) % U64
  }

  /** In every run from a new manager, the generation and the full clears together count the
      token and API-key mutations. */
  lemma {:induction false} GenerationsBalance(st: State, ops: seq<Op>)
    requires Balanced(st.credentials, 0)
    ensures Balanced(After(st, ops).credentials, FullClears(ops))
  {
    hide Next;
    if ops != [] {
      var before := ops[..|ops| - 1];
      GenerationsBalance(st, before);
      StepBalances(After(st, before), ops[|ops| - 1], FullClears(before));
    }
  }

  lemma {:induction false} NewIsBalanced(key: string)
    ensures Balanced(New().credentials, 0) && Balanced(NewWithApiKey(key).credentials, 0)
  {
  }

  lemma {:induction false} StepBalances(st: State, op: Op, clears: nat)
    requires Balanced(st.credentials, clears)
    ensures Balanced(Next(st, op).credentials, clears + if FullClear(op) then 1 else 0)
  {
    var c := st.credentials;
    BumpBoth(c.generation, clears, c.tokenGeneration, c.apiKeyGeneration);
  }

  lemma {:induction false} BumpBoth(g: u64, clears: nat, t: u64, a: u64)
    requires (g + clears) % U64 == (t + a) % U64
    ensures (Bump(g) + clears) % U64 == (Bump(t) + a) % U64
    ensures (Bump(g) + clears) % U64 == (t + Bump(a)) % U64
    ensures (Bump(g) + clears + 1) % U64 == (Bump(t) + Bump(a)) % U64
  {
    hide Bump;
    BumpAdds(g, clears);
    BumpAdds(t, a);
    BumpAdds(a, t);
    Successor(g + clears, t + a);
    BumpAdds(t, Bump(a));
    Successor(Bump(g) + clears, t + Bump(a));
  }

  lemma {:induction false} BumpAdds(x: u64, y: nat)
    ensures (Bump(x) + y) % U64 == (x + y + 1) % U64
  {
    AddMods(x + 1, y);
  }

  lemma {:induction false} Successor(x: nat, y: nat)
    requires x % U64 == y % U64
    ensures (x + 1) % U64 == (y + 1) % U64
  {
    AddMods(x, 1);
    AddMods(y, 1);
  }
}
