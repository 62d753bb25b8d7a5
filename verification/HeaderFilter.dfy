/** Copying request and response headers across the proxy without the hop-by-hop ones. */
module HeaderFilter {
  import opened Collections
  import opened Strings

  /** One field line; names are lower-case, as in an HTTP header map. */
  datatype Header = Header(name: string, value: string)

  type Headers = seq<Header>

  function GetAll(h: Headers, name: string): seq<string> {
    if h == [] then [] else (if h[0].name == name then [h[0].value] else []) + GetAll(h[1..], name)
  }

  /** The distinct names, in the order they first appear. */
  function Names(h: Headers): (r: seq<string>)
    ensures forall n :: n in r <==> exists i :: 0 <= i < |h| && h[i].name == n
    ensures NoDuplicates(r)
  {
    if h == [] then []
    else
      var n := |h| - 1;
      var before := Names(h[..n]);
      assert forall i :: 0 <= i < n ==> h[..n][i] == h[i];
      if h[n].name in before then before else before + [h[n].name]
  }

  // ---------------------------------------------------------------- names nominated by Connection

  predicate IsBlank(c: char) { c == ' ' || c == '\t' }

  function TrimStart(s: string): string { if s != [] && IsBlank(s[0]) then TrimStart(s[1..]) else s }

  function Trim(s: string): string { TrimEnd(TrimStart(s)) }

  function TrimEnd(s: string): string { if s != [] && IsBlank(s[|s| - 1]) then TrimEnd(s[..|s| - 1]) else s }

  /** The value is text: visible ASCII, spaces and tabs. */
  predicate IsText(s: string) { forall i :: 0 <= i < |s| ==> ' ' <= s[i] <= '~' || s[i] == '\t' }

  predicate TokenChar(c: char) {
    'a' <= c <= 'z' || 'A' <= c <= 'Z' || '0' <= c <= '9' || c in "!#$%&'*+-.^_`|~"
  }

  /** A field name is a nonempty token. */
  predicate IsToken(s: string) { s != [] && forall i :: 0 <= i < |s| ==> TokenChar(s[i]) }

  /** The names that one Connection value nominates. */
  function NominatedBy(value: string): set<string> {
    if !IsText(value) then {}
    else set part | part in Split(value, ',') && IsToken(Trim(part)) :: LowerAll(Trim(part))
  }

  function Nominated(h: Headers): set<string> {
    set value, name | value in GetAll(h, "connection") && name in NominatedBy(value) :: name
  }

  // ---------------------------------------------------------------- copying

  datatype Direction = Request | Response

  predicate Unsafe(d: Direction, name: string) {
    || name in {"set-cookie", "content-length", "transfer-encoding", "connection", "keep-alive",
                "proxy-authenticate", "proxy-authorization", "te", "trailer", "upgrade"}
    || (d == Request && name in {"authorization", "cookie", "accept-encoding", "host", "forwarded", "via",
                                 "x-forwarded-for", "x-forwarded-host", "x-forwarded-proto", "x-session-id"})
  }

  predicate Passes(d: Direction, source: Headers, name: string) {
    !Unsafe(d, name) && name !in Nominated(source)
  }

  /** Each name that passes gets all its values, in order; every other name gets none. */
  method CopySafe(d: Direction, source: Headers, destination: Headers) returns (r: Headers)
    ensures forall name :: GetAll(r, name) ==
              GetAll(destination, name) + if Passes(d, source, name) then GetAll(source, name) else []
  {
    hide Passes;
    var names := Names(source);
    r := destination;
    for i := 0 to |names|
      invariant forall name :: GetAll(r, name) ==
                  GetAll(destination, name) + if name in names[..i] && Passes(d, source, name) then GetAll(source, name) else []
    {
      var was := r;
      assert names[i] !in names[..i];
      if Passes(d, source, names[i]) {
        var values := GetAll(source, names[i]);
        r := r + Lines(names[i], values);
        forall name ensures GetAll(r, name) == GetAll(was, name) + if name == names[i] then values else [] {
          GetAllConcat(was, Lines(names[i], values), name);
          GetAllLines(names[i], values, name);
        }
      }
      assert forall name :: name in names[..i + 1] <==> name in names[..i] || name == names[i];
    }
    assert names[..|names|] == names;
    forall name | name !in names ensures GetAll(source, name) == [] { GetAllAbsent(source, name); }
  }

  function Lines(name: string, values: seq<string>): Headers {
    seq(|values|, i requires 0 <= i < |values| => Header(name, values[i]))
  }

  lemma {:induction false} GetAllConcat(a: Headers, b: Headers, name: string)
    ensures GetAll(a + b, name) == GetAll(a, name) + GetAll(b, name)
  {
    if a == [] {
      assert a + b == b;
    } else {
      assert (a + b)[1..] == a[1..] + b;
      GetAllConcat(a[1..], b, name);
    }
  }

  lemma {:induction false} GetAllLines(name: string, values: seq<string>, other: string)
    ensures GetAll(Lines(name, values), other) == if other == name then values else []
  {
    if values != [] {
      assert Lines(name, values)[1..] == Lines(name, values[1..]);
      GetAllLines(name, values[1..], other);
    }
  }

  lemma {:induction false} GetAllAbsent(h: Headers, name: string)
    requires forall i :: 0 <= i < |h| ==> h[i].name != name
    ensures GetAll(h, name) == []
  {
    if h != [] { GetAllAbsent(h[1..], name); }
  }

  // ---------------------------------------------------------------- what does not cross

  /** The connection-specific fields of section 7.6.1 of RFC 9110. */
  const HOP_BY_HOP: set<string> := {"connection", "proxy-connection", "keep-alive", "te", "transfer-encoding", "upgrade"}

  /** `r` holds what `CopySafe` makes of `source` and nothing else. */
  ghost predicate CopyOf(d: Direction, source: Headers, r: Headers) {
    forall name :: GetAll(r, name) == if Passes(d, source, name) then GetAll(source, name) else []
  }

  /** A connection-specific field crosses exactly when it is an unnominated Proxy-Connection,
      and no field that Connection nominates crosses. */
  lemma {:induction false} HopByHopStays(d: Direction, source: Headers, r: Headers, name: string)
    requires CopyOf(d, source, r) && GetAll(source, name) != []
    ensures name in HOP_BY_HOP ==> (GetAll(r, name) != [] <==> name == "proxy-connection" && name !in Nominated(source))
    ensures name in Nominated(source) ==> GetAll(r, name) == []
  {
    hide Nominated, GetAll;
    assert GetAll(r, name) == if Passes(d, source, name) then GetAll(source, name) else [];
    hide CopyOf;
  }

  /** What a client says to prove who it is, or which session is its own. */
  const CREDENTIALS: set<string> := {"authorization", "proxy-authorization", "cookie", "x-session-id"}

  /** How a request came, and to whom it was sent. */
  const FORWARDING: set<string> := {"host", "forwarded", "via", "x-forwarded-for", "x-forwarded-host", "x-forwarded-proto"}

  /** How a message is framed and encoded on its connection. */
  const FRAMING: set<string> := {"connection", "keep-alive", "te", "trailer", "transfer-encoding", "upgrade", "content-length"}

  /** A field crosses exactly when it is not nominated and none of these: for a request credentials, forwarding, framing, the
      accepted encodings, and what only a response or a proxy sets; for a response framing, cookies and proxy authentication. */
  lemma {:induction false} CrossesIff(d: Direction, source: Headers, r: Headers, name: string)
    requires CopyOf(d, source, r) && GetAll(source, name) != []
    ensures GetAll(r, name) != [] <==>
            && name !in Nominated(source) && name !in FRAMING && name !in {"set-cookie", "proxy-authenticate", "proxy-authorization"}
            && (d == Request ==> name !in CREDENTIALS && name !in FORWARDING && name != "accept-encoding")
  {
    hide Nominated, GetAll;
    assert GetAll(r, name) == if Passes(d, source, name) then GetAll(source, name) else [];
    hide CopyOf;
  }

  /** A second copy changes nothing. */
  lemma {:induction false} CopyTwice(d: Direction, source: Headers, r: Headers, again: Headers, name: string)
    requires CopyOf(d, source, r) && CopyOf(d, r, again)
    ensures GetAll(again, name) == GetAll(r, name)
  {
    hide NominatedBy, GetAll;
    assert GetAll(r, "connection") == [] by { assert Unsafe(d, "connection"); }
    assert Nominated(r) == {};
    hide Unsafe, Nominated;
    assert GetAll(again, name) == if Passes(d, r, name) then GetAll(r, name) else [];
  }

  // ---------------------------------------------------------------- event streams

  /** The first Content-Type, up to a semicolon and trimmed, is text/event-stream in any case. */
  predicate IsEventStream(h: Headers) {
    var types := GetAll(h, "content-type");
    types != [] && IsText(types[0]) && LowerAll(Trim(Split(types[0], ';')[0])) == "text/event-stream"
  }

  /** The client sees an event stream exactly when the relay treated the body as one, unless Connection nominates the type. */
  lemma {:induction false} EventStreamCrosses(source: Headers, r: Headers)
    requires CopyOf(Response, source, r)
    ensures IsEventStream(r) <==> IsEventStream(source) && "content-type" !in Nominated(source)
  {
    hide Nominated, GetAll, IsText, LowerAll, Trim, Split;
    assert GetAll(r, "content-type") ==
           if Passes(Response, source, "content-type") then GetAll(source, "content-type") else [];
    assert !Unsafe(Response, "content-type");
  }
}
