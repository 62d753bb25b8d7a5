/** The certificate chain of an attestation document, checked on two clients' clocks. */
module AttestationClock {
  import opened Collections

  /** Seconds since 1970, possibly negative. */
  datatype Validity = Validity(notBefore: int, notAfter: int)

  const LEEWAY_MS := 5 * 60 * 1000
  const U64_MAX := 0xFFFF_FFFF_FFFF_FFFF
  const I64_MAX := 0x7FFF_FFFF_FFFF_FFFF

  datatype Outcome = Valid | ClockOutOfRange | Unparsed(index: nat) | NotYetValid(index: nat) | Expired(index: nat)

  // ---------------------------------------------------------------- the native check, in whole seconds

  predicate HoldsAtSecond(v: Validity, now: int) { v.notBefore <= now + LEEWAY_MS / 1000 && now <= v.notAfter }

  predicate Holds(cert: Option<Validity>, now: int) { cert.Some? && HoldsAtSecond(cert.value, now) }

  ghost predicate NativeAccepts(chain: seq<Option<Validity>>, nowMs: nat) {
    forall i :: 0 <= i < |chain| ==> Holds(chain[i], nowMs / 1000)
  }

  /** What is wrong with a certificate that does not hold. */
  function Failure(cert: Option<Validity>, now: int, i: nat): Outcome {
    if cert.None? then Unparsed(i) else if now > cert.value.notAfter then Expired(i) else NotYetValid(i)
  }

  /** The reason says what is the matter: five minutes are granted at the start and none at the end, and an end that has
      passed is reported before a start that has not come. */
  lemma {:induction false} FailureSaysWhy(cert: Option<Validity>, now: int, i: nat)
    requires !Holds(cert, now)
    ensures Failure(cert, now, i) == Unparsed(i) <==> cert.None?
    ensures Failure(cert, now, i) == Expired(i) <==> cert.Some? && cert.value.notAfter < now
    ensures Failure(cert, now, i) == NotYetValid(i) <==> cert.Some? && now <= cert.value.notAfter && now + 300 < cert.value.notBefore
  {
  }

  /** Accepted exactly when every certificate holds; otherwise the first that does not is reported, and why. */
  method VerifyValidity(chain: seq<Option<Validity>>, nowMs: nat) returns (r: Outcome)
    requires nowMs <= U64_MAX
    ensures r == Valid <==> NativeAccepts(chain, nowMs)
    ensures r != Valid ==>
              exists i :: 0 <= i < |chain| && !Holds(chain[i], nowMs / 1000) && r == Failure(chain[i], nowMs / 1000, i)
                          && NativeAccepts(chain[..i], nowMs)
  {
    var now := nowMs / 1000;
    if now > I64_MAX {
      return ClockOutOfRange;
    }
    var leeway := LEEWAY_MS / 1000;
    for i := 0 to |chain|
      invariant forall j :: 0 <= j < i ==> Holds(chain[j], now)
    {
      if chain[i].None? {
        assert !Holds(chain[i], now);
        return Unparsed(i);
      }
      var v := chain[i].value;
      var notYetValid := now + leeway < v.notBefore;
      var expired := now > v.notAfter;
      if notYetValid || expired {
        assert !Holds(chain[i], now);
        return if expired then Expired(i) else NotYetValid(i);
      }
    }
    return Valid;
  }

  // ---------------------------------------------------------------- the web check, in milliseconds

  predicate IsValidAtDeviceTime(notBeforeMs: int, notAfterMs: int, time: int) {
    notBeforeMs - LEEWAY_MS <= time && time <= notAfterMs
  }

  /** The same chain, each certificate's dates in milliseconds. */
  ghost predicate WebAccepts(chain: seq<Option<Validity>>, time: int) {
    forall i :: 0 <= i < |chain| ==>
      chain[i].Some? && IsValidAtDeviceTime(chain[i].value.notBefore * 1000, chain[i].value.notAfter * 1000, time)
  }

  // ---------------------------------------------------------------- one interval

  ghost predicate Parsed(chain: seq<Option<Validity>>) { forall i :: 0 <= i < |chain| ==> chain[i].Some? }

  function LatestStart(chain: seq<Option<Validity>>): (t: int)
    requires chain != [] && Parsed(chain)
    ensures forall i :: 0 <= i < |chain| ==> chain[i].value.notBefore <= t
    ensures exists i :: 0 <= i < |chain| && chain[i].value.notBefore == t
  {
    var last := chain[|chain| - 1].value.notBefore;
    if |chain| == 1 then last
    else var t := LatestStart(chain[..|chain| - 1]); if t < last then last else t
  }

  function EarliestEnd(chain: seq<Option<Validity>>): (t: int)
    requires chain != [] && Parsed(chain)
    ensures forall i :: 0 <= i < |chain| ==> t <= chain[i].value.notAfter
    ensures exists i :: 0 <= i < |chain| && chain[i].value.notAfter == t
  {
    var last := chain[|chain| - 1].value.notAfter;
    if |chain| == 1 then last
    else var t := EarliestEnd(chain[..|chain| - 1]); if last < t then last else t
  }

  /** The accepted device times: five minutes before the latest start to the end of the second the first certificate ends in. */
  lemma {:induction false} NativeInterval(chain: seq<Option<Validity>>, nowMs: nat)
    requires chain != [] && Parsed(chain)
    ensures NativeAccepts(chain, nowMs)
       <==> (LatestStart(chain) - 300) * 1000 <= nowMs <= EarliestEnd(chain) * 1000 + 999
  {
    hide LatestStart, EarliestEnd;
    var (from, to) := (LatestStart(chain), EarliestEnd(chain));
    if NativeAccepts(chain, nowMs) {
      var i :| 0 <= i < |chain| && chain[i].value.notBefore == from;
      var j :| 0 <= j < |chain| && chain[j].value.notAfter == to;
      assert Holds(chain[i], nowMs / 1000) && Holds(chain[j], nowMs / 1000);
    }
  }

  lemma {:induction false} WebInterval(chain: seq<Option<Validity>>, time: int)
    requires chain != [] && Parsed(chain)
    ensures WebAccepts(chain, time) <==> (LatestStart(chain) - 300) * 1000 <= time <= EarliestEnd(chain) * 1000
  {
    hide LatestStart, EarliestEnd;
    var (from, to) := (LatestStart(chain), EarliestEnd(chain));
    if WebAccepts(chain, time) {
      var i :| 0 <= i < |chain| && chain[i].value.notBefore == from;
      var j :| 0 <= j < |chain| && chain[j].value.notAfter == to;
      assert IsValidAtDeviceTime(chain[i].value.notBefore * 1000, chain[i].value.notAfter * 1000, time);
      assert IsValidAtDeviceTime(chain[j].value.notBefore * 1000, chain[j].value.notAfter * 1000, time);
    }
  }

  // ---------------------------------------------------------------- the two clients compared

  /** The native check is the web check at the start of the second. */
  lemma {:induction false} NativeIsWebAtSecond(chain: seq<Option<Validity>>, nowMs: nat)
    ensures NativeAccepts(chain, nowMs) <==> WebAccepts(chain, nowMs - nowMs % 1000)
  {
    var (now, floor) := (nowMs / 1000, nowMs - nowMs % 1000);
    assert floor == now * 1000;
    forall i | 0 <= i < |chain| && chain[i].Some?
      ensures Holds(chain[i], now) <==> IsValidAtDeviceTime(chain[i].value.notBefore * 1000, chain[i].value.notAfter * 1000, floor)
    {
    }
  }

  /** They differ only in the milliseconds after the whole second in which the first certificate ends. */
  lemma {:induction false} WebIsStricter(chain: seq<Option<Validity>>, nowMs: nat)
    requires chain != [] && Parsed(chain)
    ensures WebAccepts(chain, nowMs) ==> NativeAccepts(chain, nowMs)
    ensures nowMs % 1000 == 0 ==> (WebAccepts(chain, nowMs) <==> NativeAccepts(chain, nowMs))
    ensures NativeAccepts(chain, nowMs) && !WebAccepts(chain, nowMs)
       <==> NativeAccepts(chain, nowMs) && nowMs / 1000 == EarliestEnd(chain) && nowMs % 1000 > 0
  {
    hide NativeAccepts, WebAccepts, LatestStart, EarliestEnd;
    NativeInterval(chain, nowMs);
    WebInterval(chain, nowMs);
  }

  // ---------------------------------------------------------------- the chain of signatures

  datatype Cert = Cert(subject: string, issuer: string)

  /** How certificates are parsed and how signatures are checked is given; a check may itself fail. */
  datatype Trust<!Der> = Trust(root: Der, parse: Der -> Option<Cert>, signed: (Der, Cert) -> Result<bool>)

  ghost predicate Link<Der>(trust: Trust<Der>, above: Der, below: Der) {
    && trust.parse(above).Some? && trust.parse(below).Some?
    && trust.parse(below).value.issuer == trust.parse(above).value.subject
    && trust.signed(below, trust.parse(above).value) == Ok(true)
  }

  /** The certificate below names the one above as its issuer. */
  ghost predicate Issued<Der>(trust: Trust<Der>, above: Der, below: Der) {
    match (trust.parse(above), trust.parse(below))
    case (Some(a), Some(b)) => b.issuer == a.subject
    case _ => false
  }

  /** And carries its signature. */
  ghost predicate Verified<Der>(trust: Trust<Der>, above: Der, below: Der) {
    match trust.parse(above)
    case Some(a) => trust.signed(below, a) == Ok(true)
    case None => false
  }

  /** From the pinned root down, each certificate is issued and signed by the one before it. */
  ghost predicate Trusted<Der>(trust: Trust<Der>, bundle: seq<Der>, leaf: Der) {
    && bundle != [] && bundle[0] == trust.root
    && (forall i :: 1 <= i < |bundle| ==> Link(trust, bundle[i - 1], bundle[i]))
    && Link(trust, bundle[|bundle| - 1], leaf)
  }

  method VerifyChain<Der(==)>(trust: Trust<Der>, bundle: seq<Der>, leaf: Der) returns (ok: bool)
    ensures ok <==> Trusted(trust, bundle, leaf)
  {
    if bundle == [] {
      return false;
    }
    if bundle[0] != trust.root {
      return false;
    }
    var certs: seq<Cert> := [];
    for i := 0 to |bundle|
      invariant |certs| == i && forall j :: 0 <= j < i ==> trust.parse(bundle[j]) == Some(certs[j])
    {
      var cert := trust.parse(bundle[i]);
      if cert.None? {
        assert i > 0 ==> !Link(trust, bundle[i - 1], bundle[i]);
        assert i == |bundle| - 1 ==> !Link(trust, bundle[i], leaf);
        assert i < |bundle| - 1 ==> !Link(trust, bundle[i + 1 - 1], bundle[i + 1]);
        return false;
      }
      certs := certs + [cert.value];
    }
    var leafCert := trust.parse(leaf);
    if leafCert.None? {
      return false;
    }
    for i := 1 to |certs|
      invariant forall j :: 1 <= j < i ==> Link(trust, bundle[j - 1], bundle[j])
    {
      if certs[i].issuer != certs[i - 1].subject {
        assert !Link(trust, bundle[i - 1], bundle[i]);
        return false;
      }
      if trust.signed(bundle[i], certs[i - 1]) != Ok(true) {
        assert !Link(trust, bundle[i - 1], bundle[i]);
        return false;
      }
    }
    var last := certs[|certs| - 1];
    return leafCert.value.issuer == last.subject && trust.signed(leaf, last) == Ok(true);
  }

  /** Whatever holds of the root and passes from each signer to what it issued and signed, holds of the leaf. */
  lemma {:induction false} LeafInheritsTrust<Der(!new)>(trust: Trust<Der>, bundle: seq<Der>, leaf: Der, good: Der -> bool)
    requires Trusted(trust, bundle, leaf) && good(trust.root)
    requires forall above, below :: good(above) && Issued(trust, above, below) && Verified(trust, above, below) ==> good(below)
    ensures good(leaf)
    decreases |bundle|
  {
    var last := bundle[|bundle| - 1];
    if |bundle| > 1 {
      var shorter := bundle[..|bundle| - 1];
      assert Link(trust, bundle[|bundle| - 1 - 1], bundle[|bundle| - 1]);
      assert Trusted(trust, shorter, last);
      LeafInheritsTrust(trust, shorter, last, good);
    }
  }
}
