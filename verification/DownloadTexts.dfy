/** Versions, identifiers, outcomes and aliases of download events, written out. */
module DownloadTexts {
  import opened Collections
  import opened Strings
  import opened DownloadEvents
  import opened DownloadRoutes

  // ---------------------------------------------------------------- versions

  /** A number is the text that is written for it. */
  lemma {:induction false} DecimalOf(s: string)
    requires IsNumber(s)
    ensures Decimal(NumberOf(s)) == s && (NumberOf(s) == 0 <==> s == "0")
  {
    var n := |s| - 1;
    assert IsDigit(s[n]);
    if n == 0 {
      assert s[..0] == [] && s == [s[0]];
    } else {
      var (q, d) := (s[..n], s[n] as int - '0' as int);
      assert IsNumber(q) && q != "0" by { assert q[0] == s[0]; }
      DecimalOf(q);
      assert s == q + [s[n]];
      hide IsNumber;
      DecimalStep(NumberOf(q), d);
    }
  }

  lemma {:induction false} DecimalStep(q: nat, d: nat)
    requires q > 0 && d < 10
    ensures Decimal(10 * q + d) == Decimal(q) + [(d + '0' as int) as char]
  {
    var n := 10 * q + d;
    assert n / 10 == q && n % 10 == d;
    hide IsNumber, NumberOf;
  }

  lemma {:induction false} DecimalHasNoDot(n: nat)
    ensures '.' !in Decimal(n) && Decimal(n) != []
  {
    var s := Decimal(n);
    assert IsNumber(s);
    assert forall i :: 0 <= i < |s| ==> IsDigit(s[i]);
  }

  function VersionText(a: nat, b: nat, c: nat): string { Decimal(a) + ['.'] + (Decimal(b) + ['.'] + Decimal(c)) }

  lemma {:induction false} FirstDot(a: string, b: string)
    requires '.' !in a
    ensures var s := a + ['.'] + b; IndexOf(s, '.') == |a| && s[..|a|] == a && s[|a| + 1..] == b
  {
    var s := a + ['.'] + b;
    assert s[|a|] == '.' && forall i :: 0 <= i < |a| ==> s[i] == a[i];
  }

  /** The stable versions are the texts of at most 64 characters that three numbers make with dots between them. */
  lemma {:induction false} VersionIff(v: string)
    ensures StableVersion(v) <==> |v| <= 64 && exists a, b, c :: v == VersionText(a, b, c)
  {
    forall a, b, c ensures StableVersion(VersionText(a, b, c)) <==> |VersionText(a, b, c)| <= 64 {
      VersionIsStable(a, b, c);
    }
    if StableVersion(v) {
      VersionOf(v);
    }
  }

  lemma {:induction false} VersionIsStable(a: nat, b: nat, c: nat)
    ensures StableVersion(VersionText(a, b, c)) <==> |VersionText(a, b, c)| <= 64
  {
    hide Decimal, IsNumber, NumberOf;
    DecimalHasNoDot(a);
    DecimalHasNoDot(b);
    FirstDot(Decimal(a), Decimal(b) + ['.'] + Decimal(c));
    FirstDot(Decimal(b), Decimal(c));
    assert IsNumber(Decimal(a)) && IsNumber(Decimal(b)) && IsNumber(Decimal(c));
  }

  lemma {:induction false} VersionOf(v: string)
    requires StableVersion(v)
    ensures exists a, b, c :: v == VersionText(a, b, c)
  {
    hide Decimal, IsNumber, NumberOf;
    var i := IndexOf(v, '.');
    var rest := v[i + 1..];
    var j := IndexOf(rest, '.');
    var (x, y, z) := (v[..i], rest[..j], rest[j + 1..]);
    assert v == x + ['.'] + (y + ['.'] + z);
    NumberIsDecimal(x);
    NumberIsDecimal(y);
    NumberIsDecimal(z);
    var a, b, c :| x == Decimal(a) && y == Decimal(b) && z == Decimal(c);
    assert v == VersionText(a, b, c);
  }

  lemma {:induction false} NumberIsDecimal(s: string)
    requires IsNumber(s)
    ensures exists n :: s == Decimal(n)
  {
    DecimalOf(s);
  }

  // ---------------------------------------------------------------- identifiers, after section 5.4 of RFC 9562

  predicate Hex(s: string) { forall i :: 0 <= i < |s| ==> s[i] in "0123456789abcdef" }

  /** The digits of a UUID, but for those of its version and variant. */
  datatype Uuid = Uuid(low: string, mid: string, high: string, variant: char, clock: string, node: string)

  predicate ValidUuid(u: Uuid) {
    && |u.low| == 8 && |u.mid| == 4 && |u.high| == 3 && |u.clock| == 3 && |u.node| == 12 && u.variant in "89ab"
    && Hex(u.low) && Hex(u.mid) && Hex(u.high) && Hex(u.clock) && Hex(u.node)
  }

  function PutUuid(u: Uuid): string
    requires ValidUuid(u)
  {
    u.low + "-" + u.mid + "-4" + u.high + "-" + [u.variant] + u.clock + "-" + u.node
  }

  lemma {:induction false} HexIs(c: char)
    ensures c in "0123456789abcdef" <==> IsDigit(c) || 'a' <= c <= 'f'
  {
  }

  lemma {:induction false} HexPart(s: string, lo: nat, hi: nat)
    requires lo <= hi <= |s|
    ensures HexIn(s, lo, hi) <==> Hex(s[lo..hi])
  {
    hide IsDigit;
    forall i | lo <= i < hi ensures s[lo..hi][i - lo] == s[i] && (s[i] in "0123456789abcdef" <==> IsDigit(s[i]) || 'a' <= s[i] <= 'f') {
      HexIs(s[i]);
    }
    if HexIn(s, lo, hi) {
      forall k | 0 <= k < hi - lo ensures s[lo..hi][k] in "0123456789abcdef" {
        assert s[lo..hi][k] == s[lo + k];
      }
    }
  }

  function UuidOf(s: string): Uuid
    requires |s| == 36
  {
    Uuid(s[0..8], s[9..13], s[15..18], s[19], s[20..23], s[24..36])
  }

  lemma {:induction false} UuidParts(u: Uuid)
    requires ValidUuid(u)
    ensures var s := PutUuid(u);
            && |s| == 36 && UuidOf(s) == u
            && s[8] == '-' && s[13] == '-' && s[14] == '4' && s[18] == '-' && s[23] == '-'
  {
  }

  lemma {:induction false} UuidRejoins(s: string)
    requires |s| == 36 && s[8] == '-' && s[13] == '-' && s[14] == '4' && s[18] == '-' && s[23] == '-' && ValidUuid(UuidOf(s))
    ensures PutUuid(UuidOf(s)) == s
  {
  }

  lemma {:induction false} UuidDigits(s: string)
    requires |s| == 36
    ensures ValidUuid(UuidOf(s)) <==>
            && HexIn(s, 0, 8) && HexIn(s, 9, 13) && HexIn(s, 15, 18) && s[19] in "89ab" && HexIn(s, 20, 23) && HexIn(s, 24, 36)
  {
    hide Hex, HexIn;
    HexPart(s, 0, 8);
    HexPart(s, 9, 13);
    HexPart(s, 15, 18);
    HexPart(s, 20, 23);
    HexPart(s, 24, 36);
  }

  /** The identifiers that are accepted are exactly the version 4 UUIDs. */
  lemma {:induction false} Uuid4Iff(s: string)
    ensures IsUuid4(s) <==> exists u :: ValidUuid(u) && s == PutUuid(u)
  {
    hide ValidUuid, PutUuid, HexIn, UuidOf;
    if IsUuid4(s) {
      UuidDigits(s);
      UuidRejoins(s);
    }
    if u :| ValidUuid(u) && s == PutUuid(u) {
      UuidParts(u);
      UuidDigits(s);
    }
  }

  // ---------------------------------------------------------------- outcomes

  /** The outcome is the class of the status, but that a redirect class holds what was not modified. */
  lemma {:induction false} OutcomeIs(status: int)
    requires 200 <= status <= 599
    ensures OutcomeOf(status) == match status / 100
      case 2 => Success
      case 3 => if status == 304 then NotModified else Redirect
      case 4 => ClientError
      case _ => ServerError
  {
  }

  // ---------------------------------------------------------------- aliases

  /** An alias is one of the names that its product has, and then it stands for the artifact of that name; the installer for
      the other Windows architecture has a name of its own. */
  lemma {:induction false} AliasIff(product: Product, name: string, artifact: Artifact)
    ensures AliasOf(product, name) == Some((PlatformOf(artifact), artifact)) <==>
            || (HasAlias(product, artifact) && name == NameOf(artifact))
            || (product == Agent && artifact == WindowsInstaller && name == "windows-arm64")
    ensures AliasOf(product, name).Some? ==> AliasOf(product, name).value.0 == PlatformOf(AliasOf(product, name).value.1)
  {
  }

  /** Where the aliases of a product are. */
  function Folder(product: Product): string { "/download/" + (if product == Agent then "agent" else "research") + "/stable/" }

  lemma {:induction false} FolderIs(product: Product)
    ensures Folder(product) == AliasPrefix(product)
  {
  }

  /** Every name in the folder of its product is routed to its artifact; without a redirect no version is known. */
  lemma {:induction false} AliasIsRouted(host: string, product: Product, artifact: Artifact, response: Response, resolve: Resolver)
    requires HasAlias(product, artifact) && response.location.None?
    ensures RouteFor(At(host, Folder(product) + NameOf(artifact)), response, product, resolve)
         == Ok(Some(Route(Alias, None, PlatformOf(artifact), artifact)))
  {
    hide RouteFor, NameOf, Folder, AliasPrefix;
    FolderIs(product);
    AliasRoutes(host, product, artifact, response, resolve);
  }
}
