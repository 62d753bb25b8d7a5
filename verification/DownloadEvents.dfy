/** Classifying download responses into events, and validating events before they are stored. */
module DownloadEvents {
  import opened Collections
  import opened Strings

  datatype Product = Agent | Research
  datatype Platform = Macos | Windows | Linux | Android | All
  datatype Artifact = MacosDmg | MacosUpdater | WindowsInstaller | WindowsBundle | LinuxBundle | LinuxAppImage
                    | LinuxDeb | LinuxRpm | AndroidApk | Latest | Manifest
  datatype Kind = ArtifactKind | Alias | Metadata
  datatype Range = NoRange | Requested | Partial | Unsatisfiable
  datatype Outcome = Success | Redirect | NotModified | ClientError | ServerError
  datatype Client = Browser | Maple | Cli | Other

  datatype Route = Route(kind: Kind, version: Option<string>, platform: Platform, artifact: Artifact)

  /** A parsed URL. */
  datatype Url = Url(protocol: string, host: string, origin: string, pathname: string, search: string, hash: string,
                     username: string, password: string)

  datatype Request = Request(verb: string, url: Url, client: Client, range: bool, probe: bool)

  datatype Response = Response(status: int, location: Option<string>, contentLength: Option<string>)

  const HOSTS: set<string> := {"updates.maple.ai", "updates.trymaple.ai"}
  const MAX_RESPONSE_LENGTH := 4 * 1024 * 1024 * 1024

  // ---------------------------------------------------------------- versions

  predicate IsDigit(c: char) { '0' <= c <= '9' }

  /** A decimal number without a leading zero. */
  predicate IsNumber(s: string) {
    s != [] && (|s| == 1 || s[0] != '0') && forall i :: 0 <= i < |s| ==> IsDigit(s[i])
  }

  /** Three numbers between dots, at most 64 characters. */
  predicate StableVersion(v: string) {
    var i := IndexOf(v, '.');
    |v| <= 64 && i < |v| && IsNumber(v[..i]) &&
    var rest := v[i + 1..];
    var j := IndexOf(rest, '.');
    j < |rest| && IsNumber(rest[..j]) && IsNumber(rest[j + 1..])
  }

  // ---------------------------------------------------------------- routes

  const RELEASES := "/agent/stable/releases/"

  predicate FileChar(c: char) { 'A' <= c <= 'Z' || 'a' <= c <= 'z' || IsDigit(c) || c == '.' || c == '_' || c == '-' }

  predicate IsFileName(s: string) {
    s != [] && s[0] != '.' && s[0] != '_' && s[0] != '-' && forall i :: 0 <= i < |s| ==> FileChar(s[i])
  }

  /** The version and the file name of a release path, or nothing. */
  function ReleaseParts(path: string): Option<(string, string)> {
    if !StartsWith(path, RELEASES) then None
    else
      var rest := path[|RELEASES|..];
      var i := IndexOf(rest, '/');
      if 0 < i < |rest| then Some((rest[..i], rest[i + 1..])) else None
  }

  function Classified(version: string, platform: Platform, artifact: Artifact): Option<Route> {
    Some(Route(ArtifactKind, Some(version), platform, artifact))
  }

  function AgentArtifact(path: string): Option<Route> {
    match ReleaseParts(path)
    case None => None
    case Some((v, file)) =>
      if !IsFileName(file) || !StableVersion(v) || |file| > 200 || Contains(file, "..") then None
      else if EndsWith(file, "-windows-x86_64.tar.gz") || EndsWith(file, "-windows-aarch64.tar.gz")
      then Classified(v, Windows, WindowsBundle)
      else if EndsWith(file, "-windows-x86_64-setup.exe") || EndsWith(file, "-windows-aarch64-setup.exe")
      then Classified(v, Windows, WindowsInstaller)
      else if Contains(LowerAll(file), "windows") then None
      else if EndsWith(file, ".app.tar.gz") then Classified(v, Macos, MacosUpdater)
      else if EndsWith(file, ".dmg") then Classified(v, Macos, MacosDmg)
      else if EndsWith(file, ".AppImage") then Classified(v, Linux, LinuxAppImage)
      else if EndsWith(file, ".tar.gz") then Classified(v, Linux, LinuxBundle)
      else None
  }

  function ManifestPlatform(file: string): Option<Platform> {
    if file == "linux-manifest.json" then Some(Linux)
    else if file == "windows-manifest.json" || file == "windows-arm64-manifest.json" then Some(Windows)
    else if file == "manifest.json" then Some(Macos)
    else None
  }

  function AgentMetadata(path: string): Option<Route> {
    if path == "/agent/stable/latest.json" then Some(Route(Metadata, None, Macos, Latest))
    else if path == "/agent/stable/linux/latest.json" then Some(Route(Metadata, None, Linux, Latest))
    else if path == "/agent/stable/windows/latest.json" || path == "/agent/stable/windows-arm64/latest.json"
    then Some(Route(Metadata, None, Windows, Latest))
    else
      match ReleaseParts(path)
      case None => None
      case Some((v, file)) =>
        if StableVersion(v) && ManifestPlatform(file).Some?
        then Some(Route(Metadata, Some(v), ManifestPlatform(file).value, Manifest)) else None
  }

  function AliasOf(product: Product, name: string): Option<(Platform, Artifact)> {
    if name == "macos" then Some((Macos, MacosDmg))
    else if name == "windows" then Some((Windows, WindowsInstaller))
    else if name == "linux-appimage" then Some((Linux, LinuxAppImage))
    else if product == Agent && name == "linux" then Some((Linux, LinuxBundle))
    else if product == Agent && name == "windows-arm64" then Some((Windows, WindowsInstaller))
    else if product == Research && name == "linux-deb" then Some((Linux, LinuxDeb))
    else if product == Research && name == "linux-rpm" then Some((Linux, LinuxRpm))
    else if product == Research && name == "android" then Some((Android, AndroidApk))
    else None
  }

  const RESEARCH_RELEASE := "/MaplePrivacyLabs/Maple/releases/download/"

  /** The one file name, or the shape of name, that a Research artifact of this version has. */
  predicate ResearchFile(artifact: Artifact, v: string, file: string) {
    match artifact
    case MacosDmg => file == "Maple_" + v + "_universal.dmg"
    case WindowsInstaller => file == "Maple_" + v + "_x64-setup.exe"
    case LinuxAppImage => file == "Maple_" + v + "_amd64.AppImage"
    case LinuxDeb => file == "Maple_" + v + "_amd64.deb"
    case AndroidApk => file == "app-universal-release.apk"
    case LinuxRpm =>
      var (before, after) := ("Maple-" + v + "-", ".x86_64.rpm");
      && |before| + |after| < |file| && StartsWith(file, before) && EndsWith(file, after)
      && var release := file[|before|..|file| - |after|];
         release[0] != '0' && forall i :: 0 <= i < |release| ==> IsDigit(release[i])
    case _ => false
  }

  function ResearchVersion(location: Url, artifact: Artifact): Option<string> {
    if location.origin != "https://github.com" || !StartsWith(location.pathname, RESEARCH_RELEASE) then None
    else
      var rest := location.pathname[|RESEARCH_RELEASE|..];
      var i := IndexOf(rest, '/');
      if rest == [] || rest[0] != 'v' || i < 2 || i + 1 >= |rest| || Contains(rest[i + 1..], "/") then None
      else if StableVersion(rest[1..i]) && ResearchFile(artifact, rest[1..i], rest[i + 1..]) then Some(rest[1..i])
      else None
  }

  function AliasPrefix(product: Product): string {
    if product == Agent then "/download/agent/stable/" else "/download/research/stable/"
  }

  /** The version that an alias redirects to, when it redirects to a release of its own artifact. */
  function RedirectVersion(url: Url, location: Url, product: Product, artifact: Artifact): Option<string> {
    if location.search != "" || location.hash != "" || location.username != "" || location.password != "" then None
    else if product == Agent then
      var target := AgentArtifact(location.pathname);
      if location.origin == url.origin && target.Some? && target.value.artifact == artifact then target.value.version else None
    else ResearchVersion(location, artifact)
  }

  /** Parses a redirect target, relative to the URL of the request. */
  type Resolver = (string, Url) -> Option<Url>

  /** The route of a response, `None` for one that is not tracked, or an error when the redirect
      target does not parse. */
  function RouteFor(url: Url, response: Response, product: Product, resolve: Resolver): Result<Option<Route>> {
    var path := url.pathname;
    if (product == Agent && url.search != "") || url.hash != "" || Contains(path, "%") || Contains(path, "\\") || Contains(path, "//")
    then Ok(None)
    else if product == Research && path == "/latest.json" then Ok(Some(Route(Metadata, None, All, Latest)))
    else if product == Agent && AgentMetadata(path).Some? then Ok(AgentMetadata(path))
    else if product == Agent && AgentArtifact(path).Some? then Ok(AgentArtifact(path))
    else if !StartsWith(path, AliasPrefix(product)) then Ok(None)
    else
      match AliasOf(product, path[|AliasPrefix(product)|..])
      case None => Ok(None)
      case Some((platform, artifact)) =>
        if response.status != 302 || response.location.None? || response.location.value == "" || |response.location.value| > 512
        then Ok(Some(Route(Alias, None, platform, artifact)))
        else
          match resolve(response.location.value, url)
          case None => Err
          case Some(location) => Ok(Some(Route(Alias, RedirectVersion(url, location, product, artifact), platform, artifact)))
  }

  // ---------------------------------------------------------------- events

  datatype Event = Event(id: string, observedAt: int, product: Product, host: string, route: Route, verb: string, status: int, range: Range,
                         outcome: Outcome, length: Option<int>, client: Client, probe: bool)

  /** The request methods that are tracked. */
  const VERBS: set<string> := {"GET", "HEAD"}

  function OutcomeOf(status: int): Outcome {
    if status == 304 then NotModified
    else if status >= 500 then ServerError
    else if status >= 400 then ClientError
    else if status >= 300 then Redirect
    else Success
  }

  function RangeOf(kind: Kind, status: int, requested: bool): Range {
    if kind != ArtifactKind then NoRange
    else if status == 206 then Partial
    else if status == 416 then Unsatisfiable
    else if requested then Requested
    else NoRange
  }

  function NumberOf(s: string): nat
    requires forall i :: 0 <= i < |s| ==> IsDigit(s[i])
  {
    if s == [] then 0 else assert IsDigit(s[|s| - 1]); 10 * NumberOf(s[..|s| - 1]) + (s[|s| - 1] as int - '0' as int)
  }

  function LengthOf(header: Option<string>): Option<int> {
    if header.Some? && IsNumber(header.value) && NumberOf(header.value) <= MAX_RESPONSE_LENGTH
    then Some(NumberOf(header.value)) else None
  }

  /** The event that a tracked response yields; `id` and `now` come from the runtime. */
  function TrackResponse(request: Request, response: Response, product: Product, resolve: Resolver,
                         id: string, now: int): Option<Event> {
    if request.verb !in VERBS || request.url.protocol != "https:" || request.url.host !in HOSTS
       || request.url.username != "" || request.url.password != "" || response.status < 200 || response.status > 599
    then None
    else
      match RouteFor(request.url, response, product, resolve)
      case Ok(Some(route)) =>
        Some(Event(id, now, product, request.url.host, route, request.verb, response.status,
                   RangeOf(route.kind, response.status, request.range),
                   OutcomeOf(response.status), LengthOf(response.contentLength), request.client, request.probe))
      case _ => None
  }

  // ---------------------------------------------------------------- validation

  predicate HexIn(s: string, lo: nat, hi: nat)
    requires lo <= hi <= |s|
  {
    forall i :: lo <= i < hi ==> IsDigit(s[i]) || 'a' <= s[i] <= 'f'
  }

  /** A version 4 UUID in lower case. */
  predicate IsUuid4(s: string) {
    && |s| == 36 && s[8] == '-' && s[13] == '-' && s[18] == '-' && s[23] == '-'
    && HexIn(s, 0, 8) && HexIn(s, 9, 13) && s[14] == '4' && HexIn(s, 15, 18)
    && (s[19] == '8' || s[19] == '9' || s[19] == 'a' || s[19] == 'b') && HexIn(s, 20, 23) && HexIn(s, 24, 36)
  }

  /** The times, in milliseconds, that are written with a four-digit year. */
  predicate IsFourDigitYear(t: int) { -62_167_219_200_000 <= t <= 253_402_300_799_999 }

  predicate FitsPlatform(artifact: Artifact, platform: Platform) {
    match artifact
    case MacosDmg => platform == Macos
    case MacosUpdater => platform == Macos
    case WindowsInstaller => platform == Windows
    case WindowsBundle => platform == Windows
    case AndroidApk => platform == Android
    case Latest => platform != Android
    case Manifest => platform in {Macos, Linux, Windows}
    case _ => platform == Linux
  }

  /** The combinations of product, route and range that the ledger accepts. */
  predicate Acceptable(product: Product, route: Route, range: Range) {
    && FitsPlatform(route.artifact, route.platform)
    && if route.kind == Metadata then
         && route.artifact in {Latest, Manifest} && range == NoRange
         && (route.artifact == Latest ==> route.version.None?) && (route.artifact == Manifest ==> route.version.Some?)
         && (if product == Research then route.artifact == Latest && route.platform == All else route.platform != All)
       else
         && route.artifact !in {Latest, Manifest}
         && (route.kind == Alias ==> range == NoRange)
         && if product == Research then
              route.kind == Alias && route.artifact !in {MacosUpdater, LinuxBundle, WindowsBundle}
            else
              && route.artifact !in {LinuxDeb, LinuxRpm, AndroidApk}
              && (if route.kind == ArtifactKind then route.version.Some? else route.artifact !in {MacosUpdater, WindowsBundle})
  }

  predicate IsDownloadEvent(e: Event) {
    && IsUuid4(e.id) && IsFourDigitYear(e.observedAt) && e.host in HOSTS
    && (e.route.version.Some? ==> StableVersion(e.route.version.value))
    && e.verb in VERBS && 200 <= e.status <= 599 && e.outcome == OutcomeOf(e.status)
    && (e.length.Some? ==> 0 <= e.length.value <= MAX_RESPONSE_LENGTH)
    && Acceptable(e.product, e.route, e.range)
  }

  // ---------------------------------------------------------------- capture never builds an event that is refused

  lemma {:induction false} ArtifactRoute(path: string)
    ensures AgentArtifact(path).Some? ==>
              var r := AgentArtifact(path).value;
              && r.kind == ArtifactKind && r.version.Some? && StableVersion(r.version.value)
              && (r.platform, r.artifact) in {(Windows, WindowsBundle), (Windows, WindowsInstaller), (Macos, MacosUpdater),
                                              (Macos, MacosDmg), (Linux, LinuxAppImage), (Linux, LinuxBundle)}
  {
    hide StableVersion, Contains, EndsWith, IsFileName, ReleaseParts;
  }

  lemma {:induction false} MetadataRoute(path: string)
    ensures AgentMetadata(path).Some? ==>
              var r := AgentMetadata(path).value;
              && r.kind == Metadata && r.platform in {Macos, Linux, Windows}
              && (r.artifact == Latest || r.artifact == Manifest) && (r.artifact == Latest <==> r.version.None?)
              && (r.version.Some? ==> StableVersion(r.version.value))
  {
    hide StableVersion, ReleaseParts;
  }

  lemma {:induction false} AliasRoute(product: Product, name: string)
    ensures AliasOf(product, name).Some? ==>
              var (platform, artifact) := AliasOf(product, name).value;
              Acceptable(product, Route(Alias, None, platform, artifact), NoRange)
  {
  }

  lemma {:induction false} RedirectIsStable(url: Url, location: Url, product: Product, artifact: Artifact)
    ensures var v := RedirectVersion(url, location, product, artifact); v.Some? ==> StableVersion(v.value)
  {
    hide StableVersion, AgentArtifact, ResearchFile, Contains;
    ArtifactRoute(location.pathname);
  }

  lemma {:induction false} RouteIsAcceptable(url: Url, response: Response, product: Product, resolve: Resolver, requested: bool)
    ensures match RouteFor(url, response, product, resolve)
            case Ok(Some(r)) =>
              && Acceptable(product, r, RangeOf(r.kind, response.status, requested))
              && (r.version.Some? ==> StableVersion(r.version.value))
            case _ => true
  {
    hide StableVersion, AgentArtifact, AgentMetadata, AliasOf, RedirectVersion, Contains, StartsWith;
    var path := url.pathname;
    ArtifactRoute(path);
    MetadataRoute(path);
    match RouteFor(url, response, product, resolve)
    case Ok(Some(r)) =>
      if r.kind == Alias {
        PrefixFits(path, AliasPrefix(product));
        AliasRoute(product, path[|AliasPrefix(product)|..]);
        if response.location.Some? && resolve(response.location.value, url).Some? {
          RedirectIsStable(url, resolve(response.location.value, url).value, product, r.artifact);
        }
      }
    case _ =>
  }

  lemma {:induction false} PrefixFits(s: string, prefix: string)
    ensures StartsWith(s, prefix) ==> |prefix| <= |s|
  {
  }

  /** Every event that capture builds, for any request, response and redirect, is accepted. */
  lemma {:induction false} CaptureIsAccepted(request: Request, response: Response, product: Product, resolve: Resolver, id: string, now: int)
    requires IsUuid4(id) && IsFourDigitYear(now)
    ensures var e := TrackResponse(request, response, product, resolve, id, now); e.Some? ==> IsDownloadEvent(e.value)
  {
    hide StableVersion, RouteFor, IsUuid4, HOSTS, VERBS, OutcomeOf, IsNumber, NumberOf, Acceptable, RangeOf;
    RouteIsAcceptable(request.url, response, product, resolve, request.range);
  }
}
