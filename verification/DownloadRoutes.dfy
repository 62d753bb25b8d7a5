/** Which routes and events are accepted, against which are produced. */
module DownloadRoutes {
  import opened Collections
  import opened Strings
  import opened DownloadEvents
  import Publish

  // ---------------------------------------------------------------- what a path does not contain

  lemma {:induction false} NotWithout(s: string, part: string)
    requires part != [] && forall i :: 0 <= i < |s| ==> s[i] != part[0]
    ensures !Contains(s, part)
  {
    if s != [] {
      NotWithout(s[1..], part);
      HeadDiffers(s, part);
    }
  }

  lemma {:induction false} HeadDiffers(s: string, part: string)
    requires s != [] && part != [] && s[0] != part[0]
    ensures !StartsWith(s, part)
  {
  }

  /** No two `c` stand side by side. */
  predicate Single(s: string, c: char) { forall i :: 0 <= i < |s| - 1 ==> !(s[i] == c && s[i + 1] == c) }

  lemma {:induction false} SingleIsNotDouble(s: string, c: char)
    requires Single(s, c)
    ensures !Contains(s, [c, c])
  {
    if s != [] {
      var rest := s[1..];
      forall i | 0 <= i < |rest| - 1 ensures !(rest[i] == c && rest[i + 1] == c) {
        assert rest[i] == s[i + 1] && rest[i + 1] == s[i + 1 + 1];
      }
      SingleIsNotDouble(rest, c);
      assert |s| >= 2 ==> !(s[0] == c && s[0 + 1] == c);
    }
  }

  /** A path that the classifier looks at. */
  predicate Plain(s: string) { Single(s, '/') && forall i :: 0 <= i < |s| ==> s[i] != '%' && s[i] != '\\' }

  lemma {:induction false} PlainIsTracked(s: string)
    requires Plain(s)
    ensures !Contains(s, "%") && !Contains(s, "\\") && !Contains(s, "//")
  {
    NotWithout(s, "%");
    NotWithout(s, "\\");
    SingleIsNotDouble(s, '/');
    assert ['/', '/'] == "//";
  }

  lemma {:induction false} PlainConcat(a: string, b: string)
    requires Plain(a) && Plain(b) && (a == [] || b == [] || a[|a| - 1] != '/' || b[0] != '/')
    ensures Plain(a + b)
  {
    var s := a + b;
    forall i | 0 <= i < |s| - 1 ensures !(s[i] == '/' && s[i + 1] == '/') {
      if i + 1 < |a| {
        assert s[i] == a[i] && s[i + 1] == a[i + 1];
      } else if i >= |a| {
        assert s[i] == b[i - |a|] && s[i + 1] == b[i - |a| + 1];
      }
    }
  }

  predicate VersionChar(c: char) { IsDigit(c) || c == '.' }

  lemma {:induction false} VersionChars(v: string)
    requires StableVersion(v)
    ensures v != [] && IsDigit(v[0]) && forall i :: 0 <= i < |v| ==> VersionChar(v[i])
  {
    var i := IndexOf(v, '.');
    var rest := v[i + 1..];
    var j := IndexOf(rest, '.');
    forall k | 0 <= k < |v| ensures VersionChar(v[k]) {
      if k < i {
        assert v[k] == v[..i][k];
      } else if i < k < i + 1 + j {
        assert v[k] == rest[..j][k - i - 1];
      } else if k > i + 1 + j {
        assert v[k] == rest[j + 1..][k - i - 1 - j - 1];
      }
    }
    assert v[0] == v[..i][0];
  }

  lemma {:induction false} FirstSlash(v: string, rest: string, i: nat)
    requires i == IndexOf(v + "/" + rest, '/') && forall k :: 0 <= k < |v| ==> v[k] != '/'
    ensures i == |v|
  {
    var s := v + "/" + rest;
    assert s[|v|] == '/' && forall k :: 0 <= k < |v| ==> s[k] == v[k];
  }

  // ---------------------------------------------------------------- release paths

  function ReleasePath(v: string, file: string): string { RELEASES + (v + "/" + file) }

  lemma {:induction false} ReleasesIsPlain()
    ensures Plain(RELEASES) && |RELEASES| == 23 && RELEASES[14] == 'r' && RELEASES[22] == '/'
  {
  }

  lemma {:induction false} ReleasePathParts(v: string, file: string)
    requires StableVersion(v)
    ensures ReleaseParts(ReleasePath(v, file)) == Some((v, file))
  {
    hide StableVersion, RELEASES;
    VersionChars(v);
    var rest := v + "/" + file;
    assert ReleasePath(v, file)[|RELEASES|..] == rest;
    FirstSlash(v, file, IndexOf(rest, '/'));
    assert rest[..|v|] == v && rest[|v| + 1..] == file;
  }

  lemma {:induction false} ReleasePathIsPlain(v: string, file: string)
    requires StableVersion(v) && IsFileName(file)
    ensures Plain(ReleasePath(v, file))
  {
    hide StableVersion, RELEASES;
    VersionChars(v);
    ReleasesIsPlain();
    assert Plain(v) && Plain("/") && Plain(file);
    PlainConcat(v, "/");
    PlainConcat(v + "/", file);
    PlainConcat(RELEASES, v + "/" + file);
  }

  lemma {:induction false} ReleaseIsNotLatest(v: string, file: string)
    ensures var path := ReleasePath(v, file);
            && path != "/agent/stable/latest.json" && path != "/agent/stable/linux/latest.json"
            && path != "/agent/stable/windows/latest.json" && path != "/agent/stable/windows-arm64/latest.json"
            && path != "/latest.json"
  {
    ReleasesIsPlain();
    var path := ReleasePath(v, file);
    hide RELEASES;
    assert path[14] == 'r' && |path| >= 23;
  }

  /** A file name that the classifier takes for this artifact. */
  function FileOf(artifact: Artifact): string {
    match artifact
    case WindowsBundle => "m-windows-x86_64.tar.gz"
    case WindowsInstaller => "m-windows-x86_64-setup.exe"
    case MacosUpdater => "m.app.tar.gz"
    case MacosDmg => "m.dmg"
    case LinuxAppImage => "m.AppImage"
    case _ => "m.tar.gz"
  }

  predicate IsReleased(artifact: Artifact) {
    artifact in {WindowsBundle, WindowsInstaller, MacosUpdater, MacosDmg, LinuxAppImage, LinuxBundle}
  }

  /** The tests of a file name, in order, once it is known to be one. */
  function ByEnding(v: string, file: string): Option<Route> {
    if EndsWith(file, "-windows-x86_64.tar.gz") || EndsWith(file, "-windows-aarch64.tar.gz")
    then Classified(v, Windows, WindowsBundle)
    else if EndsWith(file, "-windows-x86_64-setup.exe") || EndsWith(file, "-windows-aarch64-setup.exe")
    then Classified(v, Windows, WindowsInstaller)
    else if Contains(LowerAll(file), "windows") then None
    else if EndsWith(file, ".app.tar.gz") then Classified(v, Macos, MacosUpdater)
    else if EndsWith(file, ".dmg") then Classified(v, Macos, MacosDmg)
    else if EndsWith(file, ".AppImage") then Classified(v, Linux, LinuxAppImage)
    else if EndsWith(file, ".tar.gz") then Classified(v, Linux, LinuxBundle)
    else None
  }

  lemma {:induction false} EndingDecides(v: string, file: string)
    requires StableVersion(v) && IsFileName(file) && |file| <= 200 && Single(file, '.')
    ensures AgentArtifact(ReleasePath(v, file)) == ByEnding(v, file)
  {
    hide StableVersion, IsFileName, EndsWith, Contains, ReleaseParts, ReleasePath, Single;
    ReleasePathParts(v, file);
    SingleIsNotDouble(file, '.');
    assert ['.', '.'] == "..";
  }

  /** A short name with neither case of `w` is no Windows file. */
  lemma {:induction false} ShortIsNotWindows(file: string)
    requires |file| <= 12 && forall i :: 0 <= i < |file| ==> file[i] != 'w' && file[i] != 'W'
    ensures !EndsWith(file, "-windows-x86_64.tar.gz") && !EndsWith(file, "-windows-aarch64.tar.gz")
    ensures !EndsWith(file, "-windows-x86_64-setup.exe") && !EndsWith(file, "-windows-aarch64-setup.exe")
    ensures !Contains(LowerAll(file), "windows")
  {
    NotWithout(LowerAll(file), "windows");
  }

  lemma {:induction false} LastDiffers(file: string, suffix: string)
    requires file != [] && suffix != [] && file[|file| - 1] != suffix[|suffix| - 1]
    ensures !EndsWith(file, suffix)
  {
  }

  lemma {:induction false} EndsBy(suffix: string)
    ensures EndsWith("m" + suffix, suffix)
  {
  }

  lemma {:induction false} BundleName()
    ensures var f := "m-windows-x86_64.tar.gz"; IsFileName(f) && Single(f, '.')
  {
  }

  lemma {:induction false} BundleFile(v: string)
    ensures var f := "m-windows-x86_64.tar.gz"; IsFileName(f) && Single(f, '.') && ByEnding(v, f) == Classified(v, Windows, WindowsBundle)
  {
    hide IsFileName, Single, EndsWith, Contains;
    BundleName();
    EndsBy("-windows-x86_64.tar.gz");
    assert "m" + "-windows-x86_64.tar.gz" == "m-windows-x86_64.tar.gz";
  }

  lemma {:induction false} InstallerName()
    ensures var f := "m-windows-x86_64-setup.exe"; IsFileName(f) && Single(f, '.')
    ensures var f := "m-windows-x86_64-setup.exe"; f != [] && f[|f| - 1] == 'e'
  {
  }

  lemma {:induction false} InstallerFile(v: string)
    ensures var f := "m-windows-x86_64-setup.exe";
            IsFileName(f) && Single(f, '.') && ByEnding(v, f) == Classified(v, Windows, WindowsInstaller)
  {
    hide IsFileName, Single, EndsWith, Contains;
    var f := "m-windows-x86_64-setup.exe";
    InstallerName();
    LastDiffers(f, "-windows-x86_64.tar.gz");
    LastDiffers(f, "-windows-aarch64.tar.gz");
    EndsBy("-windows-x86_64-setup.exe");
    assert "m" + "-windows-x86_64-setup.exe" == f;
  }

  lemma {:induction false} UpdaterFile(v: string)
    ensures var f := "m.app.tar.gz"; IsFileName(f) && Single(f, '.') && ByEnding(v, f) == Classified(v, Macos, MacosUpdater)
  {
    var f := "m.app.tar.gz";
    ShortIsNotWindows(f);
    assert f[1..] == ".app.tar.gz";
  }

  lemma {:induction false} DmgFile(v: string)
    ensures var f := "m.dmg"; IsFileName(f) && Single(f, '.') && ByEnding(v, f) == Classified(v, Macos, MacosDmg)
  {
    var f := "m.dmg";
    ShortIsNotWindows(f);
    assert f[1..] == ".dmg";
  }

  lemma {:induction false} AppImageFile(v: string)
    ensures var f := "m.AppImage"; IsFileName(f) && Single(f, '.') && ByEnding(v, f) == Classified(v, Linux, LinuxAppImage)
  {
    var f := "m.AppImage";
    ShortIsNotWindows(f);
    LastDiffers(f, ".dmg");
    assert f[1..] == ".AppImage";
  }

  lemma {:induction false} LinuxFile(v: string)
    ensures var f := "m.tar.gz"; IsFileName(f) && Single(f, '.') && ByEnding(v, f) == Classified(v, Linux, LinuxBundle)
  {
    var f := "m.tar.gz";
    ShortIsNotWindows(f);
    LastDiffers(f, ".dmg");
    assert f[1..] == ".tar.gz";
  }

  function PlatformOf(artifact: Artifact): Platform {
    match artifact
    case MacosDmg => Macos
    case MacosUpdater => Macos
    case WindowsInstaller => Windows
    case WindowsBundle => Windows
    case AndroidApk => Android
    case _ => Linux
  }

  lemma {:induction false} FileLength(artifact: Artifact)
    ensures |FileOf(artifact)| <= 200 && FileOf(artifact)[0] == 'm' && FileOf(artifact)[1] != 'a'
  {
  }

  /** Every released artifact has a path that is classified as it. */
  lemma {:induction false} ReleasedIsClassified(v: string, artifact: Artifact)
    requires StableVersion(v) && IsReleased(artifact)
    ensures var path := ReleasePath(v, FileOf(artifact));
            IsFileName(FileOf(artifact)) && AgentArtifact(path) == Classified(v, PlatformOf(artifact), artifact)
  {
    hide StableVersion, IsFileName, ByEnding, Single, AgentArtifact, ReleasePath;
    FileLength(artifact);
    match artifact {
      case WindowsBundle => BundleFile(v);
      case WindowsInstaller => InstallerFile(v);
      case MacosUpdater => UpdaterFile(v);
      case MacosDmg => DmgFile(v);
      case LinuxAppImage => AppImageFile(v);
      case LinuxBundle => LinuxFile(v);
    }
    EndingDecides(v, FileOf(artifact));
  }

  // ---------------------------------------------------------------- every acceptable route is produced

  /** A request for `path` at a host. */
  function At(host: string, path: string): Url { Url("https:", host, "https://" + host, path, "", "", "", "") }

  /** The text of an absolute URL without port, query or fragment. */
  function Text(host: string, path: string): string { "https://" + host + path }

  const GITHUB := "github.com"

  /** Letters, digits, dots, underscores, dashes and slashes, and no segment that starts with a dot. */
  predicate Segmented(s: string) {
    && (forall i :: 0 <= i < |s| ==> FileChar(s[i]) || s[i] == '/')
    && forall i :: 0 <= i < |s| - 1 ==> !(s[i] == '/' && s[i + 1] == '.')
  }

  predicate Rooted(path: string) { path != [] && path[0] == '/' && Segmented(path) }

  /** Whatever the request, the text of a plain URL at one of the hosts parses as the host and path that are written in it. */
  ghost predicate ReadsText(resolve: Resolver) {
    forall base, host, path :: host in HOSTS + {GITHUB} && Rooted(path) ==> resolve(Text(host, path), base) == Some(At(host, path))
  }

  /** With this resolver, some URL and response yield the route. */
  ghost predicate Produced(product: Product, route: Route, resolve: Resolver) {
    exists url, response :: RouteFor(url, response, product, resolve) == Ok(Some(route))
  }

  /** What else is fixed about a response: its host, status and length. */
  datatype Scene = Scene(host: string, status: int, length: Option<string>)

  ghost predicate ProducedIn(scene: Scene, product: Product, route: Route, resolve: Resolver) {
    exists path, location ::
      RouteFor(At(scene.host, path), Response(scene.status, location, scene.length), product, resolve) == Ok(Some(route))
  }

  lemma {:induction false} NotAManifest(file: string)
    requires |file| >= 2 && file[0] == 'm' && file[1] != 'a'
    ensures ManifestPlatform(file).None?
  {
  }

  lemma {:induction false} ArtifactIsProduced(scene: Scene, v: string, artifact: Artifact, resolve: Resolver)
    requires StableVersion(v) && IsReleased(artifact)
    ensures ProducedIn(scene, Agent, Route(ArtifactKind, Some(v), PlatformOf(artifact), artifact), resolve)
  {
    hide StableVersion, ReleasePath, Plain, ReleaseParts, AgentArtifact, ManifestPlatform, IsFileName, Contains;
    var file := FileOf(artifact);
    var path := ReleasePath(v, file);
    ReleasedIsClassified(v, artifact);
    ReleasePathIsPlain(v, file);
    PlainIsTracked(path);
    ReleaseIsNotLatest(v, file);
    ReleasePathParts(v, file);
    FileLength(artifact);
    hide FileOf;
    NotAManifest(file);
    assert RouteFor(At(scene.host, path), Response(scene.status, None, scene.length), Agent, resolve)
        == Ok(Some(Route(ArtifactKind, Some(v), PlatformOf(artifact), artifact)));
  }

  function ManifestOf(platform: Platform): string {
    if platform == Linux then "linux-manifest.json" else if platform == Windows then "windows-manifest.json" else "manifest.json"
  }

  lemma {:induction false} ManifestIsName(platform: Platform)
    requires platform in {Macos, Linux, Windows}
    ensures IsFileName(ManifestOf(platform)) && ManifestPlatform(ManifestOf(platform)) == Some(platform)
  {
  }

  lemma {:induction false} ManifestIsProduced(scene: Scene, v: string, platform: Platform, resolve: Resolver)
    requires StableVersion(v) && platform in {Macos, Linux, Windows}
    ensures ProducedIn(scene, Agent, Route(Metadata, Some(v), platform, Manifest), resolve)
  {
    hide StableVersion, ReleasePath, Plain, ReleaseParts, AgentArtifact, ManifestPlatform, IsFileName, Contains, ManifestOf;
    var file := ManifestOf(platform);
    var path := ReleasePath(v, file);
    ManifestIsName(platform);
    ReleasePathIsPlain(v, file);
    PlainIsTracked(path);
    ReleaseIsNotLatest(v, file);
    ReleasePathParts(v, file);
    assert RouteFor(At(scene.host, path), Response(scene.status, None, scene.length), Agent, resolve)
        == Ok(Some(Route(Metadata, Some(v), platform, Manifest)));
  }

  function LatestOf(platform: Platform): string {
    if platform == Linux then "/agent/stable/linux/latest.json"
    else if platform == Windows then "/agent/stable/windows/latest.json" else "/agent/stable/latest.json"
  }

  lemma {:induction false} LatestIsPlain(platform: Platform)
    ensures Plain(LatestOf(platform))
  {
    hide Plain;
    LatestMacosIsPlain();
    LatestLinuxIsPlain();
    LatestWindowsIsPlain();
  }

  lemma {:induction false} LatestMacosIsPlain()
    ensures Plain("/agent/stable/latest.json")
  {
  }

  lemma {:induction false} LatestLinuxIsPlain()
    ensures Plain("/agent/stable/linux/latest.json")
  {
  }

  lemma {:induction false} LatestWindowsIsPlain()
    ensures Plain("/agent/stable/windows/latest.json")
  {
  }

  lemma {:induction false} LatestIsMetadata(platform: Platform)
    requires platform in {Macos, Linux, Windows}
    ensures AgentMetadata(LatestOf(platform)) == Some(Route(Metadata, None, platform, Latest))
  {
    hide ReleaseParts, StableVersion;
  }

  lemma {:induction false} LatestIsProduced(scene: Scene, platform: Platform, resolve: Resolver)
    requires platform in {Macos, Linux, Windows}
    ensures ProducedIn(scene, Agent, Route(Metadata, None, platform, Latest), resolve)
  {
    hide Plain, AgentMetadata, AgentArtifact, Contains, LatestOf;
    LatestIsPlain(platform);
    LatestIsMetadata(platform);
    PlainIsTracked(LatestOf(platform));
    assert RouteFor(At(scene.host, LatestOf(platform)), Response(scene.status, None, scene.length), Agent, resolve)
        == Ok(Some(Route(Metadata, None, platform, Latest)));
  }

  lemma {:induction false} ResearchLatestIsProduced(scene: Scene, resolve: Resolver)
    ensures ProducedIn(scene, Research, Route(Metadata, None, All, Latest), resolve)
  {
    hide AgentMetadata, AgentArtifact, Contains;
    assert Plain("/latest.json");
    PlainIsTracked("/latest.json");
    assert RouteFor(At(scene.host, "/latest.json"), Response(scene.status, None, scene.length), Research, resolve)
        == Ok(Some(Route(Metadata, None, All, Latest)));
  }

  // ---------------------------------------------------------------- what publishing writes

  /** The platforms of the feeds, in order. */
  const PLATFORMS: seq<Platform> := [Macos, Linux, Windows, Windows]

  /** The pointer of every feed is classified as the latest version of its platform, and its manifest as the platform's manifest
      of that version. */
  lemma {:induction false} FeedsAreClassified(i: nat, v: string)
    requires i < |Publish.FEEDS| && StableVersion(v)
    ensures |PLATFORMS| == |Publish.FEEDS|
    ensures AgentMetadata("/agent/stable/" + Publish.FEEDS[i].pointer) == Some(Route(Metadata, None, PLATFORMS[i], Latest))
    ensures AgentMetadata(ReleasePath(v, Publish.FEEDS[i].envelope)) == Some(Route(Metadata, Some(v), PLATFORMS[i], Manifest))
  {
    hide StableVersion, ReleaseParts, ReleasePath;
    var feed := Publish.FEEDS[i];
    ReleaseIsNotLatest(v, feed.envelope);
    ReleasePathParts(v, feed.envelope);
    FeedPaths();
  }

  lemma {:induction false} FeedPaths()
    ensures "/agent/stable/" + "latest.json" == "/agent/stable/latest.json"
    ensures "/agent/stable/" + "linux/latest.json" == "/agent/stable/linux/latest.json"
    ensures "/agent/stable/" + "windows/latest.json" == "/agent/stable/windows/latest.json"
    ensures "/agent/stable/" + "windows-arm64/latest.json" == "/agent/stable/windows-arm64/latest.json"
  {
  }

  // ---------------------------------------------------------------- aliases

  /** A name of the alias for this artifact. */
  function NameOf(artifact: Artifact): string {
    match artifact
    case MacosDmg => "macos"
    case WindowsInstaller => "windows"
    case LinuxAppImage => "linux-appimage"
    case LinuxBundle => "linux"
    case LinuxDeb => "linux-deb"
    case LinuxRpm => "linux-rpm"
    case _ => "android"
  }

  predicate HasAlias(product: Product, artifact: Artifact) {
    || artifact in {MacosDmg, WindowsInstaller, LinuxAppImage}
    || (product == Agent && artifact == LinuxBundle)
    || (product == Research && artifact in {LinuxDeb, LinuxRpm, AndroidApk})
  }

  lemma {:induction false} AliasHasName(product: Product, artifact: Artifact)
    requires HasAlias(product, artifact)
    ensures AliasOf(product, NameOf(artifact)) == Some((PlatformOf(artifact), artifact))
  {
  }

  lemma {:induction false} NameIsPlain(artifact: Artifact)
    ensures Plain(NameOf(artifact)) && NameOf(artifact)[0] != '/'
  {
  }

  lemma {:induction false} PrefixIsPlain(product: Product)
    ensures var p := AliasPrefix(product); Plain(p) && |p| > 14 && p[1] == 'd'
  {
  }

  function AliasPath(product: Product, artifact: Artifact): string { AliasPrefix(product) + NameOf(artifact) }

  /** An alias path is plain, and nothing but an alias. */
  lemma {:induction false} AliasPathIsAlias(product: Product, artifact: Artifact)
    requires HasAlias(product, artifact)
    ensures var path := AliasPath(product, artifact);
            && Plain(path) && path != "/latest.json" && AgentMetadata(path).None? && AgentArtifact(path).None?
            && StartsWith(path, AliasPrefix(product))
            && AliasOf(product, path[|AliasPrefix(product)|..]) == Some((PlatformOf(artifact), artifact))
  {
    AliasHasName(product, artifact);
    NameIsPlain(artifact);
    PrefixIsPlain(product);
    hide NameOf, AliasPrefix, AliasOf, StableVersion;
    var path := AliasPath(product, artifact);
    PlainConcat(AliasPrefix(product), NameOf(artifact));
    assert path[1] == 'd' && path[|AliasPrefix(product)|..] == NameOf(artifact);
    NotARelease(path);
  }

  lemma {:induction false} NotARelease(path: string)
    requires |path| > 1 && path[1] == 'd'
    ensures path != "/latest.json" && AgentMetadata(path).None? && AgentArtifact(path).None?
  {
    hide StableVersion, ReleaseParts;
    OutsideReleases(path);
    SecondDiffers(path, "/latest.json");
    SecondDiffers(path, "/agent/stable/latest.json");
    SecondDiffers(path, "/agent/stable/linux/latest.json");
    SecondDiffers(path, "/agent/stable/windows/latest.json");
    SecondDiffers(path, "/agent/stable/windows-arm64/latest.json");
  }

  lemma {:induction false} SecondDiffers(a: string, b: string)
    requires |a| > 1 && |b| > 1 && a[1] != b[1]
    ensures a != b
  {
  }

  lemma {:induction false} OutsideReleases(path: string)
    requires |path| > 1 && path[1] == 'd'
    ensures ReleaseParts(path).None?
  {
    assert |RELEASES| > 1 && RELEASES[1] == 'a';
    hide RELEASES;
  }

  lemma {:induction false} AliasRoutes(host: string, product: Product, artifact: Artifact, response: Response, resolve: Resolver)
    requires HasAlias(product, artifact)
    ensures var url := At(host, AliasPath(product, artifact));
            && (response.location.None? ==>
                  RouteFor(url, response, product, resolve) == Ok(Some(Route(Alias, None, PlatformOf(artifact), artifact))))
            && (response.status == 302 && response.location.Some? && 0 < |response.location.value| <= 512 ==>
                  match resolve(response.location.value, url)
                  case None => RouteFor(url, response, product, resolve) == Err
                  case Some(to) =>
                    RouteFor(url, response, product, resolve)
                    == Ok(Some(Route(Alias, RedirectVersion(url, to, product, artifact), PlatformOf(artifact), artifact))))
  {
    hide Plain, AliasPath, AliasOf, AgentMetadata, AgentArtifact, AliasPrefix, Contains, StartsWith, RedirectVersion;
    AliasPathIsAlias(product, artifact);
    PlainIsTracked(AliasPath(product, artifact));
    PrefixFits(AliasPath(product, artifact), AliasPrefix(product));
  }

  // ---------------------------------------------------------------- aliases with a version

  /** What stands before and after the version in the name of a Research file. */
  function Before(artifact: Artifact): string { if artifact == LinuxRpm then "Maple-" else if artifact == AndroidApk then "" else "Maple_" }

  function AfterVersion(artifact: Artifact): string {
    match artifact
    case MacosDmg => "_universal.dmg"
    case WindowsInstaller => "_x64-setup.exe"
    case LinuxAppImage => "_amd64.AppImage"
    case LinuxDeb => "_amd64.deb"
    case _ => "-1.x86_64.rpm"
  }

  function ResearchName(artifact: Artifact, v: string): string {
    if artifact == AndroidApk then "app-universal-release.apk" else Before(artifact) + v + AfterVersion(artifact)
  }

  lemma {:induction false} RpmName(v: string)
    ensures ResearchFile(LinuxRpm, v, "Maple-" + v + "-1.x86_64.rpm")
  {
    var (before, after, file) := ("Maple-" + v + "-", ".x86_64.rpm", "Maple-" + v + "-1.x86_64.rpm");
    assert "-1.x86_64.rpm" == "-" + "1" + after;
    assert file == before + "1" + after;
    assert file[|file| - |after|..] == after && file[|before|..|file| - |after|] == "1";
  }

  lemma {:induction false} ResearchNameFits(artifact: Artifact, v: string)
    requires HasAlias(Research, artifact)
    ensures ResearchFile(artifact, v, ResearchName(artifact, v)) && ResearchName(artifact, v) != []
  {
    if artifact == LinuxRpm {
      RpmName(v);
    }
  }

  lemma {:induction false} PartsHaveNoSlash(artifact: Artifact)
    ensures forall i :: 0 <= i < |Before(artifact)| ==> Before(artifact)[i] != '/'
    ensures forall i :: 0 <= i < |AfterVersion(artifact)| ==> AfterVersion(artifact)[i] != '/'
  {
  }

  lemma {:induction false} ResearchNameHasNoSlash(artifact: Artifact, v: string)
    requires StableVersion(v)
    ensures !Contains(ResearchName(artifact, v), "/")
  {
    VersionChars(v);
    PartsHaveNoSlash(artifact);
    hide StableVersion, Before, AfterVersion;
    NotWithout(ResearchName(artifact, v), "/");
  }

  function ResearchPath(artifact: Artifact, v: string): string { RESEARCH_RELEASE + ("v" + v + "/" + ResearchName(artifact, v)) }

  lemma {:induction false} ResearchTargetVersion(artifact: Artifact, v: string)
    requires StableVersion(v) && HasAlias(Research, artifact)
    ensures ResearchVersion(At(GITHUB, ResearchPath(artifact, v)), artifact) == Some(v)
  {
    hide StableVersion, RESEARCH_RELEASE, ResearchName, ResearchFile, Contains;
    VersionChars(v);
    ResearchNameFits(artifact, v);
    ResearchNameHasNoSlash(artifact, v);
    TagParts(v, ResearchName(artifact, v));
    DropPrefix(RESEARCH_RELEASE, "v" + v + "/" + ResearchName(artifact, v));
  }

  lemma {:induction false} DropPrefix(a: string, b: string)
    ensures StartsWith(a + b, a) && (a + b)[|a|..] == b
  {
  }

  lemma {:induction false} TagParts(v: string, name: string)
    requires forall i :: 0 <= i < |v| ==> VersionChar(v[i])
    ensures var rest := "v" + v + "/" + name;
            && rest[0] == 'v' && IndexOf(rest, '/') == 1 + |v| && rest[1..1 + |v|] == v && rest[1 + |v| + 1..] == name
  {
    var rest := "v" + v + "/" + name;
    FirstSlash("v" + v, name, IndexOf(rest, '/'));
  }

  lemma {:induction false} AgentTargetVersion(host: string, url: Url, artifact: Artifact, v: string)
    requires StableVersion(v) && HasAlias(Agent, artifact) && url.origin == At(host, "").origin
    ensures RedirectVersion(url, At(host, ReleasePath(v, FileOf(artifact))), Agent, artifact) == Some(v)
  {
    hide StableVersion, ReleasePath, FileOf, AgentArtifact, IsFileName;
    ReleasedIsClassified(v, artifact);
  }

  // ---------------------------------------------------------------- the texts of redirect targets

  lemma {:induction false} SegmentedConcat(a: string, b: string)
    requires Segmented(a) && Segmented(b) && (a == [] || b == [] || a[|a| - 1] != '/' || b[0] != '.')
    ensures Segmented(a + b)
  {
    var s := a + b;
    forall i | 0 <= i < |s| - 1 ensures !(s[i] == '/' && s[i + 1] == '.') {
      if i + 1 < |a| {
        assert s[i] == a[i] && s[i + 1] == a[i + 1];
      } else if i >= |a| {
        assert s[i] == b[i - |a|] && s[i + 1] == b[i - |a| + 1];
      }
    }
  }

  lemma {:induction false} VersionIsSegmented(v: string)
    requires StableVersion(v)
    ensures Segmented(v) && v != [] && v[0] != '.' && |v| <= 64
  {
    VersionChars(v);
  }

  lemma {:induction false} ReleasesIsRooted()
    ensures Rooted(RELEASES) && |RELEASES| == 23
  {
  }

  predicate InAlphabet(s: string) { forall i :: 0 <= i < |s| ==> FileChar(s[i]) || s[i] == '/' }

  /** Without dots, or without slashes, no segment starts with a dot. */
  lemma {:induction false} SegmentedWithout(s: string, c: char)
    requires InAlphabet(s) && (c == '.' || c == '/') && forall i :: 0 <= i < |s| ==> s[i] != c
    ensures Segmented(s)
  {
  }

  lemma {:induction false} ResearchReleaseAlphabet()
    ensures InAlphabet(RESEARCH_RELEASE) && |RESEARCH_RELEASE| == 42
  {
  }

  lemma {:induction false} ResearchReleaseHasNoDot()
    ensures RESEARCH_RELEASE[0] == '/' && forall i :: 0 <= i < |RESEARCH_RELEASE| ==> RESEARCH_RELEASE[i] != '.'
  {
  }

  lemma {:induction false} ResearchReleaseIsRooted()
    ensures Rooted(RESEARCH_RELEASE) && |RESEARCH_RELEASE| == 42
  {
    ResearchReleaseAlphabet();
    ResearchReleaseHasNoDot();
    hide RESEARCH_RELEASE, Segmented;
    SegmentedWithout(RESEARCH_RELEASE, '.');
  }

  lemma {:induction false} ReleasePathIsRooted(v: string, file: string)
    requires StableVersion(v) && IsFileName(file)
    ensures Rooted(ReleasePath(v, file)) && |ReleasePath(v, file)| <= 88 + |file|
  {
    hide StableVersion, RELEASES;
    VersionIsSegmented(v);
    ReleasesIsRooted();
    SegmentedConcat(v, "/");
    SegmentedConcat(v + "/", file);
    SegmentedConcat(RELEASES, v + "/" + file);
  }

  lemma {:induction false} BeforeIsSegmented(artifact: Artifact)
    ensures var s := Before(artifact); Segmented(s) && |s| <= 6 && (s == [] || s[0] == 'M')
  {
  }

  lemma {:induction false} AfterAlphabet(artifact: Artifact)
    ensures var s := AfterVersion(artifact); InAlphabet(s) && 0 < |s| <= 15 && s[0] != '.'
  {
  }

  lemma {:induction false} AfterIsSegmented(artifact: Artifact)
    ensures var s := AfterVersion(artifact); Segmented(s) && 0 < |s| <= 15 && s[0] != '.'
  {
    hide AfterVersion, Segmented, InAlphabet;
    AfterAlphabet(artifact);
    PartsHaveNoSlash(artifact);
    SegmentedWithout(AfterVersion(artifact), '/');
  }

  lemma {:induction false} ApkIsSegmented()
    ensures Segmented("app-universal-release.apk")
  {
  }

  lemma {:induction false} ResearchNameIsSegmented(artifact: Artifact, v: string)
    requires StableVersion(v)
    ensures var name := ResearchName(artifact, v); Segmented(name) && name != [] && name[0] != '.' && |name| <= 85
  {
    hide StableVersion, Before, AfterVersion, Segmented;
    VersionIsSegmented(v);
    BeforeIsSegmented(artifact);
    AfterIsSegmented(artifact);
    ApkIsSegmented();
    SegmentedConcat(Before(artifact), v);
    SegmentedConcat(Before(artifact) + v, AfterVersion(artifact));
  }

  lemma {:induction false} ResearchPathIsRooted(artifact: Artifact, v: string)
    requires StableVersion(v)
    ensures Rooted(ResearchPath(artifact, v)) && |ResearchPath(artifact, v)| <= 200
  {
    hide StableVersion, RESEARCH_RELEASE, ResearchName;
    VersionIsSegmented(v);
    ResearchReleaseIsRooted();
    ResearchNameIsSegmented(artifact, v);
    SegmentedConcat("v", v);
    SegmentedConcat("v" + v, "/");
    SegmentedConcat("v" + v + "/", ResearchName(artifact, v));
    SegmentedConcat(RESEARCH_RELEASE, "v" + v + "/" + ResearchName(artifact, v));
  }

  function TargetHost(host: string, product: Product): string { if product == Agent then host else GITHUB }

  function TargetPath(product: Product, artifact: Artifact, v: string): string {
    if product == Agent then ReleasePath(v, FileOf(artifact)) else ResearchPath(artifact, v)
  }

  lemma {:induction false} HostLength(host: string)
    requires host in HOSTS + {GITHUB}
    ensures |host| <= 20
  {
  }

  /** The text of the target is short enough to be looked at, and its parts are those of a plain URL. */
  lemma {:induction false} TargetText(host: string, product: Product, artifact: Artifact, v: string)
    requires StableVersion(v) && HasAlias(product, artifact) && host in HOSTS
    ensures TargetHost(host, product) in HOSTS + {GITHUB} && Rooted(TargetPath(product, artifact, v))
    ensures 0 < |Text(TargetHost(host, product), TargetPath(product, artifact, v))| <= 512
  {
    hide StableVersion, ReleasePath, ResearchPath, IsFileName, Rooted, HOSTS, FileOf, AgentArtifact;
    if product == Agent {
      FileLength(artifact);
      ReleasedIsClassified(v, artifact);
      ReleasePathIsRooted(v, FileOf(artifact));
    } else {
      ResearchPathIsRooted(artifact, v);
    }
    HostLength(TargetHost(host, product));
  }

  lemma {:induction false} TargetVersion(host: string, url: Url, product: Product, artifact: Artifact, v: string)
    requires StableVersion(v) && HasAlias(product, artifact) && url.origin == At(host, "").origin
    ensures RedirectVersion(url, At(TargetHost(host, product), TargetPath(product, artifact, v)), product, artifact) == Some(v)
  {
    hide StableVersion, ReleasePath, FileOf, AgentArtifact, ResearchVersion, ResearchPath;
    if product == Agent {
      AgentTargetVersion(host, url, artifact, v);
    } else {
      ResearchTargetVersion(artifact, v);
    }
  }

  lemma {:induction false} AliasIsProduced(scene: Scene, product: Product, artifact: Artifact, version: Option<string>, resolve: Resolver)
    requires scene.host in HOSTS && ReadsText(resolve)
    requires HasAlias(product, artifact) && (version.Some? ==> StableVersion(version.value) && scene.status == 302)
    ensures ProducedIn(scene, product, Route(Alias, version, PlatformOf(artifact), artifact), resolve)
  {
    hide StableVersion, RouteFor, AliasPath, TargetPath, TargetHost, RedirectVersion, Rooted, HOSTS, Text;
    var url := At(scene.host, AliasPath(product, artifact));
    if version.None? {
      AliasRoutes(scene.host, product, artifact, Response(scene.status, None, scene.length), resolve);
    } else {
      var (host, path) := (TargetHost(scene.host, product), TargetPath(product, artifact, version.value));
      TargetText(scene.host, product, artifact, version.value);
      assert resolve(Text(host, path), url) == Some(At(host, path));
      AliasRoutes(scene.host, product, artifact, Response(scene.status, Some(Text(host, path)), scene.length), resolve);
      TargetVersion(scene.host, url, product, artifact, version.value);
    }
  }

  /** Cuts a text after its scheme and before its first slash. */
  function CutText(text: string, base: Url): Option<Url> {
    if !StartsWith(text, "https://") then None
    else
      var rest := text[8..];
      var i := IndexOf(rest, '/');
      Some(At(rest[..i], rest[i..]))
  }

  lemma {:induction false} HostHasNoSlash(host: string)
    requires host in HOSTS + {GITHUB}
    ensures forall i :: 0 <= i < |host| ==> host[i] != '/'
  {
  }

  /** There are such resolvers. */
  lemma {:induction false} CutTextReads()
    ensures ReadsText(CutText)
  {
    hide HOSTS, Segmented;
    forall base: Url, host, path | host in HOSTS + {GITHUB} && Rooted(path) ensures CutText(Text(host, path), base) == Some(At(host, path)) {
      HostHasNoSlash(host);
      var rest := host + path;
      assert Text(host, path)[8..] == rest;
      assert path == "/" + path[1..] && rest == host + "/" + path[1..];
      FirstSlash(host, path[1..], IndexOf(rest, '/'));
      assert rest[..|host|] == host && rest[|host|..] == path;
    }
  }

  // ---------------------------------------------------------------- routes: accepted is produced

  /** Some range makes the route acceptable, and its version, if any, is stable. */
  ghost predicate RouteAccepted(product: Product, route: Route) {
    (exists range :: Acceptable(product, route, range)) && (route.version.Some? ==> StableVersion(route.version.value))
  }

  /** An acceptable route is produced in every scene, but that an alias with a version needs a redirect. */
  lemma {:induction false} AcceptedIsProduced(scene: Scene, product: Product, route: Route, range: Range, resolve: Resolver)
    requires scene.host in HOSTS && ReadsText(resolve)
    requires Acceptable(product, route, range) && (route.version.Some? ==> StableVersion(route.version.value))
    requires route.kind == Alias && route.version.Some? ==> scene.status == 302
    ensures ProducedIn(scene, product, route, resolve)
  {
    hide StableVersion, ProducedIn, ReadsText, HOSTS;
    match route.kind
    case ArtifactKind => ArtifactIsProduced(scene, route.version.value, route.artifact, resolve);
    case Alias => AliasIsProduced(scene, product, route.artifact, route.version, resolve);
    case Metadata =>
      if product == Research {
        ResearchLatestIsProduced(scene, resolve);
      } else if route.artifact == Latest {
        LatestIsProduced(scene, route.platform, resolve);
      } else {
        ManifestIsProduced(scene, route.version.value, route.platform, resolve);
      }
  }

  /** At the level of routes, validation admits exactly what the classifier produces. */
  lemma {:induction false} RoutesDecide(product: Product, route: Route, resolve: Resolver)
    requires ReadsText(resolve)
    ensures RouteAccepted(product, route) <==> Produced(product, route, resolve)
  {
    hide StableVersion, RouteFor, Acceptable, ReadsText;
    if RouteAccepted(product, route) {
      var range :| Acceptable(product, route, range);
      AcceptedIsProduced(Scene("updates.maple.ai", 302, None), product, route, range, resolve);
    }
    if Produced(product, route, resolve) {
      var url, response :| RouteFor(url, response, product, resolve) == Ok(Some(route));
      RouteIsAcceptable(url, response, product, resolve, false);
      assert Acceptable(product, route, RangeOf(route.kind, response.status, false));
    }
  }

  // ---------------------------------------------------------------- events: accepted is wider than captured

  /** What ties the range and an alias's version to the status in every captured event. */
  predicate StatusFits(e: Event) {
    && (e.route.kind == Alias && e.route.version.Some? ==> e.status == 302)
    && (e.route.kind == ArtifactKind ==> (e.range == Partial <==> e.status == 206) && (e.range == Unsatisfiable <==> e.status == 416))
  }

  lemma {:induction false} CapturedFits(request: Request, response: Response, product: Product, resolve: Resolver, id: string, now: int)
    ensures var e := TrackResponse(request, response, product, resolve, id, now); e.Some? ==> StatusFits(e.value)
  {
    hide StableVersion, AgentArtifact, AgentMetadata, AliasOf, RedirectVersion, Contains, StartsWith, LengthOf, HOSTS, VERBS;
    ArtifactRoute(request.url.pathname);
    MetadataRoute(request.url.pathname);
    PrefixFits(request.url.pathname, AliasPrefix(product));
  }

  /** The text of a number. */
  function Decimal(n: nat): (s: string)
    ensures IsNumber(s) && NumberOf(s) == n && (n == 0 <==> s == "0") && s[0] != '-'
  {
    var d := [(n % 10 + '0' as int) as char];
    if n < 10 then assert d[..0] == []; d
    else
      var q := Decimal(n / 10);
      assert (q + d)[..|q + d| - 1] == q;
      q + d
  }

  /** With this resolver, some request and response yield the event. */
  ghost predicate Captured(e: Event, resolve: Resolver) {
    exists request, response :: TrackResponse(request, response, e.product, resolve, e.id, e.observedAt) == Some(e)
  }

  lemma {:induction false} FittingIsCaptured(e: Event, resolve: Resolver)
    requires ReadsText(resolve) && IsDownloadEvent(e) && StatusFits(e)
    ensures Captured(e, resolve)
  {
    hide StableVersion, IsUuid4, HOSTS, VERBS, RouteFor, NumberOf, IsNumber, ReadsText;
    var length := if e.length.Some? then Some(Decimal(e.length.value)) else None;
    var scene := Scene(e.host, e.status, length);
    assert LengthOf(length) == e.length;
    AcceptedIsProduced(scene, e.product, e.route, e.range, resolve);
    var path, location :|
      RouteFor(At(scene.host, path), Response(scene.status, location, scene.length), e.product, resolve) == Ok(Some(e.route));
    var request := Request(e.verb, At(e.host, path), e.client, e.range == Requested, e.probe);
    assert RangeOf(e.route.kind, e.status, e.range == Requested) == e.range;
    assert TrackResponse(request, Response(e.status, location, length), e.product, resolve, e.id, e.observedAt) == Some(e);
  }

  lemma {:induction false} CapturedIsFitting(e: Event, resolve: Resolver)
    ensures Captured(e, resolve) ==> StatusFits(e)
  {
    hide TrackResponse, StatusFits;
    if Captured(e, resolve) {
      var request, response :| TrackResponse(request, response, e.product, resolve, e.id, e.observedAt) == Some(e);
      CapturedFits(request, response, e.product, resolve, e.id, e.observedAt);
    }
  }

  /** Of the events that validation admits, exactly those are ever captured whose range, and whose alias version, fit the status. */
  lemma {:induction false} CapturedIff(e: Event, resolve: Resolver)
    requires ReadsText(resolve) && IsDownloadEvent(e)
    ensures Captured(e, resolve) <==> StatusFits(e)
  {
    hide Captured, StatusFits, IsDownloadEvent, ReadsText;
    CapturedIsFitting(e, resolve);
    if StatusFits(e) {
      FittingIsCaptured(e, resolve);
    }
  }

  /** Validation does not look at that: it admits an alias with a version and status 200, and an artifact with a partial range
      and status 200, neither of which is ever captured, whatever the resolver. */
  lemma {:induction false} AdmittedNotCaptured(e: Event, v: string, resolve: Resolver)
    requires IsDownloadEvent(e) && e.product == Agent && e.status == 200 && e.range == NoRange && StableVersion(v)
    ensures var alias := e.(route := Route(Alias, Some(v), Macos, MacosDmg)); IsDownloadEvent(alias) && !Captured(alias, resolve)
    ensures var part := e.(route := Route(ArtifactKind, Some(v), Macos, MacosDmg), range := Partial);
            IsDownloadEvent(part) && !Captured(part, resolve)
  {
    hide StableVersion, IsUuid4, HOSTS, VERBS, Captured;
    CapturedIsFitting(e.(route := Route(Alias, Some(v), Macos, MacosDmg)), resolve);
    CapturedIsFitting(e.(route := Route(ArtifactKind, Some(v), Macos, MacosDmg), range := Partial), resolve);
  }
}
