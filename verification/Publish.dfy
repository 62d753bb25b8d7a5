/** Publishing an update as a sequence of uploads into a store, any of which may be the last one before a crash. */
module Publish {
  import opened Collections
  import opened Strings

  /** A version's place in the release order. */
  type Version = nat

  datatype File = File(name: string, digest: string)

  /** What a signed manifest says about one payload. */
  datatype Record = Record(name: string, digest: string)

  /** A signed manifest. Its two records name payloads under the release path of its version. */
  datatype Envelope = Envelope(version: Version, records: seq<Record>)

  /** `stable/releases/<version>/<name>` or `stable/<pointer>`. */
  datatype Key = Release(version: Version, name: string) | Pointer(path: string)

  datatype Content = Blob(digest: string) | Signed(envelope: Envelope)

  type Store = map<Key, Content>

  // ---------------------------------------------------------------- feeds

  datatype Feed = Feed(envelope: string, pointer: string, suffix: string, download: string)

  const FEEDS: seq<Feed> := [
    Feed("manifest.json", "latest.json", ".app.tar.gz", ".dmg"),
    Feed("linux-manifest.json", "linux/latest.json", ".tar.gz", ".tar.gz"),
    Feed("windows-manifest.json", "windows/latest.json", ".tar.gz", "-setup.exe"),
    Feed("windows-arm64-manifest.json", "windows-arm64/latest.json", ".tar.gz", "-setup.exe")
  ]

  /** The update and the download package of one feed. */
  datatype Package = Package(update: File, download: File)

  /** One package per feed, each file found by its suffix. */
  ghost predicate Collected(ps: seq<Package>) {
    |ps| == |FEEDS| && forall i :: 0 <= i < |ps| ==>
      EndsWith(ps[i].update.name, FEEDS[i].suffix) && EndsWith(ps[i].download.name, FEEDS[i].download)
  }

  function Files(ps: seq<Package>): seq<File> {
    if ps == [] then [] else [ps[0].update, ps[0].download] + Files(ps[1..])
  }

  function EnvelopeOf(version: Version, p: Package): Envelope {
    Envelope(version, [Record(p.update.name, p.update.digest), Record(p.download.name, p.download.digest)])
  }

  // ---------------------------------------------------------------- the uploads of a run

  datatype Put = Put(key: Key, content: Content)

  /** The last file of this name: a dictionary keeps its first place and its last value. */
  function LastDigest(files: seq<File>, name: string): string {
    if files == [] then ""
    else
      var n := |files| - 1;
      if files[n].name == name then files[n].digest else LastDigest(files[..n], name)
  }

  function FirstNames(files: seq<File>): (names: seq<string>)
    ensures forall name :: name in names <==> exists i :: 0 <= i < |files| && files[i].name == name
  {
    if files == [] then []
    else
      var n := |files| - 1;
      var names := FirstNames(files[..n]);
      assert forall i :: 0 <= i < n ==> files[..n][i] == files[i];
      if files[n].name in names then names else names + [files[n].name]
  }

  function PayloadPuts(version: Version, files: seq<File>): (r: seq<Put>)
    ensures |r| == |FirstNames(files)|
  {
    var names := FirstNames(files);
    seq(|names|, i requires 0 <= i < |names| => Put(Release(version, names[i]), Blob(LastDigest(files, names[i]))))
  }

  function EnvelopePuts(version: Version, ps: seq<Package>): (r: seq<Put>)
    requires |ps| == |FEEDS|
    ensures |r| == |ps|
  {
    seq(|ps|, i requires 0 <= i < |ps| => Put(Release(version, FEEDS[i].envelope), Signed(EnvelopeOf(version, ps[i]))))
  }

  function PointerPuts(version: Version, ps: seq<Package>): (r: seq<Put>)
    requires |ps| == |FEEDS|
    ensures |r| == |ps|
  {
    seq(|ps|, i requires 0 <= i < |ps| => Put(Pointer(FEEDS[i].pointer), Signed(EnvelopeOf(version, ps[i]))))
  }

  function Puts(version: Version, ps: seq<Package>): seq<Put>
    requires |ps| == |FEEDS|
  {
    PayloadPuts(version, Files(ps)) + EnvelopePuts(version, ps) + PointerPuts(version, ps)
  }

  function Apply(s: Store, puts: seq<Put>): Store {
    if puts == [] then s
    else var n := |puts| - 1; Apply(s, puts[..n])[puts[n].key := puts[n].content]
  }

  /** The version that the guarded pointer names, if it can be read. */
  function Live(s: Store, guard: nat): Option<Version>
    requires guard < |FEEDS|
  {
    var key := Pointer(FEEDS[guard].pointer);
    if key in s && s[key].Signed? then Some(s[key].envelope.version) else None
  }

  /** A run for `version` that is cut off after at most `cut` uploads. It uploads nothing when
      the live feed cannot be read or already names the version. The source guards feed 0. */
  function RunCut(s: Store, guard: nat, version: Version, ps: seq<Package>, cut: nat): Store
    requires guard < |FEEDS| && |ps| == |FEEDS|
  {
    if Live(s, guard).None? || Live(s, guard) == Some(version) then s
    else Apply(s, Puts(version, ps)[..if cut < |Puts(version, ps)| then cut else |Puts(version, ps)|])
  }

  // ---------------------------------------------------------------- soundness

  /** Every record of the envelope names a stored payload with the signed digest. */
  ghost predicate Backed(s: Store, e: Envelope) {
    forall i :: 0 <= i < |e.records| ==>
      var key := Release(e.version, e.records[i].name);
      key in s && s[key] == Blob(e.records[i].digest)
  }

  ghost predicate Sound(s: Store) {
    forall path :: Pointer(path) in s ==> s[Pointer(path)].Signed? && Backed(s, s[Pointer(path)].envelope)
  }

  /** Some pointer names this version. */
  ghost predicate Named(s: Store, version: Version) {
    exists path :: Pointer(path) in s && s[Pointer(path)].Signed? && s[Pointer(path)].envelope.version == version
  }

  /** No pointer is ahead of the first one, and the first one is not ahead of `last`. */
  ghost predicate Ordered(s: Store, last: Version) {
    && Live(s, 0).Some? && Live(s, 0).value <= last
    && forall path :: Pointer(path) in s && s[Pointer(path)].Signed? ==> s[Pointer(path)].envelope.version <= Live(s, 0).value
  }

  /** Files of the same name in different packages are the same file. */
  ghost predicate Consistent(ps: seq<Package>) {
    forall i, j :: 0 <= i < |Files(ps)| && 0 <= j < |Files(ps)| && Files(ps)[i].name == Files(ps)[j].name ==>
      Files(ps)[i].digest == Files(ps)[j].digest
  }

  // ---------------------------------------------------------------- applying uploads

  lemma {:induction false} ApplyConcat(s: Store, a: seq<Put>, b: seq<Put>)
    ensures Apply(s, a + b) == Apply(Apply(s, a), b)
    decreases |b|
  {
    if b == [] {
      assert a + b == a;
    } else {
      assert (a + b)[..|a + b| - 1] == a + b[..|b| - 1];
      ApplyConcat(s, a, b[..|b| - 1]);
    }
  }

  lemma {:induction false} ApplyElsewhere(s: Store, puts: seq<Put>, key: Key)
    requires forall i :: 0 <= i < |puts| ==> puts[i].key != key
    ensures key in Apply(s, puts) <==> key in s
    ensures key in s ==> Apply(s, puts)[key] == s[key]
  {
    if puts != [] { ApplyElsewhere(s, puts[..|puts| - 1], key); }
  }

  /** The put at `k` is the last one to its key. */
  lemma {:induction false} ApplyLast(s: Store, puts: seq<Put>, k: nat)
    requires k < |puts| && forall i :: k < i < |puts| ==> puts[i].key != puts[k].key
    ensures puts[k].key in Apply(s, puts) && Apply(s, puts)[puts[k].key] == puts[k].content
  {
    var (a, b) := (puts[..k + 1], puts[k + 1..]);
    assert puts == a + b;
    ApplyConcat(s, a, b);
    assert a[..k] == puts[..k];
    ApplyElsewhere(Apply(s, a), b, puts[k].key);
  }

  function ReleasePuts(version: Version, ps: seq<Package>): seq<Put>
    requires |ps| == |FEEDS|
  {
    PayloadPuts(version, Files(ps)) + EnvelopePuts(version, ps)
  }

  lemma {:induction false} ReleasePutsStayInRelease(version: Version, ps: seq<Package>)
    requires |ps| == |FEEDS|
    ensures forall i :: 0 <= i < |ReleasePuts(version, ps)| ==> ReleasePuts(version, ps)[i].key.Release?
    ensures forall i :: 0 <= i < |ReleasePuts(version, ps)| ==> ReleasePuts(version, ps)[i].key.version == version
  {
  }

  /** Uploads under one release path leave pointers and other releases alone. */
  lemma {:induction false} ReleasesElsewhere(s: Store, version: Version, ps: seq<Package>, cut: nat, key: Key)
    requires |ps| == |FEEDS| && cut <= |ReleasePuts(version, ps)|
    requires key.Pointer? || key.version != version
    ensures var t := Apply(s, ReleasePuts(version, ps)[..cut]); (key in t <==> key in s) && (key in s ==> t[key] == s[key])
  {
    hide ReleasePuts;
    ReleasePutsStayInRelease(version, ps);
    ApplyElsewhere(s, ReleasePuts(version, ps)[..cut], key);
  }

  lemma {:induction false} ReleasesKeepSound(s: Store, version: Version, ps: seq<Package>, cut: nat, last: Version)
    requires |ps| == |FEEDS| && cut <= |ReleasePuts(version, ps)| && Sound(s) && Ordered(s, last) && !Named(s, version)
    ensures var t := Apply(s, ReleasePuts(version, ps)[..cut]); Sound(t) && Ordered(t, last) && !Named(t, version)
  {
    hide ReleasePuts, Apply;
    forall key: Key | key.Pointer? || key.version != version
      ensures var t := Apply(s, ReleasePuts(version, ps)[..cut]); (key in t <==> key in s) && (key in s ==> t[key] == s[key])
    {
      ReleasesElsewhere(s, version, ps, cut, key);
    }
  }

  // ---------------------------------------------------------------- payloads are in place before pointers

  lemma {:induction false} SuffixGivesLast(name: string, suffix: string)
    requires EndsWith(name, suffix) && suffix != []
    ensures name != [] && name[|name| - 1] == suffix[|suffix| - 1]
  {
    assert name[|name| - |suffix|..][|suffix| - 1] == name[|name| - 1];
  }

  /** No payload is called like an envelope. */
  lemma {:induction false} PayloadIsNoEnvelope(ps: seq<Package>, i: nat, k: nat)
    requires Collected(ps) && i < |ps| && k < |FEEDS|
    ensures ps[i].update.name != FEEDS[k].envelope && ps[i].download.name != FEEDS[k].envelope
  {
    SuffixGivesLast(ps[i].update.name, FEEDS[i].suffix);
    SuffixGivesLast(ps[i].download.name, FEEDS[i].download);
    assert FEEDS[k].envelope[|FEEDS[k].envelope| - 1] == 'n';
  }

  lemma {:induction false} FilesAre(ps: seq<Package>)
    ensures |Files(ps)| == 2 * |ps|
    ensures forall i :: 0 <= i < |ps| ==> Files(ps)[2 * i] == ps[i].update && Files(ps)[2 * i + 1] == ps[i].download
  {
    if ps != [] {
      FilesAre(ps[1..]);
      var rest := Files(ps[1..]);
      forall i | 0 <= i < |ps| ensures Files(ps)[2 * i] == ps[i].update && Files(ps)[2 * i + 1] == ps[i].download {
        if i > 0 {
          assert Files(ps)[2 * i] == rest[2 * (i - 1)] && Files(ps)[2 * i + 1] == rest[2 * (i - 1) + 1];
        }
      }
    }
  }

  lemma {:induction false} FileIsNoEnvelope(ps: seq<Package>, f: nat, k: nat)
    requires Collected(ps) && f < |Files(ps)| && k < |FEEDS|
    ensures Files(ps)[f].name != FEEDS[k].envelope
  {
    FilesAre(ps);
    hide Files, Collected;
    PayloadIsNoEnvelope(ps, f / 2, k);
    assert f == 2 * (f / 2) || f == 2 * (f / 2) + 1;
  }

  /** After the release uploads every file is stored under its name, with the dictionary's digest. */
  lemma {:induction false} PayloadStored(s: Store, version: Version, ps: seq<Package>, f: nat)
    requires Collected(ps) && f < |Files(ps)|
    ensures var t := Apply(s, ReleasePuts(version, ps));
            var key := Release(version, Files(ps)[f].name);
            key in t && t[key] == Blob(LastDigest(Files(ps), Files(ps)[f].name))
  {
    hide LastDigest, Files;
    var (files, names) := (Files(ps), FirstNames(Files(ps)));
    var puts := ReleasePuts(version, ps);
    assert files[f].name in names;
    var k :| 0 <= k < |names| && names[k] == files[f].name;
    forall i | k < i < |puts| ensures puts[i].key != puts[k].key {
      if i < |names| {
        FirstNamesDistinct(files);
        assert puts[i].key == Release(version, names[i]);
      } else {
        assert puts[i].key == Release(version, FEEDS[i - |names|].envelope);
        FileIsNoEnvelope(ps, f, i - |names|);
      }
    }
    ApplyLast(s, puts, k);
  }

  lemma {:induction false} FirstNamesDistinct(files: seq<File>)
    ensures NoDuplicates(FirstNames(files))
  {
    if files != [] { FirstNamesDistinct(files[..|files| - 1]); }
  }

  lemma {:induction false} LastDigestIsSome(files: seq<File>, f: nat)
    requires f < |files|
    ensures exists g :: 0 <= g < |files| && files[g].name == files[f].name && files[g].digest == LastDigest(files, files[f].name)
  {
    var n := |files| - 1;
    if files[n].name != files[f].name {
      LastDigestIsSome(files[..n], f);
      var g :| 0 <= g < n && files[..n][g].name == files[f].name && files[..n][g].digest == LastDigest(files[..n], files[f].name);
      assert files[g] == files[..n][g];
    }
  }

  // ---------------------------------------------------------------- the pointer phase

  lemma {:induction false} PointersAre(version: Version, ps: seq<Package>, i: nat)
    requires |ps| == |FEEDS| && i < |FEEDS|
    ensures PointerPuts(version, ps)[i] == Put(Pointer(FEEDS[i].pointer), Signed(EnvelopeOf(version, ps[i])))
    ensures forall j :: 0 <= j < |FEEDS| && j != i ==> FEEDS[j].pointer != FEEDS[i].pointer
  {
    assert |FEEDS| == 4;
  }

  /** After `j` pointer uploads, exactly the first `j` pointers are new. */
  lemma {:induction false} PointersAfter(s: Store, version: Version, ps: seq<Package>, j: nat, path: string)
    requires |ps| == |FEEDS| && j <= |FEEDS|
    ensures var t := Apply(s, PointerPuts(version, ps)[..j]);
            && (forall i :: 0 <= i < j && FEEDS[i].pointer == path ==>
                  Pointer(path) in t && t[Pointer(path)] == Signed(EnvelopeOf(version, ps[i])))
            && ((forall i :: 0 <= i < j ==> FEEDS[i].pointer != path) ==>
                  (Pointer(path) in t <==> Pointer(path) in s) && (Pointer(path) in s ==> t[Pointer(path)] == s[Pointer(path)]))
  {
    var puts := PointerPuts(version, ps)[..j];
    forall i | 0 <= i < j ensures puts[i] == Put(Pointer(FEEDS[i].pointer), Signed(EnvelopeOf(version, ps[i]))) {
      PointersAre(version, ps, i);
    }
    hide PointerPuts, EnvelopeOf, FEEDS;
    if i :| 0 <= i < j && FEEDS[i].pointer == path {
      PointersAre(version, ps, i);
      ApplyLast(s, puts, i);
    } else {
      ApplyElsewhere(s, puts, Pointer(path));
    }
  }

  lemma {:induction false} PointersKeepReleases(s: Store, version: Version, ps: seq<Package>, j: nat, key: Key)
    requires |ps| == |FEEDS| && j <= |FEEDS| && key.Release?
    ensures var t := Apply(s, PointerPuts(version, ps)[..j]); (key in t <==> key in s) && (key in s ==> t[key] == s[key])
  {
    ApplyElsewhere(s, PointerPuts(version, ps)[..j], key);
  }

  /** The payloads that the first `j` pointers will name are in place. */
  ghost predicate FirstBacked(s: Store, version: Version, ps: seq<Package>, j: nat)
    requires j <= |ps|
  {
    forall i :: 0 <= i < j ==> Backed(s, EnvelopeOf(version, ps[i]))
  }

  /** Once their payloads are in place, pointer uploads keep the store sound and ordered. */
  lemma {:induction false} PointersKeepSound(s: Store, version: Version, ps: seq<Package>, j: nat, last: Version)
    requires |ps| == |FEEDS| && j <= |FEEDS| && Sound(s) && Ordered(s, last) && last <= version && FirstBacked(s, version, ps, j)
    ensures var t := Apply(s, PointerPuts(version, ps)[..j]); Sound(t) && Ordered(t, version)
  {
    hide FEEDS, PointerPuts, Apply, EnvelopeOf, FirstBacked;
    var t := Apply(s, PointerPuts(version, ps)[..j]);
    forall path ensures Pointer(path) in t ==>
        && t[Pointer(path)].Signed? && Backed(s, t[Pointer(path)].envelope)
        && (if j > 0 then t[Pointer(path)].envelope.version <= version
            else Pointer(path) in s && t[Pointer(path)] == s[Pointer(path)])
    {
      PointersAfter(s, version, ps, j, path);
      PointerIsBacked(s, version, ps, j, path, last);
    }
    forall e: Envelope | Backed(s, e) ensures Backed(t, e) {
      BackedStays(s, version, ps, j, e);
    }
    LiveAfter(s, version, ps, j);
  }

  lemma {:induction false} BackedStays(s: Store, version: Version, ps: seq<Package>, j: nat, e: Envelope)
    requires |ps| == |FEEDS| && j <= |FEEDS| && Backed(s, e)
    ensures Backed(Apply(s, PointerPuts(version, ps)[..j]), e)
  {
    hide Apply, PointerPuts;
    forall i | 0 <= i < |e.records| ensures
      var key := Release(e.version, e.records[i].name);
      var t := Apply(s, PointerPuts(version, ps)[..j]);
      key in t && t[key] == Blob(e.records[i].digest)
    {
      PointersKeepReleases(s, version, ps, j, Release(e.version, e.records[i].name));
    }
  }

  lemma {:induction false} PointerIsBacked(s: Store, version: Version, ps: seq<Package>, j: nat, path: string, last: Version)
    requires |ps| == |FEEDS| && j <= |FEEDS| && Sound(s) && Ordered(s, last) && last <= version && FirstBacked(s, version, ps, j)
    ensures var t := Apply(s, PointerPuts(version, ps)[..j]);
            Pointer(path) in t ==>
              && t[Pointer(path)].Signed? && Backed(s, t[Pointer(path)].envelope)
              && t[Pointer(path)].envelope.version <= version
  {
    hide PointerPuts, Apply, FEEDS, Backed;
    PointersAfter(s, version, ps, j, path);
    if i :| 0 <= i < j && FEEDS[i].pointer == path {
      assert Backed(s, EnvelopeOf(version, ps[i]));
    }
  }

  lemma {:induction false} LiveAfter(s: Store, version: Version, ps: seq<Package>, j: nat)
    requires |ps| == |FEEDS| && j <= |FEEDS| && Live(s, 0).Some?
    ensures Live(Apply(s, PointerPuts(version, ps)[..j]), 0) == if j == 0 then Live(s, 0) else Some(version)
  {
    hide PointerPuts, Apply;
    PointersAfter(s, version, ps, j, FEEDS[0].pointer);
    if j > 0 { assert FEEDS[0].pointer == FEEDS[0].pointer; } else { assert PointerPuts(version, ps)[..0] == []; NothingApplied(s); }
  }

  lemma {:induction false} NothingApplied(s: Store)
    ensures Apply(s, []) == s
  {
  }

  // ---------------------------------------------------------------- whole runs

  /** The files of one package are the ones that the payload dictionary ends up with. */
  predicate Agrees(ps: seq<Package>, i: nat)
    requires i < |ps|
  {
    && ps[i].update.digest == LastDigest(Files(ps), ps[i].update.name)
    && ps[i].download.digest == LastDigest(Files(ps), ps[i].download.name)
  }

  /** After the release uploads an envelope is backed exactly when its package agrees. */
  lemma {:induction false} BackedIff(s: Store, version: Version, ps: seq<Package>, i: nat)
    requires Collected(ps) && i < |ps|
    ensures Backed(Apply(s, ReleasePuts(version, ps)), EnvelopeOf(version, ps[i])) <==> Agrees(ps, i)
  {
    hide Apply, ReleasePuts, LastDigest, Files;
    FilesAre(ps);
    PayloadStored(s, version, ps, 2 * i);
    PayloadStored(s, version, ps, 2 * i + 1);
    var (t, e) := (Apply(s, ReleasePuts(version, ps)), EnvelopeOf(version, ps[i]));
    assert e.records[0].name == ps[i].update.name && e.records[1].name == ps[i].download.name;
  }

  lemma {:induction false} ConsistentAgrees(ps: seq<Package>)
    ensures Consistent(ps) <==> forall i :: 0 <= i < |ps| ==> Agrees(ps, i)
  {
    hide LastDigest, Files;
    FilesAre(ps);
    var files := Files(ps);
    if Consistent(ps) {
      forall i | 0 <= i < |ps| ensures Agrees(ps, i) {
        LastDigestIsSome(files, 2 * i);
        LastDigestIsSome(files, 2 * i + 1);
      }
    }
    if forall i :: 0 <= i < |ps| ==> Agrees(ps, i) {
      forall f | 0 <= f < |files| ensures files[f].digest == LastDigest(files, files[f].name) {
        assert Agrees(ps, f / 2);
        assert f == 2 * (f / 2) || f == 2 * (f / 2) + 1;
      }
    }
  }

  lemma {:induction false} PutsSplit(version: Version, ps: seq<Package>, cut: nat)
    requires |ps| == |FEEDS| && cut <= |Puts(version, ps)|
    ensures |Puts(version, ps)| == |ReleasePuts(version, ps)| + |FEEDS|
    ensures var n := |ReleasePuts(version, ps)|;
            Puts(version, ps)[..cut] == if cut <= n then ReleasePuts(version, ps)[..cut]
                                        else ReleasePuts(version, ps) + PointerPuts(version, ps)[..cut - n]
  {
  }

  /** The guard lets only versions through that no pointer names. */
  lemma {:induction false} GuardedIsUnnamed(s: Store, last: Version, version: Version)
    requires Ordered(s, last) && last <= version && Live(s, 0) != Some(version)
    ensures !Named(s, version)
  {
  }

  /** How many pointers a run writes before it is cut off. */
  function PointersWritten(version: Version, ps: seq<Package>, cut: nat): (j: nat)
    requires |ps| == |FEEDS|
    ensures j <= |FEEDS|
  {
    var n := |ReleasePuts(version, ps)|;
    if cut <= n then 0 else if cut < n + |FEEDS| then cut - n else |FEEDS|
  }

  lemma {:induction false} RunSplit(s: Store, version: Version, ps: seq<Package>, cut: nat)
    requires |ps| == |FEEDS| && Live(s, 0).Some? && Live(s, 0) != Some(version)
    ensures var (n, j) := (|ReleasePuts(version, ps)|, PointersWritten(version, ps, cut));
            RunCut(s, 0, version, ps, cut) ==
            if cut <= n then Apply(s, ReleasePuts(version, ps)[..cut])
            else Apply(Apply(s, ReleasePuts(version, ps)), PointerPuts(version, ps)[..j])
  {
    assert |FEEDS| == 4;
    hide Puts, ReleasePuts, PointerPuts, Apply, FEEDS;
    var c := if cut < |Puts(version, ps)| then cut else |Puts(version, ps)|;
    PutsSplit(version, ps, c);
    if cut > |ReleasePuts(version, ps)| {
      ApplyConcat(s, ReleasePuts(version, ps), PointerPuts(version, ps)[..c - |ReleasePuts(version, ps)|]);
    }
  }

  /** A run of a version no older than any attempted so far, cut off anywhere, leaves a sound store exactly when every
      package whose pointer was written agrees with the payloads that were stored. It keeps the pointers in order. */
  lemma {:induction false} CutRunSoundIff(s: Store, last: Version, version: Version, ps: seq<Package>, cut: nat)
    requires Sound(s) && Ordered(s, last) && last <= version && Collected(ps) && Live(s, 0) != Some(version)
    ensures Sound(RunCut(s, 0, version, ps, cut)) <==>
            forall i :: 0 <= i < PointersWritten(version, ps, cut) ==> Agrees(ps, i)
  {
    hide Sound, Ordered, ReleasePuts, PointerPuts, Apply, RunCut, Agrees, FEEDS;
    OrderedIsLive(s, last);
    GuardedIsUnnamed(s, last, version);
    RunSplit(s, version, ps, cut);
    var (n, j) := (|ReleasePuts(version, ps)|, PointersWritten(version, ps, cut));
    if cut <= n {
      ReleasesKeepSound(s, version, ps, cut, last);
    } else {
      var mid := Apply(s, ReleasePuts(version, ps));
      assert ReleasePuts(version, ps)[..n] == ReleasePuts(version, ps);
      ReleasesKeepSound(s, version, ps, n, last);
      SoundAfterPointers(mid, version, ps, j, last);
      forall i | 0 <= i < j ensures Backed(mid, EnvelopeOf(version, ps[i])) <==> Agrees(ps, i) {
        BackedIff(s, version, ps, i);
      }
    }
  }

  lemma {:induction false} SoundAfterPointers(s: Store, version: Version, ps: seq<Package>, j: nat, last: Version)
    requires |ps| == |FEEDS| && j <= |FEEDS| && Sound(s) && Ordered(s, last) && last <= version
    ensures Sound(Apply(s, PointerPuts(version, ps)[..j])) <==> FirstBacked(s, version, ps, j)
  {
    hide PointerPuts, Apply, FEEDS, EnvelopeOf, Ordered;
    var t := Apply(s, PointerPuts(version, ps)[..j]);
    if FirstBacked(s, version, ps, j) {
      PointersKeepSound(s, version, ps, j, last);
    }
    if Sound(t) {
      forall i | 0 <= i < j ensures Backed(s, EnvelopeOf(version, ps[i])) {
        PointersAfter(s, version, ps, j, FEEDS[i].pointer);
        assert Backed(t, EnvelopeOf(version, ps[i]));
        BackedBefore(s, version, ps, j, EnvelopeOf(version, ps[i]));
      }
    }
  }

  lemma {:induction false} BackedBefore(s: Store, version: Version, ps: seq<Package>, j: nat, e: Envelope)
    requires |ps| == |FEEDS| && j <= |FEEDS| && Backed(Apply(s, PointerPuts(version, ps)[..j]), e)
    ensures Backed(s, e)
  {
    hide Apply, PointerPuts;
    forall i | 0 <= i < |e.records| ensures
      var key := Release(e.version, e.records[i].name); key in s && s[key] == Blob(e.records[i].digest)
    {
      PointersKeepReleases(s, version, ps, j, Release(e.version, e.records[i].name));
    }
  }

  /** After a run, however it was cut off, a pointer is the old one, or the new one once the first pointer is new. */
  lemma {:induction false} PointerAfterRun(s: Store, version: Version, ps: seq<Package>, cut: nat, path: string)
    requires |ps| == |FEEDS| && Live(s, 0).Some? && Live(s, 0) != Some(version)
    ensures var (t, key) := (RunCut(s, 0, version, ps, cut), Pointer(path));
            || ((key in t <==> key in s) && (key in s ==> t[key] == s[key]))
            || (key in t && t[key].Signed? && t[key].envelope.version == version && PointersWritten(version, ps, cut) > 0)
  {
    hide ReleasePuts, PointerPuts, Apply, FEEDS, RunCut;
    RunSplit(s, version, ps, cut);
    var (n, j) := (|ReleasePuts(version, ps)|, PointersWritten(version, ps, cut));
    assert ReleasePuts(version, ps)[..n] == ReleasePuts(version, ps);
    ReleasesElsewhere(s, version, ps, if cut <= n then cut else n, Pointer(path));
    if cut > n {
      var mid := Apply(s, ReleasePuts(version, ps));
      PointersAfter(mid, version, ps, j, path);
      if i :| 0 <= i < j && FEEDS[i].pointer == path {
        assert EnvelopeOf(version, ps[i]).version == version;
      }
    }
  }

  /** The first pointer names the version as soon as any pointer was written. */
  lemma {:induction false} LiveAfterRun(s: Store, version: Version, ps: seq<Package>, cut: nat)
    requires |ps| == |FEEDS| && Live(s, 0).Some? && Live(s, 0) != Some(version)
    ensures Live(RunCut(s, 0, version, ps, cut), 0) == if PointersWritten(version, ps, cut) == 0 then Live(s, 0) else Some(version)
  {
    assert |FEEDS| == 4;
    hide ReleasePuts, PointerPuts, Apply, FEEDS, RunCut;
    RunSplit(s, version, ps, cut);
    var (n, j) := (|ReleasePuts(version, ps)|, PointersWritten(version, ps, cut));
    assert ReleasePuts(version, ps)[..n] == ReleasePuts(version, ps);
    ReleasesElsewhere(s, version, ps, if cut <= n then cut else n, Pointer(FEEDS[0].pointer));
    if cut > n {
      LiveAfter(Apply(s, ReleasePuts(version, ps)), version, ps, j);
    }
  }

  /** Whatever its files are, a run of a version no older than any attempted so far keeps the pointers in order, and the
      first one never goes back. */
  lemma {:induction false} RunKeepsOrder(s: Store, last: Version, version: Version, ps: seq<Package>, cut: nat)
    requires Ordered(s, last) && last <= version && |ps| == |FEEDS|
    ensures Ordered(RunCut(s, 0, version, ps, cut), version)
    ensures Live(s, 0).value <= Live(RunCut(s, 0, version, ps, cut), 0).value
  {
    hide PointersWritten;
    if Live(s, 0) != Some(version) {
      LiveAfterRun(s, version, ps, cut);
      var t := RunCut(s, 0, version, ps, cut);
      hide RunCut;
      forall path | Pointer(path) in t && t[Pointer(path)].Signed?
        ensures t[Pointer(path)].envelope.version <= Live(t, 0).value
      {
        PointerAfterRun(s, version, ps, cut, path);
      }
    }
  }

  /** So with packages that agree, a run cut off anywhere keeps the store sound, and the pointers in order. */
  lemma {:induction false} RunKeepsSound(s: Store, last: Version, version: Version, ps: seq<Package>, cut: nat)
    requires Sound(s) && Ordered(s, last) && last <= version && Collected(ps) && Consistent(ps)
    ensures var t := RunCut(s, 0, version, ps, cut); Sound(t) && Ordered(t, version)
  {
    RunKeepsOrder(s, last, version, ps, cut);
    hide Sound, Ordered, PointersWritten, Agrees, Consistent;
    if Live(s, 0) != Some(version) {
      CutRunSoundIff(s, last, version, ps, cut);
      ConsistentAgrees(ps);
    }
  }

  /** Every upload under a release path happens while no pointer names that version. */
  lemma {:induction false} NamedIsNeverOverwritten(s: Store, last: Version, version: Version, ps: seq<Package>, k: nat)
    requires Ordered(s, last) && last <= version && |ps| == |FEEDS|
    requires Live(s, 0) != Some(version) && k < |Puts(version, ps)| && Puts(version, ps)[k].key.Release?
    ensures Puts(version, ps)[k].key.version == version && !Named(Apply(s, Puts(version, ps)[..k]), version)
  {
    hide FEEDS, ReleasePuts, PointerPuts, Apply, Ordered;
    GuardedIsUnnamed(s, last, version);
    PutsSplit(version, ps, |Puts(version, ps)|);
    PutsSplit(version, ps, k);
    ReleaseComesFirst(version, ps, k);
    forall path ensures var (t, key) := (Apply(s, ReleasePuts(version, ps)[..k]), Pointer(path));
                        (key in t <==> key in s) && (key in s ==> t[key] == s[key])
    {
      ReleasesElsewhere(s, version, ps, k, Pointer(path));
    }
  }

  lemma {:induction false} ReleaseComesFirst(version: Version, ps: seq<Package>, k: nat)
    requires |ps| == |FEEDS| && k < |Puts(version, ps)| && Puts(version, ps)[k].key.Release?
    ensures k < |ReleasePuts(version, ps)| && Puts(version, ps)[k].key.version == version
  {
  }

  // ---------------------------------------------------------------- histories

  datatype Attempt = Attempt(version: Version, packages: seq<Package>, cut: nat)

  /** Non-overlapping attempts of non-decreasing versions, from version `last` on, whatever their files are. */
  ghost predicate InOrder(last: Version, attempts: seq<Attempt>) {
    && (forall i :: 0 <= i < |attempts| ==> last <= attempts[i].version && |attempts[i].packages| == |FEEDS|)
    && (forall i, j :: 0 <= i < j < |attempts| ==> attempts[i].version <= attempts[j].version)
  }

  /** The same, with files that are found by their suffix and agree across platforms. */
  ghost predicate Orderly(last: Version, attempts: seq<Attempt>) {
    && InOrder(last, attempts)
    && forall i :: 0 <= i < |attempts| ==> Collected(attempts[i].packages) && Consistent(attempts[i].packages)
  }

  /** The newest version attempted. */
  function Reached(last: Version, attempts: seq<Attempt>): Version {
    if attempts == [] then last else attempts[|attempts| - 1].version
  }

  lemma {:induction false} InOrderStep(last: Version, attempts: seq<Attempt>)
    requires InOrder(last, attempts) && attempts != []
    ensures var n := |attempts| - 1;
            && InOrder(last, attempts[..n]) && Reached(last, attempts[..n]) <= attempts[n].version
            && |attempts[n].packages| == |FEEDS|
  {
    hide FEEDS;
  }

  function History(s: Store, attempts: seq<Attempt>): Store
    requires forall i :: 0 <= i < |attempts| ==> |attempts[i].packages| == |FEEDS|
  {
    if attempts == [] then s
    else
      var n := |attempts| - 1;
      RunCut(History(s, attempts[..n]), 0, attempts[n].version, attempts[n].packages, attempts[n].cut)
  }

  /** Over any history the pointers stay in order. */
  lemma {:induction false} HistoryKeepsOrder(s: Store, last: Version, attempts: seq<Attempt>)
    requires Ordered(s, last) && InOrder(last, attempts)
    ensures Ordered(History(s, attempts), Reached(last, attempts))
  {
    hide Ordered, RunCut, FEEDS;
    if attempts != [] {
      var n := |attempts| - 1;
      InOrderStep(last, attempts);
      HistoryKeepsOrder(s, last, attempts[..n]);
      RunKeepsOrder(History(s, attempts[..n]), Reached(last, attempts[..n]), attempts[n].version, attempts[n].packages, attempts[n].cut);
    }
  }

  /** Crash safety: with files that agree, wherever each attempt was cut off, every live pointer names stored payloads with
      the signed digests. */
  lemma {:induction false} HistoryIsSound(s: Store, last: Version, attempts: seq<Attempt>)
    requires Sound(s) && Ordered(s, last) && Orderly(last, attempts)
    ensures Sound(History(s, attempts)) && Ordered(History(s, attempts), Reached(last, attempts))
  {
    hide Sound, Ordered, RunCut, Consistent, Collected, FEEDS;
    if attempts != [] {
      var n := |attempts| - 1;
      InOrderStep(last, attempts);
      HistoryIsSound(s, last, attempts[..n]);
      var a := attempts[n];
      AttemptPackages(last, attempts, n);
      RunKeepsSound(History(s, attempts[..n]), Reached(last, attempts[..n]), a.version, a.packages, a.cut);
    }
  }

  /** Over any history, botched releases included: what is stored under a version no newer than the first pointer's stays
      exactly as it is. That covers every version that a pointer names, and those that pointers have since left. */
  lemma {:induction false} HistoryKeepsPublished(s: Store, last: Version, attempts: seq<Attempt>, key: Key)
    requires Ordered(s, last) && InOrder(last, attempts)
    requires key.Release? && key.version <= Live(s, 0).value
    ensures var t := History(s, attempts);
            && (key in t <==> key in s) && (key in s ==> t[key] == s[key])
            && Live(t, 0).Some? && key.version <= Live(t, 0).value
  {
    hide Ordered, RunCut, Live, FEEDS;
    OrderedIsLive(s, last);
    if attempts != [] {
      var n := |attempts| - 1;
      InOrderStep(last, attempts);
      HistoryKeepsPublished(s, last, attempts[..n], key);
      HistoryKeepsOrder(s, last, attempts[..n]);
      var a := attempts[n];
      RunKeepsPublished(History(s, attempts[..n]), Reached(last, attempts[..n]), a.version, a.packages, a.cut, key);
    }
  }

  lemma {:induction false} RunKeepsPublished(s: Store, last: Version, version: Version, ps: seq<Package>, cut: nat, key: Key)
    requires Ordered(s, last) && last <= version && |ps| == |FEEDS|
    requires key.Release? && key.version <= Live(s, 0).value
    ensures var t := RunCut(s, 0, version, ps, cut);
            && (key in t <==> key in s) && (key in s ==> t[key] == s[key])
            && Live(t, 0).Some? && key.version <= Live(t, 0).value
  {
    RunKeepsOrder(s, last, version, ps, cut);
    if Live(s, 0) != Some(version) {
      assert key.version != version;
      hide ReleasePuts, PointerPuts, Apply, FEEDS;
      RunSplit(s, version, ps, cut);
      var (n, j) := (|ReleasePuts(version, ps)|, PointersWritten(version, ps, cut));
      assert ReleasePuts(version, ps)[..n] == ReleasePuts(version, ps);
      ReleasesElsewhere(s, version, ps, if cut <= n then cut else n, key);
      if cut > n {
        PointersKeepReleases(Apply(s, ReleasePuts(version, ps)), version, ps, j, key);
      }
    }
  }

  /** In particular, nothing under a version that some pointer names is ever overwritten, removed or added to. */
  lemma {:induction false} NamedStaysForever(s: Store, last: Version, attempts: seq<Attempt>, key: Key)
    requires Ordered(s, last) && InOrder(last, attempts) && key.Release? && Named(s, key.version)
    ensures var t := History(s, attempts); (key in t <==> key in s) && (key in s ==> t[key] == s[key])
  {
    hide InOrder, History;
    HistoryKeepsPublished(s, last, attempts, key);
  }

  lemma {:induction false} AttemptPackages(last: Version, attempts: seq<Attempt>, n: nat)
    requires Orderly(last, attempts) && n < |attempts|
    ensures Collected(attempts[n].packages) && Consistent(attempts[n].packages)
  {
  }

  // ---------------------------------------------------------------- what it depends on

  /** A completed run is sound exactly when files of one name agree across platforms. */
  lemma {:induction false} CompleteRunSoundIff(s: Store, last: Version, version: Version, ps: seq<Package>)
    requires Sound(s) && Ordered(s, last) && last <= version && Collected(ps) && Live(s, 0) != Some(version)
    ensures Sound(Apply(s, Puts(version, ps))) <==> Consistent(ps)
  {
    hide FEEDS, Sound, Ordered, ReleasePuts, PointerPuts, Apply, Puts, Files, Agrees, Consistent;
    var n := |Puts(version, ps)|;
    PutsSplit(version, ps, n);
    assert Puts(version, ps)[..n] == Puts(version, ps);
    OrderedIsLive(s, last);
    CutRunSoundIff(s, last, version, ps, n);
    ConsistentAgrees(ps);
  }

  // ---------------------------------------------------------------- each feed gets its own manifest

  /** The envelope signs the two files of the package, as files of the version. */
  predicate Signs(e: Envelope, version: Version, p: Package) {
    && e.version == version && |e.records| == 2
    && e.records[0].name == p.update.name && e.records[0].digest == p.update.digest
    && e.records[1].name == p.download.name && e.records[1].digest == p.download.digest
  }

  lemma {:induction false} EnvelopesDiffer(i: nat, j: nat)
    requires i < |FEEDS| && j < |FEEDS| && i != j
    ensures FEEDS[i].envelope != FEEDS[j].envelope
  {
    assert |FEEDS| == 4;
  }

  lemma {:induction false} EnvelopeStored(s: Store, version: Version, ps: seq<Package>, i: nat)
    requires |ps| == |FEEDS| && i < |FEEDS|
    ensures var (t, key) := (Apply(s, ReleasePuts(version, ps)), Release(version, FEEDS[i].envelope));
            key in t && t[key].Signed? && Signs(t[key].envelope, version, ps[i])
  {
    hide FEEDS, Apply;
    var (puts, k) := (ReleasePuts(version, ps), |PayloadPuts(version, Files(ps))| + i);
    assert puts[k] == EnvelopePuts(version, ps)[i];
    forall j | k < j < |puts| ensures puts[j].key != puts[k].key {
      assert puts[j] == EnvelopePuts(version, ps)[j - |PayloadPuts(version, Files(ps))|];
      EnvelopesDiffer(i, j - |PayloadPuts(version, Files(ps))|);
    }
    ApplyLast(s, puts, k);
  }

  /** Once a run has written the pointer of a feed, that pointer holds the signed manifest of the feed's own package, and the
      release holds the same manifest under the feed's name. */
  lemma {:induction false} PointerHasItsManifest(s: Store, version: Version, ps: seq<Package>, cut: nat, i: nat)
    requires |ps| == |FEEDS| && Live(s, 0).Some? && Live(s, 0) != Some(version) && i < PointersWritten(version, ps, cut)
    ensures var (t, pointer, manifest) := (RunCut(s, 0, version, ps, cut), Pointer(FEEDS[i].pointer), Release(version, FEEDS[i].envelope));
            && pointer in t && t[pointer].Signed? && Signs(t[pointer].envelope, version, ps[i])
            && manifest in t && t[manifest] == t[pointer]
  {
    hide FEEDS, Apply, ReleasePuts, PointerPuts, RunCut;
    RunSplit(s, version, ps, cut);
    var (j, mid) := (PointersWritten(version, ps, cut), Apply(s, ReleasePuts(version, ps)));
    EnvelopeStored(s, version, ps, i);
    PointersKeepReleases(mid, version, ps, j, Release(version, FEEDS[i].envelope));
    PointersAfter(mid, version, ps, j, FEEDS[i].pointer);
  }

  /** Two platforms whose update archives share a name but not their bytes. */
  const CLASH: seq<Package> := [
    Package(File("maple" + FEEDS[0].suffix, "a"), File("maple" + FEEDS[0].download, "b")),
    Package(File("linux" + FEEDS[1].suffix, "c"), File("linux" + FEEDS[1].download, "c")),
    Package(File("windows" + FEEDS[2].suffix, "d"), File("windows" + FEEDS[2].download, "e")),
    Package(File("windows" + FEEDS[3].suffix, "f"), File("arm" + FEEDS[3].download, "g"))
  ]

  /** Published over any sound store, they leave a live pointer whose payload has other bytes than it signs. */
  lemma {:induction false} ClashIsUnsound(s: Store, last: Version, version: Version)
    requires Sound(s) && Ordered(s, last) && last <= version && Live(s, 0) != Some(version)
    ensures Collected(CLASH) && !Sound(Apply(s, Puts(version, CLASH)))
  {
    ClashIsCollected();
    assert FEEDS[2].suffix == FEEDS[3].suffix;
    assert |CLASH| == 4 && CLASH[2].update.name == CLASH[3].update.name && CLASH[2].update.digest != CLASH[3].update.digest;
    hide Sound, Ordered, Apply, Puts, Collected, CLASH;
    CompleteRunSoundIff(s, last, version, CLASH);
    FilesAre(CLASH);
    hide Files;
    assert Files(CLASH)[2 * 2] == CLASH[2].update && Files(CLASH)[2 * 3] == CLASH[3].update;
  }

  lemma {:induction false} ClashIsCollected()
    ensures Collected(CLASH)
  {
    assert |FEEDS| == 4;
    hide FEEDS, EndsWith;
    EndsByItself("maple", FEEDS[0]);
    EndsByItself("linux", FEEDS[1]);
    EndsByItself("windows", FEEDS[2]);
    EndsByItself("windows", FEEDS[3]);
    EndsByItself("arm", FEEDS[3]);
  }

  lemma {:induction false} EndsByItself(name: string, feed: Feed)
    ensures EndsWith(name + feed.suffix, feed.suffix) && EndsWith(name + feed.download, feed.download)
  {
  }

  lemma {:induction false} OrderedIsLive(s: Store, last: Version)
    requires Ordered(s, last)
    ensures Live(s, 0).Some?
  {
  }

  /** Were another feed guarded, a run cut off after its first pointer could be repeated with a rebuilt update of the same
      name. Over a sound store and with files that agree, the first run leaves a sound store. The first upload of the
      repetition then overwrites the payload that the live pointer names: a client that follows the pointer finds other bytes
      than it signs. */
  lemma {:induction false} GuardMustBeFirst(s: Store, last: Version, guard: nat, version: Version, ps: seq<Package>, qs: seq<Package>)
    requires 0 < guard < |FEEDS| && Collected(ps) && Collected(qs)
    requires Live(s, guard).Some? && Live(s, guard) != Some(version)
    requires qs[0].update.name == ps[0].update.name && LastDigest(Files(qs), ps[0].update.name) != ps[0].update.digest
    ensures var t := RunCut(s, guard, version, ps, |ReleasePuts(version, ps)| + 1);
            var u := RunCut(t, guard, version, qs, 1);
            var key := Release(version, ps[0].update.name);
            && Pointer(FEEDS[0].pointer) in t && t[Pointer(FEEDS[0].pointer)] == Signed(EnvelopeOf(version, ps[0]))
            && key in t && u == t[key := Blob(LastDigest(Files(qs), ps[0].update.name))] && !Sound(u)
            && (Sound(s) && Ordered(s, last) && last <= version && Live(s, 0) != Some(version) && Consistent(ps) ==> Sound(t))
  {
    if Sound(s) && Ordered(s, last) && last <= version && Live(s, 0) != Some(version) && Consistent(ps) {
      SameRun(s, last, guard, version, ps, |ReleasePuts(version, ps)| + 1);
      RunKeepsSound(s, last, version, ps, |ReleasePuts(version, ps)| + 1);
    }
    hide ReleasePuts, PointerPuts, Apply, Puts, LastDigest, Files;
    CutAfterFirstPointer(s, guard, version, ps);
    var t := RunCut(s, guard, version, ps, |ReleasePuts(version, ps)| + 1);
    hide RunCut;
    var key := Release(version, ps[0].update.name);
    FirstPut(version, qs);
    FirstPutLands(t, guard, version, qs);
    var u := RunCut(t, guard, version, qs, 1);
    assert EnvelopeOf(version, ps[0]).records[0] == Record(ps[0].update.name, ps[0].update.digest);
    assert u[key] != Blob(ps[0].update.digest);
    assert !Backed(u, EnvelopeOf(version, ps[0]));
  }

  /** While neither feed names the version, it does not matter which one is guarded. */
  lemma {:induction false} SameRun(s: Store, last: Version, guard: nat, version: Version, ps: seq<Package>, cut: nat)
    requires guard < |FEEDS| && |ps| == |FEEDS| && Ordered(s, last)
    requires Live(s, guard).Some? && Live(s, guard) != Some(version) && Live(s, 0) != Some(version)
    ensures RunCut(s, guard, version, ps, cut) == RunCut(s, 0, version, ps, cut)
  {
    hide Apply, Puts, Live;
    OrderedIsLive(s, last);
  }

  lemma {:induction false} CutAfterFirstPointer(s: Store, guard: nat, version: Version, ps: seq<Package>)
    requires 0 < guard < |FEEDS| && Collected(ps) && Live(s, guard).Some? && Live(s, guard) != Some(version)
    ensures var t := RunCut(s, guard, version, ps, |ReleasePuts(version, ps)| + 1);
            && Pointer(FEEDS[0].pointer) in t && t[Pointer(FEEDS[0].pointer)] == Signed(EnvelopeOf(version, ps[0]))
            && Release(version, ps[0].update.name) in t && Live(t, guard) == Live(s, guard)
  {
    hide ReleasePuts, PointerPuts, Apply, Puts, LastDigest, Files;
    var n := |ReleasePuts(version, ps)|;
    PutsSplit(version, ps, |Puts(version, ps)|);
    PutsSplit(version, ps, n + 1);
    var mid := Apply(s, ReleasePuts(version, ps));
    ApplyConcat(s, ReleasePuts(version, ps), PointerPuts(version, ps)[..1]);
    PointersAfter(mid, version, ps, 1, FEEDS[0].pointer);
    PointersAfter(mid, version, ps, 1, FEEDS[guard].pointer);
    PointersAre(version, ps, 0);
    assert ReleasePuts(version, ps)[..n] == ReleasePuts(version, ps);
    ReleasesElsewhere(s, version, ps, n, Pointer(FEEDS[guard].pointer));
    FilesAre(ps);
    PayloadStored(s, version, ps, 2 * 0);
    PointersKeepReleases(mid, version, ps, 1, Release(version, ps[0].update.name));
  }

  lemma {:induction false} FirstPutLands(t: Store, guard: nat, version: Version, qs: seq<Package>)
    requires guard < |FEEDS| && |qs| == |FEEDS| && Live(t, guard).Some? && Live(t, guard) != Some(version) && Puts(version, qs) != []
    ensures RunCut(t, guard, version, qs, 1) == t[Puts(version, qs)[0].key := Puts(version, qs)[0].content]
  {
    hide Puts, Apply;
    OnePut(t, Puts(version, qs));
    assert |Puts(version, qs)| == 1 ==> Puts(version, qs)[..1] == Puts(version, qs);
  }

  /** The first upload of a run is the first platform's update, with the dictionary's digest. */
  lemma {:induction false} FirstPut(version: Version, ps: seq<Package>)
    requires |ps| == |FEEDS|
    ensures Puts(version, ps) != []
    ensures Puts(version, ps)[0] == Put(Release(version, ps[0].update.name), Blob(LastDigest(Files(ps), ps[0].update.name)))
  {
    FilesAre(ps);
    hide Files, LastDigest;
    assert Files(ps)[2 * 0] == ps[0].update;
    FirstOfNames(Files(ps));
  }

  lemma {:induction false} FirstOfNames(files: seq<File>)
    requires files != []
    ensures FirstNames(files) != [] && FirstNames(files)[0] == files[0].name
  {
    if |files| > 1 {
      FirstOfNames(files[..|files| - 1]);
    }
  }

  lemma {:induction false} OnePut(s: Store, puts: seq<Put>)
    requires puts != []
    ensures Apply(s, puts[..1]) == s[puts[0].key := puts[0].content]
  {
    assert puts[..1][..0] == [];
    NothingApplied(s);
  }

  // ---------------------------------------------------------------- the run in place

  class Bucket {
    var objects: Store

    /** Upload in order until the budget runs out. */
    method UploadAll(puts: seq<Put>, budget: nat) returns (left: nat)
      modifies this
      ensures left == budget - Min(budget, |puts|) && objects == Apply(old(objects), puts[..Min(budget, |puts|)])
    {
      ghost var was := objects;
      NothingApplied(was);
      for i := 0 to Min(budget, |puts|)
        invariant objects == Apply(was, puts[..i])
      {
        objects := objects[puts[i].key := puts[i].content];
        assert puts[..i + 1][..i] == puts[..i];
      }
      left := budget - Min(budget, |puts|);
    }
  }

  function Min(a: nat, b: nat): nat { if a < b then a else b }

  /** The publishing script up to a crash after `budget` uploads: fill the payload dictionary
      and the envelope list, then upload in three loops. */
  method PublishRelease(bucket: Bucket, version: Version, ps: seq<Package>, budget: nat)
    requires |ps| == |FEEDS|
    modifies bucket
    ensures bucket.objects == RunCut(old(bucket.objects), 0, version, ps, budget)
  {
    hide Apply, PayloadPuts, EnvelopePuts, PointerPuts;
    var live := Live(bucket.objects, 0);
    if live.None? || live == Some(version) {
      return;
    }
    ghost var was := bucket.objects;
    var payloads := DictionaryPuts(version, Files(ps));
    var left := bucket.UploadAll(payloads, budget);
    left := bucket.UploadAll(EnvelopePuts(version, ps), left);
    CutConcat(was, payloads, EnvelopePuts(version, ps), budget);
    left := bucket.UploadAll(PointerPuts(version, ps), left);
    CutConcat(was, payloads + EnvelopePuts(version, ps), PointerPuts(version, ps), budget);
  }

  lemma {:induction false} CutConcat(s: Store, a: seq<Put>, b: seq<Put>, budget: nat)
    ensures var i := Min(budget, |a|);
            Apply(Apply(s, a[..i]), b[..Min(budget - i, |b|)]) == Apply(s, (a + b)[..Min(budget, |a + b|)])
  {
    hide Apply;
    var i := Min(budget, |a|);
    var j := Min(budget - i, |b|);
    assert (a + b)[..Min(budget, |a + b|)] == a[..i] + b[..j];
    ApplyConcat(s, a[..i], b[..j]);
  }

  method DictionaryPuts(version: Version, files: seq<File>) returns (puts: seq<Put>)
    ensures puts == PayloadPuts(version, files)
  {
    var names, payloads := CollectPayloads(files);
    puts := [];
    for i := 0 to |names|
      invariant |puts| == i && forall k :: 0 <= k < i ==> puts[k] == Put(Release(version, names[k]), Blob(LastDigest(files, names[k])))
    {
      puts := puts + [Put(Release(version, names[i]), Blob(payloads[names[i]]))];
    }
  }

  method CollectPayloads(files: seq<File>) returns (names: seq<string>, payloads: map<string, string>)
    ensures names == FirstNames(files)
    ensures forall name :: name in names ==> name in payloads && payloads[name] == LastDigest(files, name)
  {
    names, payloads := [], map[];
    for i := 0 to |files|
      invariant names == FirstNames(files[..i])
      invariant forall name :: name in names <==> name in payloads
      invariant forall name :: name in names ==> payloads[name] == LastDigest(files[..i], name)
    {
      assert files[..i + 1][..i] == files[..i];
      if files[i].name !in payloads {
        names := names + [files[i].name];
      }
      payloads := payloads[files[i].name := files[i].digest];
    }
    assert files[..|files|] == files;
  }
}
