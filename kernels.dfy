/**
  Enumeration of the installed kernels: every entry of `/lib/modules`, taken in sorted
  order, that is a directory whose name starts with a parsable `major[.minor[.patch]]`
  becomes a `KernelInfo` record; every other entry is skipped without an error.
 */
module Kernels {
  import opened Wrappers
  import opened PyText

  /** The directory whose entries name the installed kernels. */
  const ModulesRoot: string := "/lib/modules"

  /** What the wizard records about one installed kernel. */
  datatype KernelInfo = KernelInfo(
    version: string,        // "major.minor"
    fullVersion: string,    // the directory name, e.g. "6.17.2-arch1"
    major: int,
    minor: int,
    patch: int,
    headersInstalled: bool, // the entry has a `build` subdirectory
    headersPath: string,
    isCurrent: bool,        // the entry names the running kernel
    supported: bool)        // 6.16, 6.17 or 6.18

  /** One entry of the modules directory, as the filesystem reports it. */
  datatype DirEntry = DirEntry(name: string, isDir: bool, hasBuildDir: bool)

  /** The modules directory: absent, or present with its (unordered) entries. */
  datatype ModulesDir = Missing | Listing(entries: seq<DirEntry>)

  datatype Version = Version(major: int, minor: int, patch: int)

  // ---------------------------------------------------------------------------
  // Parsing a directory name
  // ---------------------------------------------------------------------------

  /** The text before the first `-`: `name.split('-')[0]`. */
  function VersionField(name: string): string {
    Split(name, '-')[0]
  }

  /** `name.split('-')[0].split('.')` */
  function VersionParts(name: string): (parts: seq<string>)
    ensures |parts| >= 1
  {
    Split(VersionField(name), '.')
  }

  /** The components `int()` has to accept: the first, and the second and third where present. */
  predicate VersionAccepted(name: string) {
    var parts := VersionParts(name);
    && IsIntLiteral(parts[0])
    && (|parts| > 1 ==> IsIntLiteral(parts[1]))
    && (|parts| > 2 ==> IsIntLiteral(parts[2]))
  }

  /** The `(major, minor, patch)` a directory name denotes; `None` is the caught `ValueError`. */
  function ParseVersion(name: string): Option<Version> {
    var parts := VersionParts(name);
    var major := ParseInt(parts[0]);
    var minor := if |parts| > 1 then ParseInt(parts[1]) else Some(0);
    var patch := if |parts| > 2 then ParseInt(parts[2]) else Some(0);
    if major.Some? && minor.Some? && patch.Some? then
      Some(Version(major.value, minor.value, patch.value))
    else None
  }

  /** The supported kernel series: 6.16, 6.17 and 6.18. */
  predicate Supported(major: int, minor: int) {
    major == 6 && minor in {16, 17, 18}
  }

  /** The f-string `"{major}.{minor}"`. */
  function VersionString(major: int, minor: int): string {
    IntToString(major) + "." + IntToString(minor)
  }

  /** `str(Path("/lib/modules") / name / "build")` */
  function HeadersPath(name: string): string {
    ModulesRoot + "/" + name + "/build"
  }

  /** The record one entry contributes, or `None` when the loop skips it. */
  function Classify(entry: DirEntry, currentKernel: string): (r: Option<KernelInfo>)
    ensures r.Some? ==> entry.isDir && r.value.fullVersion == entry.name
  {
    if !entry.isDir then None
    else match ParseVersion(entry.name)
      case None => None
      case Some(v) =>
        Some(KernelInfo(
          version := VersionString(v.major, v.minor),
          fullVersion := entry.name,
          major := v.major,
          minor := v.minor,
          patch := v.patch,
          headersInstalled := entry.hasBuildDir,
          headersPath := HeadersPath(entry.name),
          isCurrent := entry.name == currentKernel,
          supported := Supported(v.major, v.minor)))
  }

  // ---------------------------------------------------------------------------
  // Facts about the parser
  // ---------------------------------------------------------------------------

  /** A name is accepted exactly when its first three components parse; the components
      are never negative, and a missing minor or patch is 0. */
  lemma ParseVersionSpec(name: string)
    ensures ParseVersion(name).Some? <==> VersionAccepted(name)
    ensures ParseVersion(name).Some? ==> var v := ParseVersion(name).value;
      && v.major >= 0 && v.minor >= 0 && v.patch >= 0
      && (|VersionParts(name)| < 3 ==> v.patch == 0)
      && (|VersionParts(name)| < 2 ==> v.minor == 0)
  {
    VersionPartsPlain(name);
  }

  /** What a recorded kernel says about its entry. */
  lemma ClassifySpec(entry: DirEntry, currentKernel: string)
    ensures Classify(entry, currentKernel).Some? <==> entry.isDir && VersionAccepted(entry.name)
    ensures Classify(entry, currentKernel).Some? ==> var k := Classify(entry, currentKernel).value;
      && k.fullVersion == entry.name
      && ParseVersion(entry.name) == Some(Version(k.major, k.minor, k.patch))
      && k.major >= 0 && k.minor >= 0
      && k.version == NatToString(k.major) + "." + NatToString(k.minor)
      && (k.supported <==> k.major == 6 && 16 <= k.minor <= 18)
      && (k.isCurrent <==> entry.name == currentKernel)
      && k.headersInstalled == entry.hasBuildDir
      && k.headersPath == HeadersPath(entry.name)
  {
    ParseVersionSpec(entry.name);
  }

  /** A character absent from the split string is absent from every part. */
  lemma {:induction false} SplitPartsWithout(s: string, sep: char, c: char)
    requires c !in s
    ensures forall i :: 0 <= i < |Split(s, sep)| ==> c !in Split(s, sep)[i]
    decreases |s|
  {
    if |s| > 0 {
      assert c !in s[1..] by {
        forall k | 0 <= k < |s[1..]| ensures s[1..][k] != c { assert s[1..][k] == s[k + 1]; }
      }
      SplitPartsWithout(s[1..], sep, c);
    }
  }

  /** A character in no part and different from the separator is absent from the join. */
  lemma {:induction false} JoinWithout(parts: seq<string>, sep: char, c: char)
    requires |parts| >= 1 && c != sep
    requires forall i :: 0 <= i < |parts| ==> c !in parts[i]
    ensures c !in Join(parts, sep)
    decreases |parts|
  {
    if |parts| > 1 {
      JoinWithout(parts[1..], sep, c);
    }
  }

  /** No version component contains a `-`, so `int()` never sees a negative number. */
  lemma VersionPartsPlain(name: string)
    ensures forall i :: 0 <= i < |VersionParts(name)| ==> '-' !in VersionParts(name)[i]
  {
    SplitPartsSepFree(name, '-');
    SplitPartsWithout(VersionField(name), '.', '-');
  }

  /** A name whose version text has no `-` is its own version field. */
  lemma VersionPartsOfPlainName(name: string)
    requires '-' !in name
    ensures VersionField(name) == name
  {
    SplitWithoutSep(name, '-');
  }

  /** Components after the third are ignored: only the first three decide the version. */
  lemma ExtraComponentsIgnored(name: string)
    requires |VersionParts(name)| > 3
    ensures ParseVersion(name) == ParseVersion(Join(VersionParts(name)[..3], '.'))
  {
    var parts := VersionParts(name);
    var head := parts[..3];
    var t := Join(head, '.');
    VersionPartsPlain(name);
    SplitPartsSepFree(VersionField(name), '.');
    JoinWithout(head, '.', '-');
    VersionPartsOfPlainName(t);
    SplitJoin(head, '.');
    assert VersionParts(t) == head;
  }

  /** The `version` text is a name of its own: parsed again it gives `(major, minor, 0)`. */
  lemma VersionStringParses(major: nat, minor: nat)
    ensures ParseVersion(VersionString(major, minor)) == Some(Version(major, minor, 0))
  {
    var a, b := IntToString(major), IntToString(minor);
    var t := VersionString(major, minor);
    NatToStringPlain(major);
    NatToStringPlain(minor);
    assert t == Join([a, b], '.');
    JoinWithout([a, b], '.', '-');
    VersionPartsOfPlainName(t);
    SplitJoin([a, b], '.');
    ParseIntToString(major);
    ParseIntToString(minor);
  }

  /** Every recorded kernel's `version` names its own series. */
  lemma {:induction false} ClassifiedVersionParses(entry: DirEntry, currentKernel: string)
    requires Classify(entry, currentKernel).Some?
    ensures var k := Classify(entry, currentKernel).value;
      ParseVersion(k.version) == Some(Version(k.major, k.minor, 0))
      && Supported(k.major, k.minor) == k.supported
      && k.headersPath == HeadersPath(k.fullVersion)
  {
    var k := Classify(entry, currentKernel).value;
    ParseVersionSpec(entry.name);
    VersionStringParses(k.major, k.minor);
  }

  /** `int()` of the one- and two-digit components the worked examples use. */
  lemma ParseIntExamples()
    ensures ParseInt("6") == Some(6) && ParseInt("2") == Some(2)
    ensures ParseInt("17") == Some(17) && ParseInt("18") == Some(18)
  {
    assert "17"[..1] == "1" && "18"[..1] == "1" && "1"[..0] == "";
    assert DigitsValue("1") == 1;
  }

  /** `"6.18-rc1".split('-')[0].split('.')` */
  lemma SuffixParts()
    ensures VersionParts("6.18-rc1") == ["6", "18"]
  {
    assert "6.18-rc1" == "6.18" + ['-'] + "rc1";
    SplitAfterPart("6.18", '-', "rc1");
    assert "6.18" == Join(["6", "18"], '.');
    SplitJoin(["6", "18"], '.');
  }

  /** Worked example: a release suffix after `-` is dropped and the missing patch is 0. */
  lemma ParseExampleSuffix()
    ensures ParseVersion("6.18-rc1") == Some(Version(6, 18, 0))
  {
    SuffixParts();
    ParseIntExamples();
  }

  /** `"6.17.2.1".split('-')[0].split('.')` */
  lemma FourParts()
    ensures VersionParts("6.17.2.1") == ["6", "17", "2", "1"]
  {
    assert "6.17.2.1" == Join(["6", "17", "2", "1"], '.');
    JoinWithout(["6", "17", "2", "1"], '.', '-');
    SplitWithoutSep("6.17.2.1", '-');
    SplitJoin(["6", "17", "2", "1"], '.');
  }

  /** Worked example: a fourth component is ignored. */
  lemma ParseExampleFourParts()
    ensures ParseVersion("6.17.2.1") == Some(Version(6, 17, 2))
  {
    FourParts();
    ParseIntExamples();
  }

  /** `"6.17.2-arch1".split('-')[0].split('.')` */
  lemma DistributionParts()
    ensures VersionParts("6.17.2-arch1") == ["6", "17", "2"]
  {
    assert "6.17.2-arch1" == "6.17.2" + ['-'] + "arch1";
    SplitAfterPart("6.17.2", '-', "arch1");
    assert "6.17.2" == Join(["6", "17", "2"], '.');
    SplitJoin(["6", "17", "2"], '.');
  }

  /** Worked example: a distribution suffix is dropped. */
  lemma ParseExampleDistribution()
    ensures ParseVersion("6.17.2-arch1") == Some(Version(6, 17, 2))
  {
    DistributionParts();
    ParseIntExamples();
  }

  /** Worked example: a name that does not start with a number is skipped. */
  lemma ParseExampleRejected()
    ensures ParseVersion("linux") == None
  {
    SplitWithoutSep("linux", '-');
    SplitWithoutSep("linux", '.');
  }

  // ---------------------------------------------------------------------------
  // sorted(modules_dir.iterdir())
  // ---------------------------------------------------------------------------

  predicate SortedByName(s: seq<DirEntry>) {
    forall i, j :: 0 <= i < j < |s| ==> LexLe(s[i].name, s[j].name)
  }

  /** Kernel records in ascending order of their directory names. */
  predicate SortedByVersion(ks: seq<KernelInfo>) {
    forall i, j :: 0 <= i < j < |ks| ==> LexLe(ks[i].fullVersion, ks[j].fullVersion)
  }

  /** The number of entries that are directories. */
  function DirCount(s: seq<DirEntry>): nat {
    if s == [] then 0 else (if s[0].isDir then 1 else 0) + DirCount(s[1..])
  }

  function InsertByName(e: DirEntry, s: seq<DirEntry>): (r: seq<DirEntry>)
    ensures multiset(r) == multiset(s) + multiset{e}
    ensures DirCount(r) == DirCount(s) + (if e.isDir then 1 else 0)
  {
    if s == [] || LexLe(e.name, s[0].name) then [e] + s
    else
      assert s == [s[0]] + s[1..];
      [s[0]] + InsertByName(e, s[1..])
  }

  /** Inserting adds `e` and nothing else. */
  lemma InsertByNameElements(e: DirEntry, s: seq<DirEntry>)
    ensures forall x :: x in InsertByName(e, s) ==> x == e || x in s
  {
    forall x | x in InsertByName(e, s) ensures x == e || x in s {
      assert x in multiset(InsertByName(e, s));
    }
  }

  lemma {:induction false} InsertByNameSorted(e: DirEntry, s: seq<DirEntry>)
    requires SortedByName(s)
    ensures SortedByName(InsertByName(e, s))
  {
    if s == [] {
    } else if LexLe(e.name, s[0].name) {
      var r := [e] + s;
      forall i, j | 0 <= i < j < |r| ensures LexLe(r[i].name, r[j].name) {
        if i == 0 && j > 1 {
          LexLeTransitive(e.name, s[0].name, s[j - 1].name);
        }
      }
    } else {
      LexLeTotal(e.name, s[0].name);
      var tail := InsertByName(e, s[1..]);
      InsertByNameSorted(e, s[1..]);
      InsertByNameElements(e, s[1..]);
      var r := [s[0]] + tail;
      forall j | 1 <= j < |r| ensures LexLe(s[0].name, r[j].name) {
        assert r[j] in tail;
        if r[j] != e {
          var m :| 0 <= m < |s[1..]| && s[1..][m] == r[j];
          assert s[m + 1] == r[j];
        }
      }
    }
  }

  /** `sorted()` on the entries, as an insertion sort by name. */
  function SortByName(s: seq<DirEntry>): (r: seq<DirEntry>)
    ensures multiset(r) == multiset(s) && |r| == |s|
  {
    if s == [] then []
    else
      assert s == [s[0]] + s[1..];
      InsertByName(s[0], SortByName(s[1..]))
  }

  /** The sorted listing is in ascending name order and has as many directories. */
  lemma {:induction false} SortByNameSorted(s: seq<DirEntry>)
    ensures SortedByName(SortByName(s))
    ensures DirCount(SortByName(s)) == DirCount(s)
    decreases |s|
  {
    if s != [] {
      SortByNameSorted(s[1..]);
      InsertByNameSorted(s[0], SortByName(s[1..]));
    }
  }

  /** Entry names are pairwise different, as they are in one directory. */
  predicate DistinctNames(s: seq<DirEntry>) {
    forall i, j :: 0 <= i < j < |s| ==> s[i].name != s[j].name
  }

  /** Two name-sorted arrangements of one listing start with the same entry. */
  lemma SortedHeadsAgree(a: seq<DirEntry>, b: seq<DirEntry>)
    requires a != [] && multiset(a) == multiset(b)
    requires SortedByName(a) && SortedByName(b) && DistinctNames(b)
    ensures b != [] && a[0] == b[0]
  {
    assert a[0] in multiset(b);
    var k :| 0 <= k < |b| && b[k] == a[0];
    assert b[0] in multiset(a);
    var m :| 0 <= m < |a| && a[m] == b[0];
    if k > 0 {
      assert b[0].name != b[k].name;
      assert LexLe(b[0].name, a[0].name);
      assert m > 0 && LexLe(a[0].name, b[0].name);
      LexLeAntisymmetric(a[0].name, b[0].name);
      assert false;
    }
  }

  lemma TailsPermuted(a: seq<DirEntry>, b: seq<DirEntry>)
    requires a != [] && b != [] && a[0] == b[0] && multiset(a) == multiset(b)
    ensures multiset(a[1..]) == multiset(b[1..])
  {
    assert a == [a[0]] + a[1..];
    assert b == [b[0]] + b[1..];
    var ma, mb := multiset(a[1..]), multiset(b[1..]);
    assert multiset(a) == multiset{a[0]} + ma;
    assert multiset(b) == multiset{a[0]} + mb;
    forall x ensures ma[x] == mb[x] {
      assert multiset(a)[x] == multiset{a[0]}[x] + ma[x];
      assert multiset(b)[x] == multiset{a[0]}[x] + mb[x];
    }
  }

  /** With distinct names there is only one name-sorted order of a listing, so the order
      `SortByName` produces is the one Python's `sorted()` produces. */
  lemma {:induction false} SortedOrderUnique(a: seq<DirEntry>, b: seq<DirEntry>)
    requires multiset(a) == multiset(b)
    requires SortedByName(a) && SortedByName(b) && DistinctNames(b)
    ensures a == b
    decreases |a|
  {
    if a == [] {
      assert |b| == |multiset(b)| == 0;
    } else {
      SortedHeadsAgree(a, b);
      TailsPermuted(a, b);
      SortedOrderUnique(a[1..], b[1..]);
      assert a == [a[0]] + a[1..] && b == [b[0]] + b[1..];
    }
  }

  /** Any name-sorted arrangement of a listing with distinct names is `SortByName`'s result. */
  lemma SortByNameMatchesSorted(entries: seq<DirEntry>, sorted: seq<DirEntry>)
    requires multiset(sorted) == multiset(entries)
    requires SortedByName(sorted) && DistinctNames(sorted)
    ensures SortByName(entries) == sorted
  {
    SortByNameSorted(entries);
    SortedOrderUnique(SortByName(entries), sorted);
  }

  /** Inserting an entry whose name is new keeps the names distinct. */
  lemma {:induction false} InsertByNameDistinct(e: DirEntry, s: seq<DirEntry>)
    requires DistinctNames(s)
    requires forall x :: x in s ==> x.name != e.name
    ensures DistinctNames(InsertByName(e, s))
    decreases |s|
  {
    if s == [] {
    } else if LexLe(e.name, s[0].name) {
      var r := [e] + s;
      forall i, j | 0 <= i < j < |r| ensures r[i].name != r[j].name {
        assert r[j] == s[j - 1];
        if i > 0 {
          assert r[i] == s[i - 1];
        }
      }
    } else {
      assert DistinctNames(s[1..]);
      var tail := InsertByName(e, s[1..]);
      InsertByNameDistinct(e, s[1..]);
      InsertByNameElements(e, s[1..]);
      var r := [s[0]] + tail;
      forall i, j | 0 <= i < j < |r| ensures r[i].name != r[j].name {
        assert r[j] == tail[j - 1] && r[j] in tail;
        if i > 0 {
          assert r[i] == tail[i - 1];
        } else if r[j] != e {
          var m :| 0 <= m < |s[1..]| && s[1..][m] == r[j];
          assert s[m + 1] == r[j];
        }
      }
    }
  }

  /** Sorting a listing with distinct names keeps them distinct. */
  lemma {:induction false} SortByNameDistinct(s: seq<DirEntry>)
    requires DistinctNames(s)
    ensures DistinctNames(SortByName(s))
    decreases |s|
  {
    if s != [] {
      assert DistinctNames(s[1..]);
      SortByNameDistinct(s[1..]);
      var rest := SortByName(s[1..]);
      forall x | x in rest ensures x.name != s[0].name {
        assert x in multiset(rest);
        assert x in multiset(s[1..]);
        var m :| 0 <= m < |s[1..]| && s[1..][m] == x;
        assert s[m + 1] == x;
      }
      InsertByNameDistinct(s[0], rest);
    }
  }

  // ---------------------------------------------------------------------------
  // detect_installed_kernels
  // ---------------------------------------------------------------------------

  /** How the loop turns one directory entry into a record, or skips it. */
  type Classifier = DirEntry -> Option<KernelInfo>

  /** The classification the loop applies for a given running release. */
  function ClassifierFor(currentKernel: string): Classifier {
    e => Classify(e, currentKernel)
  }

  /** A classifier that accepts only directories and names each record after its entry. */
  ghost predicate KeepsNames(classify: Classifier) {
    forall e :: classify(e).Some? ==> e.isDir && classify(e).value.fullVersion == e.name
  }

  lemma ClassifierKeepsNames(currentKernel: string)
    ensures KeepsNames(ClassifierFor(currentKernel))
  {
  }

  /** The records `classify` gives for `entries`, in their order, skipping rejected entries:
      the list the loop builds by appending. */
  function ClassifyAll(entries: seq<DirEntry>, classify: Classifier): (r: seq<KernelInfo>)
    ensures |r| <= |entries|
  {
    if entries == [] then []
    else
      var last := entries[|entries| - 1];
      ClassifyAll(entries[..|entries| - 1], classify)
        + (if classify(last).Some? then [classify(last).value] else [])
  }

  /** What `detect_installed_kernels` returns for a modules directory and running release. */
  function InstalledKernels(modulesDir: ModulesDir, currentKernel: string): seq<KernelInfo> {
    match modulesDir
    case Missing => []
    case Listing(entries) => ClassifyAll(SortByName(entries), ClassifierFor(currentKernel))
  }

  /** The enumeration loop: one record per accepted directory, in sorted order. */
  method DetectInstalledKernels(modulesDir: ModulesDir, currentKernel: string)
    returns (kernels: seq<KernelInfo>)
    ensures kernels == InstalledKernels(modulesDir, currentKernel)
    ensures modulesDir.Missing? ==> kernels == []
  {
    kernels := [];
    if modulesDir.Missing? {
      return;
    }
    var classify := ClassifierFor(currentKernel);
    var dirs := SortByName(modulesDir.entries);
    for i := 0 to |dirs|
      invariant kernels == ClassifyAll(dirs[..i], classify)
    {
      assert dirs[..i + 1][..i] == dirs[..i];
      var info := Classify(dirs[i], currentKernel);
      if info.Some? {
        kernels := kernels + [info.value];
      }
    }
    assert dirs[..|dirs|] == dirs;
  }

  // ---------------------------------------------------------------------------
  // Facts about the enumeration
  // ---------------------------------------------------------------------------

  /** Every record comes from an accepted entry of the listing. */
  lemma {:induction false} ClassifyAllSound(entries: seq<DirEntry>, classify: Classifier)
    ensures forall k :: k in ClassifyAll(entries, classify) ==>
      exists e :: e in entries && classify(e) == Some(k)
    decreases |entries|
  {
    if entries != [] {
      var init := entries[..|entries| - 1];
      var last := entries[|entries| - 1];
      ClassifyAllSound(init, classify);
      forall k | k in ClassifyAll(entries, classify)
        ensures exists e :: e in entries && classify(e) == Some(k)
      {
        if k in ClassifyAll(init, classify) {
          var e :| e in init && classify(e) == Some(k);
          assert e in entries;
        } else {
          assert classify(last) == Some(k);
        }
      }
    }
  }

  /** Every accepted entry of the listing yields its record. */
  lemma {:induction false} ClassifyAllComplete(entries: seq<DirEntry>, classify: Classifier)
    ensures forall e :: e in entries && classify(e).Some? ==>
      classify(e).value in ClassifyAll(entries, classify)
    decreases |entries|
  {
    if entries != [] {
      var init := entries[..|entries| - 1];
      var last := entries[|entries| - 1];
      ClassifyAllComplete(init, classify);
      assert entries == init + [last];
    }
  }

  /** Only directories contribute records. */
  lemma {:induction false} ClassifyAllDirCount(entries: seq<DirEntry>, classify: Classifier)
    requires KeepsNames(classify)
    ensures |ClassifyAll(entries, classify)| <= DirCount(entries)
    decreases |entries|
  {
    if entries != [] {
      var init := entries[..|entries| - 1];
      var last := entries[|entries| - 1];
      ClassifyAllDirCount(init, classify);
      assert entries == init + [last];
      DirCountAppend(init, last);
    }
  }

  lemma {:induction false} DirCountAppend(s: seq<DirEntry>, e: DirEntry)
    ensures DirCount(s + [e]) == DirCount(s) + (if e.isDir then 1 else 0)
    decreases |s|
  {
    if s != [] {
      assert (s + [e])[1..] == s[1..] + [e];
      DirCountAppend(s[1..], e);
    }
  }

  /** Records of a listing with distinct names carry distinct names: each accepted entry
      gives exactly one record and no record is repeated. */
  lemma {:induction false} ClassifyAllDistinct(entries: seq<DirEntry>, classify: Classifier)
    requires KeepsNames(classify) && DistinctNames(entries)
    ensures forall i, j :: 0 <= i < j < |ClassifyAll(entries, classify)| ==>
      ClassifyAll(entries, classify)[i].fullVersion != ClassifyAll(entries, classify)[j].fullVersion
    decreases |entries|
  {
    if entries != [] {
      var init := entries[..|entries| - 1];
      var last := entries[|entries| - 1];
      assert DistinctNames(init);
      ClassifyAllDistinct(init, classify);
      ClassifyAllSound(init, classify);
      var front := ClassifyAll(init, classify);
      var r := ClassifyAll(entries, classify);
      forall i, j | 0 <= i < j < |r| ensures r[i].fullVersion != r[j].fullVersion {
        if j < |front| {
          assert r[i] == front[i] && r[j] == front[j];
        } else {
          assert r[j] == classify(last).value && r[j].fullVersion == last.name;
          assert r[i] == front[i] && front[i] in front;
          var e :| e in init && classify(e) == Some(front[i]);
          var m :| 0 <= m < |init| && init[m] == e;
          assert entries[m] == e;
        }
      }
    }
  }

  /** Records of entries named at most `bound` have names at most `bound`. */
  lemma {:induction false} ClassifyAllBounded(entries: seq<DirEntry>, classify: Classifier, bound: string)
    requires KeepsNames(classify)
    requires forall i :: 0 <= i < |entries| ==> LexLe(entries[i].name, bound)
    ensures forall k :: k in ClassifyAll(entries, classify) ==> LexLe(k.fullVersion, bound)
    decreases |entries|
  {
    if entries != [] {
      ClassifyAllBounded(entries[..|entries| - 1], classify, bound);
    }
  }

  /** Records of a name-sorted listing are sorted by `fullVersion`. */
  lemma {:induction false} ClassifyAllSorted(entries: seq<DirEntry>, classify: Classifier)
    requires KeepsNames(classify)
    requires SortedByName(entries)
    ensures SortedByVersion(ClassifyAll(entries, classify))
    decreases |entries|
  {
    if entries != [] {
      var init := entries[..|entries| - 1];
      var last := entries[|entries| - 1];
      assert SortedByName(init);
      ClassifyAllSorted(init, classify);
      ClassifyAllBounded(init, classify, last.name);
      var front := ClassifyAll(init, classify);
      var r := ClassifyAll(entries, classify);
      forall i, j | 0 <= i < j < |r| ensures LexLe(r[i].fullVersion, r[j].fullVersion) {
        if j < |front| {
          assert r[i] == front[i] && r[j] == front[j];
        } else {
          assert r[j] == classify(last).value && r[j].fullVersion == last.name;
          assert r[i] == front[i] && front[i] in front;
          assert LexLe(front[i].fullVersion, last.name);
        }
      }
    }
  }

  /** Every entry of the sorted listing is an entry of the directory, and back. */
  lemma SortedListingSameEntries(entries: seq<DirEntry>)
    ensures forall e :: e in SortByName(entries) <==> e in entries
  {
    var sorted := SortByName(entries);
    forall e ensures e in sorted <==> e in entries {
      assert e in sorted <==> e in multiset(sorted);
      assert e in entries <==> e in multiset(entries);
    }
  }

  /** A missing modules directory yields no kernels, and a listing yields no more kernels
      than it has directories. */
  lemma InstalledKernelsBound(modulesDir: ModulesDir, currentKernel: string)
    ensures var r := InstalledKernels(modulesDir, currentKernel);
      && (modulesDir.Missing? ==> r == [])
      && (modulesDir.Listing? ==> |r| <= DirCount(modulesDir.entries) <= |modulesDir.entries|)
  {
    if modulesDir.Listing? {
      ClassifierKeepsNames(currentKernel);
      SortByNameSorted(modulesDir.entries);
      ClassifyAllDirCount(SortByName(modulesDir.entries), ClassifierFor(currentKernel));
      DirCountBound(modulesDir.entries);
    }
  }

  /** The kernels come out in ascending order of their directory names. */
  lemma InstalledKernelsSorted(modulesDir: ModulesDir, currentKernel: string)
    ensures SortedByVersion(InstalledKernels(modulesDir, currentKernel))
  {
    if modulesDir.Listing? {
      ClassifierKeepsNames(currentKernel);
      SortByNameSorted(modulesDir.entries);
      ClassifyAllSorted(SortByName(modulesDir.entries), ClassifierFor(currentKernel));
    }
  }

  /** Every kernel is the record of a directory of the listing that carries its name. */
  lemma InstalledKernelsSound(modulesDir: ModulesDir, currentKernel: string)
    ensures forall k :: k in InstalledKernels(modulesDir, currentKernel) ==>
      && modulesDir.Listing?
      && (exists e :: e in modulesDir.entries && e.isDir && e.name == k.fullVersion
           && Classify(e, currentKernel) == Some(k))
  {
    if modulesDir.Listing? {
      ClassifyAllSound(SortByName(modulesDir.entries), ClassifierFor(currentKernel));
      SortedListingSameEntries(modulesDir.entries);
    }
  }

  /** Every accepted directory of the listing yields its record. */
  lemma InstalledKernelsComplete(modulesDir: ModulesDir, currentKernel: string)
    requires modulesDir.Listing?
    ensures forall e :: e in modulesDir.entries && Classify(e, currentKernel).Some? ==>
      Classify(e, currentKernel).value in InstalledKernels(modulesDir, currentKernel)
  {
    ClassifyAllComplete(SortByName(modulesDir.entries), ClassifierFor(currentKernel));
    SortedListingSameEntries(modulesDir.entries);
  }

  /** Entries of one directory have distinct names, so no kernel is detected twice. */
  lemma InstalledKernelsDistinct(modulesDir: ModulesDir, currentKernel: string)
    requires modulesDir.Listing? ==> DistinctNames(modulesDir.entries)
    ensures forall i, j :: 0 <= i < j < |InstalledKernels(modulesDir, currentKernel)| ==>
      InstalledKernels(modulesDir, currentKernel)[i].fullVersion
        != InstalledKernels(modulesDir, currentKernel)[j].fullVersion
  {
    if modulesDir.Listing? {
      ClassifierKeepsNames(currentKernel);
      SortByNameDistinct(modulesDir.entries);
      ClassifyAllDistinct(SortByName(modulesDir.entries), ClassifierFor(currentKernel));
    }
  }

  lemma {:induction false} DirCountBound(s: seq<DirEntry>)
    ensures DirCount(s) <= |s|
    decreases |s|
  {
    if s != [] {
      DirCountBound(s[1..]);
    }
  }
}
