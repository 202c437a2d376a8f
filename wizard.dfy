/**
  The plan-selection part of the installation wizard: which detected kernels can be
  built, which of them the operator's choice selects, the compilation mode offered
  by default and chosen, and the configuration record handed to the build script.
 */
module Wizard {
  import opened Wrappers
  import opened PyText
  import opened Kernels

  /** A JSON value as the hardware-detection step leaves it (numbers as integers). */
  datatype Json =
    | JNull
    | JBool(b: bool)
    | JNumber(n: int)
    | JString(s: string)
    | JArray(items: seq<Json>)
    | JObject(fields: map<string, Json>)

  datatype Mode = Optimized | Vanilla

  /** The mode's name in the exported configuration. */
  function ModeName(mode: Mode): (name: string)
    ensures name == "optimized" || name == "vanilla"
    ensures (name == "optimized") <==> mode == Optimized
  {
    match mode
    case Optimized => "optimized"
    case Vanilla => "vanilla"
  }

  // ---------------------------------------------------------------------------
  // Candidate kernels: supported and with headers, in detection order
  // ---------------------------------------------------------------------------

  /** A kernel the modules can be built for. */
  predicate Buildable(k: KernelInfo) {
    k.supported && k.headersInstalled
  }

  /** `[k for k in kernels if k.supported and k.headers_installed]` */
  function SupportedWithHeaders(kernels: seq<KernelInfo>): (r: seq<KernelInfo>)
    ensures |r| <= |kernels|
    ensures forall k :: k in r ==> Buildable(k) && k in kernels
    ensures forall k :: multiset(r)[k] == if Buildable(k) then multiset(kernels)[k] else 0
  {
    if kernels == [] then []
    else
      assert kernels == [kernels[0]] + kernels[1..];
      (if Buildable(kernels[0]) then [kernels[0]] else []) + SupportedWithHeaders(kernels[1..])
  }

  /** `a` is `b` with some elements left out, the rest in their original order. */
  predicate IsSubsequence<T(==)>(a: seq<T>, b: seq<T>)
    decreases |b|
  {
    if a == [] then true
    else if b == [] then false
    else if a[0] == b[0] then IsSubsequence(a[1..], b[1..])
    else IsSubsequence(a, b[1..])
  }

  /** The candidates keep the detection order: they are a subsequence of the detected kernels. */
  lemma {:induction false} SupportedWithHeadersOrdered(kernels: seq<KernelInfo>)
    ensures IsSubsequence(SupportedWithHeaders(kernels), kernels)
    decreases |kernels|
  {
    if kernels != [] {
      var rest := SupportedWithHeaders(kernels[1..]);
      SupportedWithHeadersOrdered(kernels[1..]);
      if Buildable(kernels[0]) {
        assert SupportedWithHeaders(kernels) == [kernels[0]] + rest;
        assert ([kernels[0]] + rest)[1..] == rest;
      } else {
        // no candidate equals the skipped head, so matching moves on to the tail
        assert SupportedWithHeaders(kernels) == rest;
        assert rest != [] ==> rest[0] in rest && rest[0] != kernels[0];
      }
    }
  }

  // ---------------------------------------------------------------------------
  // Kernel selection
  // ---------------------------------------------------------------------------

  /** The operator's answer to the kernel prompt: the "all" entry or one offered kernel. */
  datatype KernelChoice = AllKernels | Single(kernel: KernelInfo)

  /** The answers the prompt offers: "all", or one of the candidates. */
  predicate Offered(candidates: seq<KernelInfo>, choice: KernelChoice) {
    choice.Single? ==> choice.kernel in candidates
  }

  /** `supported_kernels` for "all", otherwise the one chosen kernel. */
  function SelectKernels(candidates: seq<KernelInfo>, choice: KernelChoice): (r: seq<KernelInfo>)
    ensures choice.AllKernels? ==> r == candidates
    ensures choice.Single? ==> |r| == 1 && r[0] == choice.kernel
  {
    match choice
    case AllKernels => candidates
    case Single(k) => [k]
  }

  /** Whatever the operator answers, the selection is a non-empty set of buildable detected kernels. */
  lemma SelectionIsBuildable(detected: seq<KernelInfo>, choice: KernelChoice)
    requires SupportedWithHeaders(detected) != []
    requires Offered(SupportedWithHeaders(detected), choice)
    ensures var selected := SelectKernels(SupportedWithHeaders(detected), choice);
      && 1 <= |selected| <= |SupportedWithHeaders(detected)|
      && forall k :: k in selected ==> k in detected && Buildable(k)
  {
  }

  /** The last candidate marked as the running kernel: the prompt's highlighted default. */
  function LastCurrent(candidates: seq<KernelInfo>): (r: Option<KernelInfo>)
    ensures r.None? <==> forall k :: k in candidates ==> !k.isCurrent
    ensures r.Some? ==> r.value in candidates && r.value.isCurrent
  {
    if candidates == [] then None
    else
      var last := candidates[|candidates| - 1];
      if last.isCurrent then Some(last)
      else
        assert candidates == candidates[..|candidates| - 1] + [last];
        LastCurrent(candidates[..|candidates| - 1])
  }

  /** The loop that builds the kernel prompt and remembers the running kernel as its default. */
  method DefaultKernel(candidates: seq<KernelInfo>) returns (current: Option<KernelInfo>)
    ensures current == LastCurrent(candidates)
  {
    current := None;
    for i := 0 to |candidates|
      invariant current == LastCurrent(candidates[..i])
    {
      assert candidates[..i + 1][..i] == candidates[..i];
      if candidates[i].isCurrent {
        current := Some(candidates[i]);
      }
    }
    assert candidates[..|candidates|] == candidates;
  }

  /** The default offered is the running release exactly when that release is a buildable
      installed kernel. */
  lemma DefaultIsRunningKernel(modulesDir: ModulesDir, release: string)
    ensures var candidates := SupportedWithHeaders(InstalledKernels(modulesDir, release));
      && (LastCurrent(candidates).Some? <==> exists k :: k in candidates && k.fullVersion == release)
      && (LastCurrent(candidates).Some? ==> LastCurrent(candidates).value.fullVersion == release)
  {
    var detected := InstalledKernels(modulesDir, release);
    InstalledKernelsSound(modulesDir, release);
    forall k | k in detected ensures k.isCurrent <==> k.fullVersion == release {
      var e :| e in modulesDir.entries && e.name == k.fullVersion && Classify(e, release) == Some(k);
    }
  }

  // ---------------------------------------------------------------------------
  // Mode recommendation and choice
  // ---------------------------------------------------------------------------

  /** `hw.get('optimization', {}).get(key, default)`; `None` is the `AttributeError` raised
      when a value looked up is not a JSON object. */
  function OptimizationLookup(hw: Json, key: string, default: Json): (r: Option<Json>)
    ensures r.None? <==>
      !hw.JObject? || ("optimization" in hw.fields && !hw.fields["optimization"].JObject?)
    ensures r.Some? && ("optimization" !in hw.fields || key !in hw.fields["optimization"].fields) ==>
      r.value == default
    ensures r.Some? && "optimization" in hw.fields && key in hw.fields["optimization"].fields ==>
      r.value == hw.fields["optimization"].fields[key]
  {
    match hw
    case JObject(fields) =>
      var optimization := if "optimization" in fields then fields["optimization"] else JObject(map[]);
      (match optimization
       case JObject(section) => Some(if key in section then section[key] else default)
       case _ => None)
    case _ => None
  }

  /** The recommended mode looked up in the hardware report (default `"optimized"`). */
  function RecommendedMode(hw: Json): Option<Json> {
    OptimizationLookup(hw, "recommended_mode", JString("optimized"))
  }

  /** The optimization score looked up in the hardware report (default 50). */
  function OptimizationScore(hw: Json): Option<Json> {
    OptimizationLookup(hw, "optimization_score", JNumber(50))
  }

  /** The score lookup fails exactly when the recommendation lookup fails. */
  lemma ScoreFailsWithRecommendation(hw: Json)
    ensures OptimizationScore(hw).None? <==> RecommendedMode(hw).None?
  {
  }

  /** With no hardware data at all the wizard still recommends the optimized mode. */
  lemma EmptyReportRecommendsOptimized()
    ensures RecommendedMode(JObject(map[])) == Some(JString("optimized"))
    ensures OptimizationScore(JObject(map[])) == Some(JNumber(50))
  {
  }

  /** The mode the mode prompt highlights. */
  function DefaultMode(recommended: string): (mode: Mode)
    ensures mode == Optimized <==> recommended == "optimized"
  {
    if recommended == "optimized" then Optimized else Vanilla
  }

  /** The mode in effect: the operator's answer, or the highlighted default. */
  function ChosenMode(answer: Option<Mode>, recommended: string): (mode: Mode)
    ensures answer.Some? ==> mode == answer.value
    ensures answer.None? ==> (mode == Optimized <==> recommended == "optimized")
  {
    match answer
    case Some(m) => m
    case None => DefaultMode(recommended)
  }

  /** IOMMU is configured as part of the optimized mode and only then. */
  function AutoConfigureIommu(mode: Mode): (on: bool)
    ensures on <==> ModeName(mode) == "optimized"
  {
    mode == Optimized
  }

  // ---------------------------------------------------------------------------
  // Exported configuration
  // ---------------------------------------------------------------------------

  /** The six fields exported for each selected kernel. */
  datatype KernelConfig = KernelConfig(
    fullVersion: string,
    version: string,
    major: int,
    minor: int,
    patch: int,
    isCurrent: bool)

  /** The configuration record handed to the build script (the timestamp left out). */
  datatype Config = Config(
    selectedKernels: seq<KernelConfig>,
    optimizationMode: string,
    hwCapabilities: Json,
    autoConfigureIommu: bool)

  function ExportKernel(k: KernelInfo): KernelConfig {
    KernelConfig(k.fullVersion, k.version, k.major, k.minor, k.patch, k.isCurrent)
  }

  /** The exported list: one record per selected kernel, in the same order. */
  function ExportKernels(kernels: seq<KernelInfo>): (r: seq<KernelConfig>)
    ensures |r| == |kernels|
    ensures forall i :: 0 <= i < |kernels| ==>
      && r[i].fullVersion == kernels[i].fullVersion && r[i].version == kernels[i].version
      && r[i].major == kernels[i].major && r[i].minor == kernels[i].minor
      && r[i].patch == kernels[i].patch && r[i].isCurrent == kernels[i].isCurrent
  {
    seq(|kernels|, i requires 0 <= i < |kernels| => ExportKernel(kernels[i]))
  }

  /** The record the build script can rebuild from an exported entry and the headers flag. */
  function RestoreKernel(c: KernelConfig, headersInstalled: bool): KernelInfo {
    KernelInfo(
      version := c.version,
      fullVersion := c.fullVersion,
      major := c.major,
      minor := c.minor,
      patch := c.patch,
      headersInstalled := headersInstalled,
      headersPath := HeadersPath(c.fullVersion),
      isCurrent := c.isCurrent,
      supported := Supported(c.major, c.minor))
  }

  /** The export loses nothing but the headers flag: the dropped `headers_path` and
      `supported` are determined by the exported fields. */
  lemma {:induction false} ExportRoundTrip(entry: DirEntry, currentKernel: string)
    requires Classify(entry, currentKernel).Some?
    ensures var k := Classify(entry, currentKernel).value;
      RestoreKernel(ExportKernel(k), k.headersInstalled) == k
  {
    ClassifiedVersionParses(entry, currentKernel);
  }

  /** The configuration written after the final confirmation. */
  function MakeConfig(selected: seq<KernelInfo>, mode: Mode, hw: Json): (c: Config)
    ensures c.autoConfigureIommu <==> c.optimizationMode == "optimized"
    ensures c.optimizationMode == "optimized" <==> mode == Optimized
    ensures |c.selectedKernels| == |selected| && c.hwCapabilities == hw
    ensures c.selectedKernels == ExportKernels(selected) && c.optimizationMode == ModeName(mode)
  {
    Config(ExportKernels(selected), ModeName(mode), hw, AutoConfigureIommu(mode))
  }

  // ---------------------------------------------------------------------------
  // The wizard object
  // ---------------------------------------------------------------------------

  /** What the host provides: the modules directory, the running release (`uname -r`) and
      the hardware report (`None` when the detection script left no report file). */
  datatype Host = Host(modulesDir: ModulesDir, release: string, hardware: Option<Json>)

  /** The operator's answers to the four prompts; `modeChoice == None` accepts the default. */
  datatype Answers = Answers(
    startConfirmed: bool,
    kernelChoice: KernelChoice,
    modeChoice: Option<Mode>,
    proceedConfirmed: bool)

  /** The recommendation can be read and is text, so `.upper()` on it succeeds. */
  predicate RecommendationReadable(hw: Json) {
    var rec := RecommendedMode(hw);
    rec.Some? && rec.value.JString?
  }

  class VMwareWizard {
    var detectedKernels: seq<KernelInfo>
    var selectedKernels: seq<KernelInfo>
    var optimizationMode: Mode
    var hwCapabilities: Json

    constructor ()
      ensures detectedKernels == [] && selectedKernels == []
      ensures optimizationMode == Optimized && hwCapabilities == JObject(map[])
    {
      detectedKernels := [];
      selectedKernels := [];
      optimizationMode := Optimized;
      hwCapabilities := JObject(map[]);
    }

    /** Step 1: detect the kernels and apply the operator's choice; false when no kernel
        (or no buildable kernel) was found. */
    method KernelStep(host: Host, choice: KernelChoice) returns (ok: bool)
      modifies this
      ensures detectedKernels == InstalledKernels(host.modulesDir, host.release)
      ensures ok <==> SupportedWithHeaders(detectedKernels) != []
      ensures selectedKernels ==
        if ok then SelectKernels(SupportedWithHeaders(detectedKernels), choice) else old(selectedKernels)
      ensures optimizationMode == old(optimizationMode) && hwCapabilities == old(hwCapabilities)
    {
      detectedKernels := DetectInstalledKernels(host.modulesDir, host.release);
      if detectedKernels == [] {
        return false;
      }
      var candidates := SupportedWithHeaders(detectedKernels);
      if candidates == [] {
        return false;
      }
      selectedKernels := SelectKernels(candidates, choice);
      ok := true;
    }

    /** Steps 2 and 3: take the hardware report and settle the mode; false when the
        recommendation cannot be read. */
    method ModeStep(hardware: Option<Json>, modeChoice: Option<Mode>) returns (ok: bool)
      modifies this
      ensures hwCapabilities == if hardware.Some? then hardware.value else old(hwCapabilities)
      ensures ok <==> RecommendationReadable(hwCapabilities)
      ensures optimizationMode ==
        if ok then ChosenMode(modeChoice, RecommendedMode(hwCapabilities).value.s) else old(optimizationMode)
      ensures detectedKernels == old(detectedKernels) && selectedKernels == old(selectedKernels)
    {
      if hardware.Some? {
        hwCapabilities := hardware.value;
      }
      var recommended := RecommendedMode(hwCapabilities);
      if !(recommended.Some? && recommended.value.JString?) {
        return false;
      }
      optimizationMode := ChosenMode(modeChoice, recommended.value.s);
      ok := true;
    }

    /** The wizard flow; status 0 with the exported configuration, or 1. */
    method Run(host: Host, answers: Answers) returns (status: int, config: Option<Config>)
      modifies this
      ensures status == (if config.Some? then 0 else 1)
      ensures !answers.startConfirmed ==>
        status == 1 && unchanged(this)
      ensures answers.startConfirmed ==>
        detectedKernels == InstalledKernels(host.modulesDir, host.release)
      ensures answers.startConfirmed && SupportedWithHeaders(detectedKernels) == [] ==>
        && status == 1
        && selectedKernels == old(selectedKernels)
        && optimizationMode == old(optimizationMode)
        && hwCapabilities == old(hwCapabilities)
      ensures answers.startConfirmed && SupportedWithHeaders(detectedKernels) != [] ==>
        && selectedKernels == SelectKernels(SupportedWithHeaders(detectedKernels), answers.kernelChoice)
        && hwCapabilities == (if host.hardware.Some? then host.hardware.value else old(hwCapabilities))
        && (if RecommendationReadable(hwCapabilities) then
              && optimizationMode == ChosenMode(answers.modeChoice, RecommendedMode(hwCapabilities).value.s)
              && (status == 0 <==> answers.proceedConfirmed)
            else
              status == 1 && optimizationMode == old(optimizationMode))
      ensures status == 0 ==>
        config == Some(MakeConfig(selectedKernels, optimizationMode, hwCapabilities))
    {
      if !answers.startConfirmed {
        return 1, None;
      }
      var found := KernelStep(host, answers.kernelChoice);
      if !found {
        return 1, None;
      }
      var readable := ModeStep(host.hardware, answers.modeChoice);
      if !readable || !answers.proceedConfirmed {
        return 1, None;
      }
      config := Some(MakeConfig(selectedKernels, optimizationMode, hwCapabilities));
      status := 0;
    }
  }
}
